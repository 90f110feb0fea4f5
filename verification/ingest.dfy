/** The decision logic of the bot's `handle_file`: which attachment of a
    message is taken, which filename and mime type it is stored under, whether
    its size is admitted, the stream link handed back and the HTML embed
    snippet chosen for it. The Telegram download is replaced by the bytes it
    would return, passed in as `content`. */
module Ingest {
  import opened Common
  import opened FileStore

  /** A Telegram attachment, as far as `handle_file` reads it. Every kind
      carries the same fields here; each kind below ignores those the handler
      does not look at (a video's name, a voice note's mime type). */
  datatype Attachment = Attachment(
    fileId: string,
    fileName: Option<string>,
    mimeType: Option<string>,
    fileSize: Option<nat>)

  /** The four optional attachment slots of an incoming message. */
  datatype Message = Message(
    document: Option<Attachment>,
    video: Option<Attachment>,
    audio: Option<Attachment>,
    voice: Option<Attachment>)

  datatype Kind = Document | Video | Audio | Voice

  /** The attachment slot of `m` that holds kind `k`. */
  function Slot(m: Message, k: Kind): Option<Attachment> {
    match k
    case Document => m.document
    case Video => m.video
    case Audio => m.audio
    case Voice => m.voice
  }

  predicate Present(m: Message, k: Kind) {
    Slot(m, k).Some?
  }

  /** Position of a kind in the handler's test order. */
  function Rank(k: Kind): nat {
    match k
    case Document => 0
    case Video => 1
    case Audio => 2
    case Voice => 3
  }

  /** The `if message.document / elif video / elif audio / elif voice` chain.
      The chosen kind is present and no kind tested before it is; nothing is
      chosen exactly when no slot is filled. */
  function Classify(m: Message): (r: Option<(Kind, Attachment)>)
    ensures r.None? <==> forall k: Kind :: !Present(m, k)
    ensures r.Some? ==> Slot(m, r.value.0) == Some(r.value.1)
    ensures r.Some? ==> forall k: Kind :: Rank(k) < Rank(r.value.0) ==> !Present(m, k)
  {
    if m.document.Some? then assert Present(m, Document); Some((Document, m.document.value))
    else if m.video.Some? then assert Present(m, Video); Some((Video, m.video.value))
    else if m.audio.Some? then assert Present(m, Audio); Some((Audio, m.audio.value))
    else if m.voice.Some? then assert Present(m, Voice); Some((Voice, m.voice.value))
    else None
  }

  /** Mime type assumed when a document carries none. */
  const DefaultMime: string := "application/octet-stream"

  /** The filename the handler stores for an attachment of kind `k`. A
      document keeps whatever name it has, possibly none; a video and a voice
      note are always named after their id; an audio file falls back to a
      name built from its id. */
  function FileNameFor(k: Kind, a: Attachment): (r: Option<string>)
    ensures k != Document ==> r.Some? && r.value != ""
    ensures k == Document || (k == Audio && a.fileName.Some? && a.fileName.value != "") ==> r == a.fileName
    ensures k == Video || k == Voice ==>
              r.Some? && |r.value| == 6 + |a.fileId| + 4 && r.value[6..6 + |a.fileId|] == a.fileId
  {
    match k
    case Document => a.fileName
    case Video => Some("video_" + a.fileId + ".mp4")
    case Audio => Some(OrDefault(a.fileName, "audio_" + a.fileId + ".mp3"))
    case Voice => Some("voice_" + a.fileId + ".ogg")
  }

  /** The mime type the handler stores for an attachment of kind `k`. */
  function MimeFor(k: Kind, a: Attachment): (r: string)
    ensures r != ""
    ensures k == Voice ==> r == "audio/ogg"
    ensures a.mimeType.Some? && a.mimeType.value != "" && k != Voice ==> r == a.mimeType.value
  {
    match k
    case Document => OrDefault(a.mimeType, DefaultMime)
    case Video => OrDefault(a.mimeType, "video/mp4")
    case Audio => OrDefault(a.mimeType, "audio/mpeg")
    case Voice => "audio/ogg"
  }

  /** The admission ceiling in bytes: 50 MiB. */
  const MaxFileSize: nat := 50 * 1024 * 1024

  /** `file_size_mb` as the handler computes it: the size divided by 2^20,
      or 0 when the size is missing or zero. Reals are exact here. */
  function SizeMb(size: Option<nat>): (r: real)
    ensures r >= 0.0
    ensures r * 1048576.0 == EffectiveSize(size) as real
  {
    if Truthy(size) then size.value as real / (1024 * 1024) as real else 0.0
  }

  /** The handler's test `file_size_mb > 50`, negated: the file is admitted. */
  function Admitted(size: Option<nat>): (b: bool)
    ensures b <==> EffectiveSize(size) <= MaxFileSize
  {
    !(SizeMb(size) > 50.0)
  }

  /** The size the admission test effectively sees: missing counts as 0. */
  function EffectiveSize(size: Option<nat>): nat {
    if size.Some? then size.value else 0
  }

  /** The megabyte comparison is the integer comparison against 50 MiB:
      a file is rejected exactly when it has more than 50 * 1024 * 1024
      bytes, and a missing size is always admitted. */
  lemma AdmittedIffWithinCeiling(size: Option<nat>)
    ensures Truthy(size) ==> (size.value as real / 1048576.0 > 50.0 <==> size.value > MaxFileSize)
    ensures !Truthy(size) ==> SizeMb(size) == 0.0 && Admitted(size)
  {
  }

  /** The boundary cases: exactly 50 MiB and a zero size are admitted, one
      byte more is refused. */
  lemma AdmissionBoundary()
    ensures Admitted(Some(52428800))
    ensures !Admitted(Some(52428801))
    ensures Admitted(Some(0)) && Admitted(None)
  {
    AdmittedIffWithinCeiling(Some(52428800));
    AdmittedIffWithinCeiling(Some(52428801));
  }

  /** The link handed back to the uploader. */
  function StreamLink(appUrl: string, fileId: string): (r: string)
    ensures |r| == |appUrl| + 8 + |fileId|
    ensures r[..|appUrl|] == appUrl
    ensures r[|appUrl|..|appUrl| + 8] == "/stream/"
    ensures r[|appUrl| + 8..] == fileId
  {
    appUrl + "/stream/" + fileId
  }

  /** The embed snippet offered with the link. */
  datatype Embed =
    | NoEmbed
    | VideoEmbed(src: string, mimeType: string)
    | AudioEmbed(src: string, mimeType: string)
  {
    /** The HTML element of the snippet (the Markdown fence around it is
        presentation and not modelled). */
    function Html(): (r: string)
      ensures NoEmbed? <==> r == ""
      ensures VideoEmbed? ==> |r| == |VideoOpen| + |src| + 8 + |mimeType| + 11
                              && r[..|VideoOpen|] == VideoOpen
                              && r[|VideoOpen|..|VideoOpen| + |src|] == src
                              && r[|VideoOpen| + |src|..|VideoOpen| + |src| + 8] == "\" type=\""
                              && r[|VideoOpen| + |src| + 8..|VideoOpen| + |src| + 8 + |mimeType|] == mimeType
                              && r[|r| - 11..|r| - 8] == "\">\n"
                              && r[|r| - 8..] == "</video>"
      ensures AudioEmbed? ==> |r| == |AudioOpen| + |src| + 8 + |mimeType| + 11
                              && r[..|AudioOpen|] == AudioOpen
                              && r[|AudioOpen|..|AudioOpen| + |src|] == src
                              && r[|AudioOpen| + |src|..|AudioOpen| + |src| + 8] == "\" type=\""
                              && r[|AudioOpen| + |src| + 8..|AudioOpen| + |src| + 8 + |mimeType|] == mimeType
                              && r[|r| - 11..|r| - 8] == "\">\n"
                              && r[|r| - 8..] == "</audio>"
    {
      match this
      case NoEmbed => ""
      case VideoEmbed(src, t) => Element(VideoOpen, src, t, "</video>")
      case AudioEmbed(src, t) => Element(AudioOpen, src, t, "</audio>")
    }
  }

  /** A media element: opening markup up to the `src` value, the source,
      its `type` attribute, and the closing tag on its own line. */
  function Element(open: string, src: string, t: string, close: string): (r: string)
    ensures |r| == |open| + |src| + 8 + |t| + 3 + |close|
    ensures r[..|open|] == open
    ensures r[|open|..|open| + |src|] == src
    ensures r[|open| + |src|..|open| + |src| + 8] == "\" type=\""
    ensures r[|open| + |src| + 8..|open| + |src| + 8 + |t|] == t
    ensures r[|r| - |close| - 3..|r| - |close|] == "\">\n"
    ensures r[|r| - |close|..] == close
  {
    open + src + "\" type=\"" + t + "\">\n" + close
  }

  const VideoOpen: string := "<video controls width=\"100%\">\n  <source src=\""
  const AudioOpen: string := "<audio controls>\n  <source src=\""

  /** The embed choice: a `video/` mime type gets the video player, otherwise
      an `audio/` one gets the audio player, otherwise there is no embed. */
  function ChooseEmbed(mime: string, link: string): (r: Embed)
    ensures r.VideoEmbed? <==> StartsWith(mime, "video/")
    ensures r.AudioEmbed? <==> StartsWith(mime, "audio/")
    ensures r.NoEmbed? <==> !StartsWith(mime, "video/") && !StartsWith(mime, "audio/")
    ensures !r.NoEmbed? ==> r.src == link && r.mimeType == mime
  {
    if StartsWith(mime, "video/") then VideoEmbed(link, mime)
    else if StartsWith(mime, "audio/") then AudioEmbed(link, mime)
    else NoEmbed
  }

  /** No mime type starts with both `video/` and `audio/`. */
  lemma PrefixesExclusive(mime: string)
    ensures !(StartsWith(mime, "video/") && StartsWith(mime, "audio/"))
  {
  }

  /** Because the prefixes exclude each other, testing `audio/` first would
      choose the same embed: the order of the two tests does not matter. */
  lemma EmbedOrderIrrelevant(mime: string, link: string)
    ensures ChooseEmbed(mime, link)
         == (if StartsWith(mime, "audio/") then AudioEmbed(link, mime)
             else if StartsWith(mime, "video/") then VideoEmbed(link, mime)
             else NoEmbed)
  {
    PrefixesExclusive(mime);
  }

  /** What the handler replies. `TooLarge` carries `file_size_mb`; `Ready`
      carries what the success message shows. */
  datatype Reply =
    | InvalidFile
    | TooLarge(sizeMb: real)
    | Ready(filename: Option<string>, sizeMb: real, link: string, embed: Embed)

  /** The outcome of one `handle_file` call: the store after it and the reply. */
  datatype Step = Step(store: Store, reply: Reply)

  /** The handler's verdict before any download: reject with a reply, or
      accept an attachment under the given kind. */
  datatype Decision =
    | Reject(reply: Reply)
    | Accept(kind: Kind, attachment: Attachment)

  /** Classification followed by the size admission test. */
  function Decide(m: Message): (d: Decision)
    ensures d == Reject(InvalidFile) <==> Classify(m).None?
    ensures d.Reject? && d.reply.TooLarge? <==> Classify(m).Some? && !Admitted(Classify(m).value.1.fileSize)
    ensures d.Reject? && d.reply.TooLarge? ==>
              && d.reply.sizeMb == SizeMb(Classify(m).value.1.fileSize)
              && d.reply.sizeMb * 1048576.0 > MaxFileSize as real
    ensures d.Accept? <==> Classify(m).Some? && Admitted(Classify(m).value.1.fileSize)
    ensures d.Accept? ==> Classify(m) == Some((d.kind, d.attachment))
                          && EffectiveSize(d.attachment.fileSize) <= MaxFileSize
  {
    match Classify(m)
    case None => Reject(InvalidFile)
    case Some((k, a)) =>
      AdmittedIffWithinCeiling(a.fileSize);
      if !Admitted(a.fileSize) then Reject(TooLarge(SizeMb(a.fileSize)))
      else Accept(k, a)
  }

  /** The record the handler writes for an accepted attachment. */
  function RecordFor(k: Kind, a: Attachment, content: Bytes): (r: Record)
    ensures r.content == content
    ensures r.mimeType != ""
    ensures k != Document ==> r.filename.Some?
    ensures a.mimeType.Some? && a.mimeType.value != "" && k != Voice ==> r.mimeType == a.mimeType.value
  {
    Record(content, FileNameFor(k, a), MimeFor(k, a))
  }

  /** One `handle_file` call as a pure step. A rejected message leaves the
      store as it was; an accepted one writes its record under its own
      `file_id` and is answered with the link for that same id. */
  function HandleFile(s: Store, m: Message, appUrl: string, content: Bytes): (r: Step)
    ensures !r.reply.Ready? ==> r.store == s
    ensures r.reply.InvalidFile? <==> forall k: Kind :: !Present(m, k)
    ensures r.reply.Ready? <==> Classify(m).Some? && Admitted(Classify(m).value.1.fileSize)
    ensures r.reply.TooLarge? <==> Classify(m).Some? && !Admitted(Classify(m).value.1.fileSize)
    ensures r.reply.TooLarge? ==>
              && r.reply.sizeMb == SizeMb(Classify(m).value.1.fileSize)
              && r.reply.sizeMb > 50.0
    ensures r.reply.Ready? ==>
              var a := Classify(m).value.1;
              && r.store.Keys == s.Keys + {a.fileId}
              && r.store[a.fileId].content == content
              && r.reply.link == StreamLink(appUrl, a.fileId)
              && (forall id :: id in s && id != a.fileId ==> r.store[id] == s[id])
    ensures r.reply.Ready? ==>
              var rec := r.store[Classify(m).value.1.fileId];
              && r.reply.embed == ChooseEmbed(rec.mimeType, r.reply.link)
              && r.reply.filename == rec.filename
              && r.reply.sizeMb == SizeMb(Classify(m).value.1.fileSize)
  {
    match Decide(m)
    case Reject(reply) => Step(s, reply)
    case Accept(k, a) =>
      var rec := RecordFor(k, a, content);
      var link := StreamLink(appUrl, a.fileId);
      Step(Put(s, a.fileId, rec), Ready(rec.filename, SizeMb(a.fileSize), link, ChooseEmbed(rec.mimeType, link)))
  }

  /** The snippet a ready reply renders: for a stored `video/` (`audio/`)
      mime type it is the video (audio) element whose `src` is the reply's
      link and whose `type` is the stored mime type; otherwise it is empty. */
  lemma ReadySnippetNamesLinkAndType(s: Store, m: Message, appUrl: string, content: Bytes)
    requires HandleFile(s, m, appUrl, content).reply.Ready?
    ensures var r := HandleFile(s, m, appUrl, content);
            var link := r.reply.link;
            var mime := r.store[Decide(m).attachment.fileId].mimeType;
            var h := r.reply.embed.Html();
            StartsWith(mime, "video/") ==>
              && |h| == |VideoOpen| + |link| + 8 + |mime| + 11
              && h[..|VideoOpen|] == VideoOpen
              && h[|VideoOpen|..|VideoOpen| + |link|] == link
              && h[|VideoOpen| + |link| + 8..|VideoOpen| + |link| + 8 + |mime|] == mime
    ensures var r := HandleFile(s, m, appUrl, content);
            var link := r.reply.link;
            var mime := r.store[Decide(m).attachment.fileId].mimeType;
            var h := r.reply.embed.Html();
            StartsWith(mime, "audio/") ==>
              && |h| == |AudioOpen| + |link| + 8 + |mime| + 11
              && h[..|AudioOpen|] == AudioOpen
              && h[|AudioOpen|..|AudioOpen| + |link|] == link
              && h[|AudioOpen| + |link| + 8..|AudioOpen| + |link| + 8 + |mime|] == mime
    ensures var r := HandleFile(s, m, appUrl, content);
            var mime := r.store[Decide(m).attachment.fileId].mimeType;
            !StartsWith(mime, "video/") && !StartsWith(mime, "audio/") ==> r.reply.embed.Html() == ""
  {
  }

  /** The ceiling through the whole handler: a document of exactly 50 MiB,
      or of unknown size, is stored and linked; one byte more is refused and
      the store is left as it was. */
  lemma CeilingThroughHandler(s: Store, a: Attachment, appUrl: string, content: Bytes)
    ensures var m := Message(Some(a), None, None, None);
            var r := HandleFile(s, m, appUrl, content);
            (a.fileSize == Some(MaxFileSize) || a.fileSize.None?) ==>
              r.reply.Ready? && a.fileId in r.store && r.store[a.fileId].content == content
    ensures var r := HandleFile(s, Message(Some(a), None, None, None), appUrl, content);
            a.fileSize == Some(MaxFileSize + 1) ==> r.reply.TooLarge? && r.store == s
  {
    AdmittedIffWithinCeiling(a.fileSize);
  }

  /** After a successful ingest the stream route, asked for the id the link
      names, answers 200 with exactly the downloaded bytes, the stored mime
      type, inline. */
  lemma IngestThenStream(s: Store, m: Message, appUrl: string, content: Bytes)
    requires HandleFile(s, m, appUrl, content).reply.Ready?
    ensures var r := HandleFile(s, m, appUrl, content);
            var id := Decide(m).attachment.fileId;
            var resp := StreamFile(r.store, id);
            && resp.Status() == 200
            && resp.SendFile? && resp.body == content && !resp.asAttachment
            && resp.mimeType == r.store[id].mimeType
  {
  }

  /** A rejection (no file, or too large) leaves every stream answer as it
      was before the message arrived. */
  lemma RejectedKeepsStreams(s: Store, m: Message, appUrl: string, content: Bytes, id: string)
    requires !HandleFile(s, m, appUrl, content).reply.Ready?
    ensures StreamFile(HandleFile(s, m, appUrl, content).store, id) == StreamFile(s, id)
  {
  }

  /** The per-kind defaults, seen through the whole handler: what is stored
      for each kind of message that is admitted. */
  lemma {:induction false} StoredDefaults(s: Store, m: Message, appUrl: string, content: Bytes)
    requires HandleFile(s, m, appUrl, content).reply.Ready?
    ensures var st := HandleFile(s, m, appUrl, content).store;
      && (m.document.Some? ==>
            var a := m.document.value;
            st[a.fileId] == Record(content, a.fileName, OrDefault(a.mimeType, "application/octet-stream")))
      && (m.document.None? && m.video.Some? ==>
            var a := m.video.value;
            st[a.fileId] == Record(content, Some("video_" + a.fileId + ".mp4"), OrDefault(a.mimeType, "video/mp4")))
      && (m.document.None? && m.video.None? && m.audio.Some? ==>
            var a := m.audio.value;
            st[a.fileId] == Record(content, Some(OrDefault(a.fileName, "audio_" + a.fileId + ".mp3")),
                                   OrDefault(a.mimeType, "audio/mpeg")))
      && (m.document.None? && m.video.None? && m.audio.None? ==>
            var a := m.voice.value;
            st[a.fileId] == Record(content, Some("voice_" + a.fileId + ".ogg"), "audio/ogg"))
  {
  }

  /** A voice note always gets the audio player; a video without a mime type
      always gets the video player; any other attachment whose own mime type
      is `video/...` or `audio/...` gets the matching player. */
  lemma {:induction false} DefaultEmbeds(s: Store, m: Message, appUrl: string, content: Bytes)
    requires HandleFile(s, m, appUrl, content).reply.Ready?
    ensures var reply := HandleFile(s, m, appUrl, content).reply;
      && (Classify(m).value.0 == Voice ==> reply.embed.AudioEmbed?)
      && (Classify(m).value.0 == Video && Classify(m).value.1.mimeType.None? ==> reply.embed.VideoEmbed?)
      && (!reply.embed.NoEmbed? ==> reply.embed.src == reply.link)
      && ((Classify(m).value.0 != Voice && Classify(m).value.1.mimeType.Some?
           && StartsWith(Classify(m).value.1.mimeType.value, "video/")) ==> reply.embed.VideoEmbed?)
      && ((Classify(m).value.0 != Voice && Classify(m).value.1.mimeType.Some?
           && StartsWith(Classify(m).value.1.mimeType.value, "audio/")) ==> reply.embed.AudioEmbed?)
  {
  }
}
