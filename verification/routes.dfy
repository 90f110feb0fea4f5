/** URL resolution for the `/stream/<file_id>` rule: how a stream link handed
    out by the ingest step is mapped back to a store key. */
module Routes {
  import opened Common
  import opened FileStore
  import opened Ingest

  const StreamPrefix: string := "/stream/"

  /** Characters of a Telegram `file_id`: the URL-safe base64 alphabet. */
  predicate IsFileIdChar(c: char) {
    || ('A' <= c <= 'Z')
    || ('a' <= c <= 'z')
    || ('0' <= c <= '9')
    || c == '-'
    || c == '_'
  }

  /** A non-empty id drawn from the URL-safe alphabet. */
  predicate ValidFileId(id: string) {
    |id| > 0 && forall i :: 0 <= i < |id| ==> IsFileIdChar(id[i])
  }

  /** The rule `/stream/<file_id>` with the default converter: the path is
      the prefix followed by exactly one non-empty segment that has no '/'.
      The rule matches exactly such paths, and yields their segment. */
  function MatchStream(path: string): (r: Option<string>)
    ensures r.Some? ==> path == StreamPrefix + r.value && r.value != "" && '/' !in r.value
    ensures forall seg :: seg != "" && '/' !in seg && path == StreamPrefix + seg ==> r == Some(seg)
  {
    if StartsWith(path, StreamPrefix) && |path| > |StreamPrefix| && '/' !in path[|StreamPrefix|..] then
      assert path == StreamPrefix + path[|StreamPrefix|..];
      Some(path[|StreamPrefix|..])
    else
      None
  }

  /** The path part of a request target: everything before the first '?'
      (query string) or '#' (fragment). The result is a prefix of the input
      with neither character in it, and it stops only at one of them. */
  function PathPart(target: string): (r: string)
    ensures |r| <= |target| && r == target[..|r|]
    ensures '?' !in r && '#' !in r
    ensures |r| < |target| ==> target[|r|] == '?' || target[|r|] == '#'
  {
    if |target| == 0 || target[0] == '?' || target[0] == '#' then ""
    else [target[0]] + PathPart(target[1..])
  }

  /** Serving a URL of the application at `appUrl`: strip the base, drop the
      query string and fragment, match the stream rule, answer through the
      stream handler. `None` means no rule of the model matched. An answer is
      always the stream answer for the one id that the URL's path names, and
      every URL whose path names an id is answered for that id. `appUrl` is
      taken as the root at which the Flask rules are mounted, and only the
      Flask application is modelled, not the webhook server that shares its
      port in webhook mode. */
  function Serve(s: Store, appUrl: string, url: string): (r: Option<Response>)
    ensures r.Some? ==> StartsWith(url, appUrl)
    ensures r.Some? ==> exists id :: id != "" && '/' !in id
                                     && PathPart(url[|appUrl|..]) == StreamPrefix + id
                                     && r.value == StreamFile(s, id)
    ensures forall id :: id != "" && '/' !in id && StartsWith(url, appUrl)
                         && PathPart(url[|appUrl|..]) == StreamPrefix + id
                         ==> r == Some(StreamFile(s, id))
  {
    if StartsWith(url, appUrl) then
      match MatchStream(PathPart(url[|appUrl|..]))
      case None => None
      case Some(id) => Some(StreamFile(s, id))
    else
      None
  }

  /** An id from the URL-safe alphabet holds no '/'. */
  lemma ValidIdHasNoSlash(id: string)
    requires ValidFileId(id)
    ensures '/' !in id
  {
  }

  /** A stream link for a valid id is routed back to that very id. */
  lemma LinkRoundTrip(appUrl: string, id: string)
    requires ValidFileId(id)
    ensures StartsWith(StreamLink(appUrl, id), appUrl)
    ensures MatchStream(StreamLink(appUrl, id)[|appUrl|..]) == Some(id)
  {
    ValidIdHasNoSlash(id);
    var link := StreamLink(appUrl, id);
    assert link[..|appUrl|] == appUrl;
    assert link[|appUrl|..] == StreamPrefix + id;
  }

  /** The stream link for a valid id, with or without a query string or
      fragment appended, is served as the stream answer for that id. */
  lemma ServeStreamLink(s: Store, appUrl: string, id: string, suffix: string)
    requires ValidFileId(id)
    requires suffix == "" || suffix[0] == '?' || suffix[0] == '#'
    ensures Serve(s, appUrl, StreamLink(appUrl, id) + suffix) == Some(StreamFile(s, id))
  {
    ValidIdHasNoSlash(id);
    var url := StreamLink(appUrl, id) + suffix;
    var path := StreamPrefix + id;
    assert url[..|appUrl|] == appUrl;
    assert url[|appUrl|..] == path + suffix;
    assert '?' !in path && '#' !in path by {
      forall i | 0 <= i < |path|
        ensures path[i] != '?' && path[i] != '#'
      {
        if i >= |StreamPrefix| {
          assert path[i] == id[i - |StreamPrefix|];
          assert IsFileIdChar(id[i - |StreamPrefix|]);
        }
      }
    }
    assert (path + suffix)[..|path|] == path;
  }

  /** Fetching the link a successful ingest hands back answers 200 with
      exactly the downloaded bytes, the stored mime type, inline. */
  lemma IngestThenServe(s: Store, m: Message, appUrl: string, content: Bytes)
    requires HandleFile(s, m, appUrl, content).reply.Ready?
    requires ValidFileId(Decide(m).attachment.fileId)
    ensures var r := HandleFile(s, m, appUrl, content);
            var id := Decide(m).attachment.fileId;
            && Serve(r.store, appUrl, r.reply.link) == Some(StreamFile(r.store, id))
            && Serve(r.store, appUrl, r.reply.link).value.SendFile?
            && Serve(r.store, appUrl, r.reply.link).value.body == content
            && !Serve(r.store, appUrl, r.reply.link).value.asAttachment
            && Serve(r.store, appUrl, r.reply.link).value.mimeType == r.store[id].mimeType
  {
    ServeStreamLink(HandleFile(s, m, appUrl, content).store, appUrl, Decide(m).attachment.fileId, "");
    assert StreamLink(appUrl, Decide(m).attachment.fileId) + "" == StreamLink(appUrl, Decide(m).attachment.fileId);
  }
}
