# Kingbot file-to-stream-link core, modelled in Dafny

Kingbot is a Telegram bot. A user sends it a file. The bot downloads the file
into an in-memory dictionary keyed by the Telegram `file_id`. It then replies
with a link `<app url>/stream/<file_id>`, which a Flask route serves inline.
This project models the part of `bot.py` that makes decisions:

- the `file_storage` map and the `/stream/<file_id>` handler (`FileStore`);
- the decision logic of `handle_file` (`Ingest`). This covers which attachment
  of a message is taken, the per-kind filename and mime-type defaults, the
  50 MiB admission test, the stream link and the choice of embed snippet;
- how a stream link is routed back to its store key (`Routes`);
- runs of many messages against one store (`Trace`).

The store is an immutable `map<string, Record>`. `handle_file` is a pure step
`HandleFile(store, message, appUrl, content) -> Step(store', reply)`. Here
`appUrl` stands for `os.environ.get("RENDER_EXTERNAL_URL", f"http://localhost:{PORT}")`,
which the handler reads afresh on every call (bot.py:105). That is why each
`Trace.Event` carries its own `appUrl`. The
Telegram download is replaced by `content`, the bytes it would return. The
reply is an abstract `Reply` value, not the Markdown text. The stream handler
is a function of the store, so streaming never changes the store.

The size test is modelled as the source writes it: `file_size / (1024*1024) > 50`,
with a missing or zero size counting as 0. Dafny reals are exact, and the
test is proved equal to the integer comparison `size <= 50 * 1024 * 1024`.
For a Python float, dividing by 2^20 is exact for any realistic size, so the
two agree.

## Model

| member | source | states |
|---|---|---|
| FileStore.Put | bot.py:97-102 | Storing under an id makes it map to the new record. The key set gains exactly that id. Every other key keeps its record. |
| FileStore.StreamFile | bot.py:22-34 | For a GET without a `Range` header: an unknown id gets 404 with the fixed "not found or expired" text. A known id gets 200 with exactly the stored bytes, the stored mime type, `as_attachment` false and the stored filename as download name. |
| FileStore.PutThenStream | bot.py:97-102 | Streaming an id right after storing a record under it returns that record's bytes, mime type and name, inline, with status 200. |
| FileStore.PutKeepsOtherStreams | bot.py:98-102 | A write under one id does not change the stream answer for any other id. |
| FileStore.OverwriteReplacesRecord | bot.py:98-102 | Two writes under the same id equal the second write alone. Nothing of the first record stays observable. |
| Ingest.Classify | bot.py:60-77 | The chosen attachment is the one in the chosen kind's slot. No kind tested earlier (document, video, audio, voice) is present. Nothing is chosen exactly when all four slots are empty. |
| Ingest.FileNameFor | bot.py:61-75 | Every kind except a document gets a non-empty name. A document keeps its own name, possibly none. An audio file keeps its own non-empty name. A video or voice note's name is its id wrapped in a 6-character prefix and a 4-character extension; `Ingest.StoredDefaults` gives the exact names. |
| Ingest.MimeFor | bot.py:58-76 | The stored mime type is never empty. A voice note is always `audio/ogg`. For other kinds, a non-empty mime type on the attachment is kept. |
| Ingest.SizeMb | bot.py:83 | `file_size_mb` is non-negative, and multiplied by 2^20 it gives back the size, with a missing size counting as 0. |
| Ingest.Admitted | bot.py:84 | The test `not file_size_mb > 50` holds exactly when the size is at most 50*1024*1024 bytes. |
| Ingest.AdmittedIffWithinCeiling | bot.py:83-86 | For a non-zero size, the source's own expression `file_size / (1024 * 1024) > 50` is true exactly when the size exceeds 50*1024*1024 bytes. A missing or zero size gives `file_size_mb` 0 and is admitted. |
| Ingest.AdmissionBoundary | bot.py:83-86 | Exactly 52428800 bytes is admitted, 52428801 is refused, and size 0 and a missing size are admitted. |
| Ingest.StreamLink | bot.py:105-106 | The link is the app URL, then `/stream/`, then the file id, so the id can be read back from its end. `Routes.LinkRoundTrip` shows the route recovers it. |
| Ingest.Embed.Html | bot.py:111-113 | No embed renders as the empty string. The video (audio) element is laid out piece by piece: its opening markup, the stream link as the `src` value, `" type="`, the mime type as the `type` value, `">` and a newline, then `</video>` (`</audio>`). The total length is fixed by those pieces, so nothing else is in it. |
| Ingest.ChooseEmbed | bot.py:108-113 | Video embed iff the mime starts with `video/`. Audio embed iff it starts with `audio/`. No embed iff neither. A chosen snippet's source is the stream link and its type is the mime. |
| Ingest.PrefixesExclusive | bot.py:110-112 | No mime type starts with both `video/` and `audio/`. |
| Ingest.EmbedOrderIrrelevant | bot.py:110-113 | Testing `audio/` before `video/` would choose the same embed. |
| Ingest.RecordFor | bot.py:98-102 | The written record holds exactly the downloaded bytes and a non-empty mime type. Every kind except a document has a filename. A non-voice attachment's own non-empty mime type is kept. `Ingest.StoredDefaults` gives the full record per kind. |
| Ingest.Decide | bot.py:60-86 | A message is rejected as invalid exactly when it has no attachment. It is rejected as too large exactly when the chosen attachment fails the size test. The too-large reply carries that attachment's `file_size_mb`, which is then above 50 MiB. It is accepted exactly when an attachment is chosen and passes the size test. An accepted attachment is the classified one and has at most 50 MiB. |
| Ingest.HandleFile | bot.py:53-113 | Any rejection leaves the store unchanged. An invalid-file reply comes exactly when no slot is filled. A too-large reply comes exactly when the chosen attachment fails the size test. It reports that attachment's `file_size_mb`, which is above 50. A ready reply comes exactly when an attachment is chosen and passes it. A ready reply stores the downloaded bytes under that attachment's own `file_id`, adds only that key, keeps all other records, and links to `appUrl + "/stream/" + file_id`. The reply's embed is the one chosen from the stored mime type and that link. The reply's filename is the stored filename, and its size is `file_size_mb`. |
| Ingest.ReadySnippetNamesLinkAndType | bot.py:104-113 | In a ready reply, a stored `video/` (`audio/`) mime type renders the video (audio) element with the reply's link as `src` and the stored mime type as `type`. Any other mime type renders no snippet. |
| Ingest.CeilingThroughHandler | bot.py:83-102 | A document of exactly 50 MiB, or of unknown size, is stored with its downloaded bytes and gets a ready reply. One byte more gets a too-large reply and leaves the store unchanged. |
| Ingest.IngestThenStream | bot.py:97-102 | After a successful ingest, streaming the ingested id returns 200 with exactly the downloaded bytes, the stored mime type, inline. |
| Ingest.RejectedKeepsStreams | bot.py:78-86 | After a rejected message, every id streams exactly as before. |
| Ingest.StoredDefaults | bot.py:56-76 | What an admitted message stores, per kind. A document keeps its name and falls back to `application/octet-stream`. A video is `video_<id>.mp4`, defaulting to `video/mp4`. An audio falls back to `audio_<id>.mp3` and `audio/mpeg`. A voice note is `voice_<id>.ogg` with `audio/ogg`. |
| Ingest.DefaultEmbeds | bot.py:73-113 | A voice note always gets the audio embed. A video with no mime type always gets the video embed. Any other attachment typed `video/...` or `audio/...` gets the matching embed. Any embed's source is the reply's link. |
| Routes.MatchStream | bot.py:22-23 | The `/stream/<file_id>` rule matches exactly the paths `/stream/` + seg, where seg is non-empty and has no '/'. It yields that segment. |
| Routes.PathPart | bot.py:22-23 | The path that the route rule sees is the prefix of the request target before the first '?' or '#'. It contains neither character. |
| Routes.Serve | bot.py:22-34 | Any answer is the stream answer for an id that the URL's path (after the app URL, before any query or fragment) names as `/stream/<id>`. Every URL whose path names such an id is answered with the stream answer for that id. |
| Routes.ServeStreamLink | bot.py:22-34 | The stream link for a URL-safe id is served as the stream answer for that id, with or without a `?query` or `#fragment` appended. |
| Routes.LinkRoundTrip | bot.py:104-106 | For an id from the URL-safe alphabet, the stream link starts with the app URL. The rest of the link routes back to that same id. |
| Routes.IngestThenServe | bot.py:97-106 | Fetching the link from a successful ingest reaches the freshly stored record. The answer is exactly the downloaded bytes, with the stored mime type, inline. |
| Trace.LastWriterWins | bot.py:98-102 | After any run of messages, an id holds the record of the latest admitted message for it. An id no message wrote keeps its earlier state: same record, or still absent. |
| Trace.StreamAfterRun | bot.py:22-34 | After a run, streaming an id returns the latest write for it. If no message wrote it, the answer is the same as before the run. |
| Trace.RunOnlyGrows | bot.py:16 | No entry is ever removed. Each message adds at most one key. |
| Trace.FreshWriteGrows | bot.py:97-102 | An admitted message whose id is not yet stored adds exactly one entry. |
| Trace.FreshRunGrows | bot.py:16 | A run of admitted messages with fresh, pairwise distinct ids adds exactly one entry per message. So the store grows without bound. |

## Left out

- Flask itself, `send_file` internals (headers, `Content-Length`), the `/` and `/webhook` endpoints, and the server thread. These are framework I/O. The response is modelled as the arguments passed to `send_file`.
- HTTP Range requests (206/416): these are answered inside `send_file` (conditional responses are on by default in the Flask versions that accept `download_name`), so they are left out with it. `FileStore.StreamFile` models a GET without a `Range` header.
- Deleting or expiring entries: `bot.py` has no delete and no expiry. `Trace.RunOnlyGrows` and `Trace.FreshRunGrows` state the resulting unbounded growth.
- Validating the identifier: `bot.py` stores under any `file_id` the platform sends, including an empty one, and the model does the same. Only the link round trip (`Routes.LinkRoundTrip`, `Routes.ServeStreamLink` and `Routes.IngestThenServe`) assumes an id from the URL-safe alphabet. That is the form Telegram ids take, and an id containing '/' could not be routed back.
- Routes.Serve: does not percent-decode the path before matching, as Werkzeug does, because the ids the bot hands out are URL-safe and need no encoding. A URL that percent-encodes some characters of an id is outside the model.
- Routes.Serve: takes `appUrl` as the root at which the Flask rules are mounted. That holds for the default `http://localhost:{PORT}` and for a `RENDER_EXTERNAL_URL` that is a bare origin. An `appUrl` with a path or a trailing '/' would give links whose path the Flask rule does not see as `/stream/<id>`, and the model does not cover that. Serve models the Flask application alone: in webhook mode the webhook server is also started on `PORT` (bot.py:131, 166-171), and which of the two answers is not modelled.
- The Telegram API (`get_file`, `download_as_bytearray`, `reply_text`, `edit_text`), webhook and polling setup, and `main`. These are network calls. The downloaded bytes are an input (`content`), and replies are the abstract `Reply`.
- The exception path that echoes `str(e)` to the user. It depends on failures of foreign calls. One consequence is not modelled: if `edit_text` (bot.py:115) fails after the write at bot.py:98, the record stays stored while the user gets the error reply. So "a rejection leaves the store unchanged" holds for the modelled replies only. A failed download (bot.py:93-94) happens before the write and leaves the store unchanged.
- Markdown text, emoji and the `:.1f`/`:.2f` formatting of sizes. This is presentation only. `Reply` carries the size in megabytes as an exact real.
- Concurrent access from the Flask thread and the bot loop. Each store operation is one atomic step, and a run is a sequence of them.
- The `/start` command. It only sends a fixed greeting.
- The size test uses the size Telegram reports for the attachment (`file_size`), not the length of the downloaded bytes. The model keeps it that way. A design that checks the downloaded length would differ from the code.
