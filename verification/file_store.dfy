/** The process-wide `file_storage` dictionary and the `/stream/<file_id>`
    read path over it. The store is an immutable map threaded through pure
    functions: every write returns the new store. */
module FileStore {
  import opened Common

  /** One stored upload: the value written under a Telegram `file_id`. The
      filename is optional because a document may arrive without a name. */
  datatype Record = Record(content: Bytes, filename: Option<string>, mimeType: string)

  type Store = map<string, Record>

  /** Body of the 404 answer for an unknown id. */
  const NotFoundMessage: string := "\U{274C} File not found or expired"

  /** What the stream route answers: either a plain text body with a status
      (the 404 case), or `send_file` of the stored bytes. */
  datatype Response =
    | Text(status: nat, message: string)
    | SendFile(body: Bytes, mimeType: string, asAttachment: bool, downloadName: Option<string>)
  {
    /** HTTP status code; `send_file` answers 200. */
    function Status(): nat {
      match this
      case Text(status, _) => status
      case SendFile(_, _, _, _) => 200
    }
  }

  /** `file_storage[file_id] = {...}`: last writer wins, the whole record is
      replaced at once and every other key keeps its record. */
  function Put(s: Store, id: string, rec: Record): (r: Store)
    ensures id in r && r[id] == rec
    ensures r.Keys == s.Keys + {id}
    ensures forall k :: k in s && k != id ==> k in r && r[k] == s[k]
  {
    s[id := rec]
  }

  /** The `/stream/<file_id>` handler. It only reads the store, so the store
      is unchanged by construction. An unknown id gives 404 with the fixed
      message; a known id gives exactly the stored bytes, typed with the
      stored mime type, inline (not as an attachment), named by the stored
      filename. */
  function StreamFile(s: Store, id: string): (r: Response)
    ensures r.Status() == 404 <==> id !in s
    ensures r.Status() == 200 <==> id in s
    ensures id !in s ==> r == Text(404, NotFoundMessage)
    ensures id in s ==> r.SendFile? && r.body == s[id].content && r.mimeType == s[id].mimeType
                        && !r.asAttachment && r.downloadName == s[id].filename
  {
    if id !in s then
      Text(404, NotFoundMessage)
    else
      var rec := s[id];
      SendFile(rec.content, rec.mimeType, false, rec.filename)
  }

  /** Round trip: after storing `rec` under `id`, streaming `id` answers 200
      with exactly the stored bytes, mime type and name, inline. */
  lemma PutThenStream(s: Store, id: string, rec: Record)
    ensures StreamFile(Put(s, id, rec), id) == SendFile(rec.content, rec.mimeType, false, rec.filename)
    ensures StreamFile(Put(s, id, rec), id).Status() == 200
  {
  }

  /** A write under one id does not change what any other id streams. */
  lemma PutKeepsOtherStreams(s: Store, id: string, rec: Record, other: string)
    requires other != id
    ensures StreamFile(Put(s, id, rec), other) == StreamFile(s, other)
  {
  }

  /** Overwriting replaces the whole record: two writes under one id leave
      only the second, and nothing of the first is observable. */
  lemma OverwriteReplacesRecord(s: Store, id: string, first: Record, second: Record)
    ensures Put(Put(s, id, first), id, second) == Put(s, id, second)
    ensures StreamFile(Put(Put(s, id, first), id, second), id)
         == SendFile(second.content, second.mimeType, false, second.filename)
  {
  }
}
