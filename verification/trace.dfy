/** Sequences of `handle_file` calls against one store, processed one at a
    time in arrival order: the store a run leaves behind is last-writer-wins
    per id, and entries are never removed. */
module Trace {
  import opened Common
  import opened FileStore
  import opened Ingest

  /** One incoming message, with the base URL in force and the bytes its
      download would yield. */
  datatype Event = Event(message: Message, appUrl: string, content: Bytes)

  /** The store after one event. */
  function Apply(s: Store, e: Event): Store {
    HandleFile(s, e.message, e.appUrl, e.content).store
  }

  /** The store after a run of events, first event first. */
  function Run(s: Store, evs: seq<Event>): Store
    decreases |evs|
  {
    if |evs| == 0 then s else Run(Apply(s, evs[0]), evs[1..])
  }

  /** The write an event performs when its message is admitted: the key and
      the record. */
  function Write(e: Event): Option<(string, Record)> {
    match Decide(e.message)
    case Reject(_) => None
    case Accept(k, a) => Some((a.fileId, RecordFor(k, a, e.content)))
  }

  /** The record the latest admitted event for `id` wrote, if any. */
  function LastWrite(evs: seq<Event>, id: string): Option<Record>
    decreases |evs|
  {
    if |evs| == 0 then None
    else
      var w := Write(evs[|evs| - 1]);
      if w.Some? && w.value.0 == id then Some(w.value.1) else LastWrite(evs[..|evs| - 1], id)
  }

  /** One event either writes its record under its key or leaves the store. */
  lemma ApplyIsWrite(s: Store, e: Event)
    ensures Write(e).None? ==> Apply(s, e) == s
    ensures Write(e).Some? ==> Apply(s, e) == Put(s, Write(e).value.0, Write(e).value.1)
  {
  }

  /** Running a longer trace is running the shorter one, then one more step. */
  lemma {:induction false} RunSnoc(s: Store, evs: seq<Event>, e: Event)
    ensures Run(s, evs + [e]) == Apply(Run(s, evs), e)
    decreases |evs|
  {
    if |evs| == 0 {
      assert evs + [e] == [e];
      assert [e][1..] == [];
    } else {
      assert (evs + [e])[0] == evs[0];
      assert (evs + [e])[1..] == evs[1..] + [e];
      RunSnoc(Apply(s, evs[0]), evs[1..], e);
    }
  }

  /** Last writer wins: after a run, an id holds the record of the latest
      admitted event for it; an id no event wrote keeps its state from before
      the run (present with the same record, or absent). */
  lemma {:induction false} LastWriterWins(s: Store, evs: seq<Event>, id: string)
    ensures LastWrite(evs, id).Some? ==> id in Run(s, evs) && Run(s, evs)[id] == LastWrite(evs, id).value
    ensures LastWrite(evs, id).None? ==> (id in Run(s, evs) <==> id in s)
    ensures LastWrite(evs, id).None? && id in s ==> Run(s, evs)[id] == s[id]
    decreases |evs|
  {
    if |evs| > 0 {
      var init := evs[..|evs| - 1];
      var e := evs[|evs| - 1];
      assert evs == init + [e];
      RunSnoc(s, init, e);
      LastWriterWins(s, init, id);
      ApplyIsWrite(Run(s, init), e);
    }
  }

  /** What the stream route answers after a run: the latest write for the id,
      or the answer from before the run if no event wrote it. */
  lemma StreamAfterRun(s: Store, evs: seq<Event>, id: string)
    ensures LastWrite(evs, id).Some? ==>
              var rec := LastWrite(evs, id).value;
              StreamFile(Run(s, evs), id) == SendFile(rec.content, rec.mimeType, false, rec.filename)
    ensures LastWrite(evs, id).None? ==> StreamFile(Run(s, evs), id) == StreamFile(s, id)
  {
    LastWriterWins(s, evs, id);
  }

  /** An admitted event whose id is new adds exactly one entry. */
  lemma FreshWriteGrows(s: Store, e: Event)
    requires Write(e).Some? && Write(e).value.0 !in s
    ensures |Apply(s, e).Keys| == |s.Keys| + 1
  {
    ApplyIsWrite(s, e);
  }

  /** Every event of the run is admitted, no two write the same id, and none
      writes an id already in `s`. */
  predicate FreshDistinctWrites(s: Store, evs: seq<Event>) {
    && (forall i :: 0 <= i < |evs| ==> Write(evs[i]).Some? && Write(evs[i]).value.0 !in s)
    && (forall i, j :: 0 <= i < j < |evs| && Write(evs[i]).Some? && Write(evs[j]).Some?
                       ==> Write(evs[i]).value.0 != Write(evs[j]).value.0)
  }

  /** Unbounded growth: a run of admitted messages with fresh, pairwise
      distinct ids adds exactly one entry per message, with no limit. */
  lemma {:induction false} FreshRunGrows(s: Store, evs: seq<Event>)
    requires FreshDistinctWrites(s, evs)
    ensures |Run(s, evs).Keys| == |s.Keys| + |evs|
    decreases |evs|
  {
    if |evs| > 0 {
      var s1 := Apply(s, evs[0]);
      FreshWriteGrows(s, evs[0]);
      ApplyIsWrite(s, evs[0]);
      var k := Write(evs[0]).value.0;
      assert s1.Keys == s.Keys + {k};
      var rest := evs[1..];
      assert FreshDistinctWrites(s1, rest) by {
        forall i | 0 <= i < |rest|
          ensures Write(rest[i]).Some? && Write(rest[i]).value.0 !in s1
        {
          assert rest[i] == evs[i + 1];
          assert Write(evs[0]).Some? && Write(evs[i + 1]).Some?;
        }
        forall i, j | 0 <= i < j < |rest| && Write(rest[i]).Some? && Write(rest[j]).Some?
          ensures Write(rest[i]).value.0 != Write(rest[j]).value.0
        {
          assert rest[i] == evs[i + 1] && rest[j] == evs[j + 1];
        }
      }
      FreshRunGrows(s1, rest);
    }
  }

  /** Nothing is ever evicted, and each event adds at most one key. */
  lemma {:induction false} RunOnlyGrows(s: Store, evs: seq<Event>)
    ensures s.Keys <= Run(s, evs).Keys
    ensures |Run(s, evs).Keys| <= |s.Keys| + |evs|
    decreases |evs|
  {
    if |evs| > 0 {
      var s1 := Apply(s, evs[0]);
      ApplyIsWrite(s, evs[0]);
      assert s.Keys <= s1.Keys;
      assert |s1.Keys| <= |s.Keys| + 1 by {
        if Write(evs[0]).Some? {
          var k := Write(evs[0]).value.0;
          assert s1.Keys == s.Keys + {k};
          assert |s.Keys + {k}| <= |s.Keys| + |{k}|;
        }
      }
      RunOnlyGrows(s1, evs[1..]);
    }
  }
}
