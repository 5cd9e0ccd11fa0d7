/**
 The upload handler of journal-remote: each call pushes a chunk and drains the source; an
 empty chunk ends the upload and decides whether it is accepted.
 */
module HttpUpload {
  import opened Bytes
  import opened ExportParser
  import opened SourceLayout
  import opened RemoteSources
  import opened UploadFates
  import opened Wrappers

  /** Answers of process_http_upload. Rejected carries the error behind 413 and 422,
      PrematureEof is 417; Crashed is a failed assert(filled <= size). */
  datatype Verdict = Ok | Accepted | Rejected(error: Errno) | PrematureEof(lost: nat) | Crashed

  /** The answer that a fate means for a call; the last call has no data. */
  function Answer(f: Fate, last: bool): Verdict {
    match f
    case Waits(_, room) => if !last then Ok else if room.filled == 0 then Accepted else PrematureEof(room.filled)
    case TooLong => Rejected(ENOBUFS)
    case Broken(e) => Rejected(e)
    case Cut => Crashed
  }

  /** The bytes of p have been dealt with as its fate says: `out` went to the writer, and a source
      that waits is in the state t. */
  ghost predicate Dealt(p: Parser, room: Room, out: seq<Entry>, t: Snapshot)
    requires Holds(p, room)
  {
    var r, f := Run(p), DrainFate(p, room);
    && out <= r.out && (!f.Cut? ==> out == r.out)
    && (f.Waits? ==> r.err.None? && SourceLayout.Valid(t) && f == Waits(SourceLayout.View(t), RoomOf(t)) && f.p == r.p)
    && (f.Broken? ==> r.err == Some(f.error))
  }

  lemma ViewHolds(s: Snapshot)
    requires SourceLayout.Valid(s)
    ensures Holds(SourceLayout.View(s), RoomOf(s))
  {
    hide Fields, Spans;
  }

  // ---- the drain loop --------------------------------------------------------------

  /** The drain from s has written `done` and goes on from t. */
  ghost predicate Draining(s: Snapshot, done: seq<Entry>, t: Snapshot) {
    && SourceLayout.Valid(s) && SourceLayout.Valid(t) && t.offset <= t.filled
    && Holds(SourceLayout.View(s), RoomOf(s)) && Holds(SourceLayout.View(t), RoomOf(t))
    && Run(SourceLayout.View(s)) == Prepend(done, Run(SourceLayout.View(t)))
    && DrainFate(SourceLayout.View(s), RoomOf(s)) == DrainFate(SourceLayout.View(t), RoomOf(t))
  }

  /** The drain from s has come to its end. */
  ghost predicate Drained(s: Snapshot, v: Option<Verdict>, out: seq<Entry>, t: Snapshot) {
    && SourceLayout.Valid(s) && Holds(SourceLayout.View(s), RoomOf(s))
    && Dealt(SourceLayout.View(s), RoomOf(s), out, t)
    && v == var f := DrainFate(SourceLayout.View(s), RoomOf(s)); if f.Waits? then None else Some(Answer(f, false))
  }

  lemma DrainingStarts(s: Snapshot)
    requires SourceLayout.Valid(s)
    ensures Draining(s, [], s)
  {
    hide Run, SourceLayout.View, DrainFate;
    ViewHolds(s);
    InBuffer(s);
    var r := Run(SourceLayout.View(s));
    assert [] + r.out == r.out;
  }

  /** A source that blocks or fails ends the loop. */
  lemma DrainStops(s0: Snapshot, done: seq<Entry>, s: Snapshot, ret: Ret, t: Snapshot, out: seq<Entry>)
    requires Draining(s0, done, s) && Processed(s, ret, t, out) && ret != Continue && ret != EntryReady
    ensures Drained(s0, if ret.Error? then Some(Rejected(ret.error)) else None, done + out, t)
  {
    hide Step, Run, DrainFate, Fields, Spans, SourceLayout.View;
    var p := SourceLayout.View(s);
    LineState(s);
    assert !Step(p).Next?;
    RunBlocked(p);
    FateStops(p, RoomOf(s));
    assert done + [] == done;
  }

  lemma LineState(s: Snapshot)
    requires SourceLayout.Valid(s)
    ensures SourceLayout.View(s).mode.Line? <==> s.state == STATE_LINE
  {
    hide Fields, Spans;
  }

  /** What process_source does to the buffer is what the fate accounts for. */
  lemma RoomAgrees(s: Snapshot, ret: Ret, t: Snapshot, out: seq<Entry>)
    requires SourceLayout.Valid(s) && Processed(s, ret, t, out) && (ret == Continue || ret == EntryReady)
    ensures var p := SourceLayout.View(s);
            && Holds(p, RoomOf(s)) && Step(p).Next? && out == Step(p).out && RoomOf(t) == RoomAfter(p, RoomOf(s))
            && (t.filled <= |t.mem| ==> SourceLayout.Valid(t) && SourceLayout.View(t) == Step(p).p)
  {
    ViewHolds(s);
    var p := SourceLayout.View(s);
    if t.filled <= |t.mem| {
      ViewHolds(t);
    }
    hide Step, SourceLayout.View, AfterEntry, Fields, Spans;
  }

  /** Otherwise it goes on with fewer unread bytes, unless the shrink cut the buffer. */
  lemma DrainContinues(s0: Snapshot, done: seq<Entry>, s: Snapshot, ret: Ret, t: Snapshot, out: seq<Entry>)
    requires Draining(s0, done, s) && Processed(s, ret, t, out) && (ret == Continue || ret == EntryReady)
    ensures if t.filled > |t.mem| then Drained(s0, Some(Crashed), done + out, t)
            else Draining(s0, done + out, t) && t.filled - t.offset < s.filled - s.offset
  {
    hide Step, Run, DrainFate, RoomAfter, CutsHere, SourceLayout.View, SourceLayout.Valid, Processed;
    var p, room := SourceLayout.View(s), RoomOf(s);
    RoomAgrees(s, ret, t, out);
    RoomStep(p, room);
    FateNext(p, room);
    RunNext(p);
    var rest := Run(Step(p).p);
    assert (done + out) + rest.out == done + (out + rest.out);
  }

  /** One round of the loop of process_http_upload; go is false when the loop is left. */
  method Turn(source: RemoteSource, ghost s0: Snapshot, ghost done: seq<Entry>)
    returns (go: bool, v: Option<Verdict>, ghost out: seq<Entry>)
    requires Draining(s0, done, source.Snap())
    modifies source, source.buf
    ensures source.buf == old(source.buf) || fresh(source.buf)
    ensures source.written == old(source.written) + out
    ensures if go then Draining(s0, done + out, source.Snap())
                       && source.filled - source.offset < old(source.filled) - old(source.offset)
            else Drained(s0, v, done + out, source.Snap())
  {
    hide Draining, Drained, Processed, SourceLayout.Valid;
    DrainingValid(s0, done, source.Snap());
    ghost var s := source.Snap();
    var ret := source.ProcessSource();
    out := source.written[|old(source.written)|..];
    if ret == WouldBlock || ret.Error? {
      DrainStops(s0, done, s, ret, source.Snap(), out);
      return false, if ret.Error? then Some(Rejected(ret.error)) else None, out;
    }
    DrainContinues(s0, done, s, ret, source.Snap(), out);
    return source.filled <= source.buf.Length, Some(Crashed), out;
  }

  lemma DrainingValid(s0: Snapshot, done: seq<Entry>, s: Snapshot)
    requires Draining(s0, done, s)
    ensures SourceLayout.Valid(s) && s.offset <= s.filled
  {
    hide Run, SourceLayout.View, SourceLayout.Valid, DrainFate;
  }

  /** The loop of process_http_upload: every round that neither blocks nor fails consumes. */
  method Drain(source: RemoteSource) returns (v: Option<Verdict>)
    requires SourceLayout.Valid(source.Snap())
    modifies source, source.buf
    ensures source.buf == old(source.buf) || fresh(source.buf)
    ensures old(source.written) <= source.written
    ensures Drained(old(source.Snap()), v, source.written[|old(source.written)|..], source.Snap())
  {
    hide Draining, Drained, SourceLayout.Valid;
    ghost var s0 := source.Snap();
    ghost var done: seq<Entry> := [];
    DrainingStarts(s0);
    var go := true;
    v := None;
    while go
      invariant if go then Draining(s0, done, source.Snap()) else Drained(s0, v, done, source.Snap())
      invariant source.buf == old(source.buf) || fresh(source.buf)
      invariant source.written == old(source.written) + done
      decreases go, source.filled - source.offset
    {
      ghost var out;
      DrainingValid(s0, done, source.Snap());
      go, v, out := Turn(source, s0, done);
      done := done + out;
    }
    assert source.written[|old(source.written)|..] == done;
  }

  // ---- one call --------------------------------------------------------------------

  /** process_http_upload. The writer gets exactly the entries that the parser finds in the
      bytes received so far, and the answer is the one that the fate of these bytes means. */
  method ProcessHttpUpload(source: RemoteSource, data: Bytes) returns (v: Verdict)
    requires source.Valid()
    modifies source, source.buf
    ensures source.buf == old(source.buf) || fresh(source.buf)
    ensures old(source.written) <= source.written
    ensures Dealt(Feed(old(source.View()), data), Pushed(RoomOf(old(source.Snap())), |data|),
                  source.written[|old(source.written)|..], source.Snap())
    ensures v == Answer(DrainFate(Feed(old(source.View()), data), Pushed(RoomOf(old(source.Snap())), |data|)),
                        data == [])
  {
    hide Run, DrainFate, SourceLayout.View, SourceLayout.Valid, Dealt;
    ghost var p, room := source.View(), RoomOf(source.Snap());
    ghost var fed, wide := Feed(p, data), Pushed(room, |data|);
    InBuffer(source.Snap());
    assert data == [] ==> fed == p && wide == room;
    if data != [] {
      var _ := source.PushData(data);
    }
    assert source.View() == fed;
    ViewHolds(source.Snap());
    assert RoomOf(source.Snap()) == wide;
    var stop := Drain(source);
    WaitsInPlace(fed, wide, source.written[|old(source.written)|..], source.Snap());
    if stop.Some? {
      return stop.value;
    } else if data != [] {
      return Ok;
    }
    return if source.filled > 0 then PrematureEof(source.filled) else Accepted;
  }

  lemma WaitsInPlace(p: Parser, room: Room, out: seq<Entry>, t: Snapshot)
    requires Holds(p, room) && Dealt(p, room, out, t)
    ensures DrainFate(p, room).Waits? ==> DrainFate(p, room).room.filled == t.filled
  {
    hide DrainFate, Run, SourceLayout.View, SourceLayout.Valid;
  }

  // ---- a whole upload --------------------------------------------------------------

  /** The chunks seen so far have been read completely: `out` is written, t holds the rest. */
  ghost predicate InStep(ts: Timestamps, done: seq<Bytes>, out: seq<Entry>, t: Snapshot) {
    && SourceLayout.Valid(t) && Holds(SourceLayout.View(t), RoomOf(t))
    && UploadFate(ts, done) == Waits(SourceLayout.View(t), RoomOf(t))
    && out == Run(Start(ts, Concat(done))).out
  }

  /** The outcome of a whole upload: the verdict is a function of the chunks, and an upload that
      goes through is accepted exactly when its bytes are a whole number of entries. */
  ghost predicate Uploaded(ts: Timestamps, chunks: seq<Bytes>, v: Verdict, out: seq<Entry>) {
    var f, r := UploadFate(ts, chunks), Run(Start(ts, Concat(chunks)));
    && v == Answer(f, true) && out <= r.out
    && (f.Waits? || f.Broken? ==> out == r.out)
    && (f.Waits? ==> r.err.None? && (v == Accepted <==> WholeEntries(Concat(chunks))))
    && (f.Broken? ==> r.err == Some(f.error))
  }

  /** More bytes do not undo what was written, nor an error. */
  lemma FeedRest(ts: Timestamps, seen: Bytes, rest: Bytes)
    ensures var r, whole := Run(Start(ts, seen)), Run(Start(ts, seen + rest));
            r.out <= whole.out && (r.err.Some? ==> whole.err == r.err && whole.out == r.out)
  {
    hide Run;
    RunFeed(Start(ts, seen), rest);
    assert Feed(Start(ts, seen), rest) == Start(ts, seen + rest);
  }

  lemma FreshInStep(s: Snapshot)
    requires SourceLayout.Valid(s) && SourceLayout.View(s) == Start(s.ts, []) && |s.mem| == 0
    ensures InStep(s.ts, [], [], s)
  {
    ViewHolds(s);
    hide Fields, Spans, StepText, SourceLayout.View;
    RunBlocked(Start(s.ts, []));
  }

  lemma InStepHolds(ts: Timestamps, done: seq<Bytes>, out: seq<Entry>, t: Snapshot)
    requires InStep(ts, done, out, t)
    ensures SourceLayout.Valid(t) && Holds(SourceLayout.View(t), RoomOf(t))
  {
    hide UploadFate, Run, SourceLayout.View, SourceLayout.Valid;
  }

  /** The call with one more chunk, seen from the whole upload. */
  lemma NextChunk(ts: Timestamps, done: seq<Bytes>, chunk: Bytes, out: seq<Entry>, s: Snapshot, more: seq<Entry>,
                  t: Snapshot)
    requires InStep(ts, done, out, s) && SourceLayout.Valid(s) && Holds(SourceLayout.View(s), RoomOf(s))
    requires Dealt(Feed(SourceLayout.View(s), chunk), Pushed(RoomOf(s), |chunk|), more, t)
    ensures UploadFate(ts, done + [chunk]) == DrainFate(Feed(SourceLayout.View(s), chunk), Pushed(RoomOf(s), |chunk|))
    ensures var f, r := UploadFate(ts, done + [chunk]), Run(Start(ts, Concat(done + [chunk])));
            && out + more <= r.out && (!f.Cut? ==> out + more == r.out)
            && (f.Waits? ==> InStep(ts, done + [chunk], out + more, t))
  {
    hide Run, UploadFate, DrainFate, SourceLayout.View, SourceLayout.Valid;
    var seen := Concat(done);
    UploadNext(ts, done, chunk);
    ConcatAppend(done, chunk);
    UploadRuns(ts, done);
    RunFeed(Start(ts, seen), chunk);
    assert Feed(Start(ts, seen), chunk) == Start(ts, seen + chunk);
  }

  /** An upload that ended with one of its chunks. */
  lemma StoppedEarly(ts: Timestamps, chunks: seq<Bytes>, i: nat, out: seq<Entry>)
    requires i <= |chunks| && !UploadFate(ts, chunks[..i]).Waits?
    requires var r := Run(Start(ts, Concat(chunks[..i])));
             out <= r.out && (!UploadFate(ts, chunks[..i]).Cut? ==> out == r.out)
    ensures Uploaded(ts, chunks, Answer(UploadFate(ts, chunks[..i]), false), out)
  {
    hide Run, UploadFate, WholeEntries;
    UploadStays(ts, chunks, i);
    UploadRuns(ts, chunks[..i]);
    ConcatSplit(chunks, i);
    FeedRest(ts, Concat(chunks[..i]), Concat(chunks[i..]));
  }

  lemma {:induction false} ConcatSplit(chunks: seq<Bytes>, i: nat)
    requires i <= |chunks|
    ensures Concat(chunks) == Concat(chunks[..i]) + Concat(chunks[i..])
  {
    if i == 0 {
      assert chunks[0..] == chunks;
    } else {
      assert chunks[..i][1..] == chunks[1..][..i - 1] && chunks[i..] == chunks[1..][i - 1..];
      ConcatSplit(chunks[1..], i - 1);
    }
  }

  /** The empty call finds nothing new to read and decides. */
  lemma LastCall(ts: Timestamps, chunks: seq<Bytes>, out: seq<Entry>, s: Snapshot, v: Verdict, more: seq<Entry>,
                 t: Snapshot)
    requires InStep(ts, chunks, out, s) && SourceLayout.Valid(s) && Holds(SourceLayout.View(s), RoomOf(s))
    requires Dealt(Feed(SourceLayout.View(s), []), Pushed(RoomOf(s), 0), more, t)
    requires v == Answer(DrainFate(Feed(SourceLayout.View(s), []), Pushed(RoomOf(s), 0)), true)
    ensures Uploaded(ts, chunks, v, out + more)
  {
    hide Run, DrainFate, UploadFate, SourceLayout.View, SourceLayout.Valid, WholeEntries, Step;
    var p, room := SourceLayout.View(s), RoomOf(s);
    assert Feed(p, []) == p && Pushed(room, 0) == room;
    UploadRuns(ts, chunks);
    FateStops(p, room);
    RunBlocked(p);
    WholeEntriesIffEndsClean(ts, Concat(chunks));
    assert out + more == out;
    EmptyIffClean(s);
  }

  lemma EmptyIffClean(s: Snapshot)
    requires SourceLayout.Valid(s)
    ensures s.filled == 0 <==> SourceLayout.View(s).clean && SourceLayout.View(s).unread == []
  {
    hide Fields, Spans;
  }

  /** One call with a chunk. */
  method PushChunk(source: RemoteSource, chunk: Bytes, ghost ts: Timestamps, ghost done: seq<Bytes>,
                   ghost out: seq<Entry>)
    returns (v: Verdict, ghost more: seq<Entry>)
    requires InStep(ts, done, out, source.Snap()) && chunk != []
    modifies source, source.buf
    ensures source.buf == old(source.buf) || fresh(source.buf)
    ensures source.written == old(source.written) + more
    ensures var f, r := UploadFate(ts, done + [chunk]), Run(Start(ts, Concat(done + [chunk])));
            && v == Answer(f, false) && out + more <= r.out && (!f.Cut? ==> out + more == r.out)
            && (f.Waits? ==> InStep(ts, done + [chunk], out + more, source.Snap()))
  {
    hide InStep, Run, UploadFate, DrainFate, Dealt, SourceLayout.View, SourceLayout.Valid, Answer;
    ghost var s := source.Snap();
    InStepHolds(ts, done, out, s);
    v := ProcessHttpUpload(source, chunk);
    more := source.written[|old(source.written)|..];
    NextChunk(ts, done, chunk, out, s, more, source.Snap());
  }

  /** The empty call that ends the upload. */
  method EndUpload(source: RemoteSource, ghost ts: Timestamps, ghost chunks: seq<Bytes>, ghost out: seq<Entry>)
    returns (v: Verdict, ghost more: seq<Entry>)
    requires InStep(ts, chunks, out, source.Snap())
    modifies source, source.buf
    ensures source.written == old(source.written) + more
    ensures Uploaded(ts, chunks, v, out + more)
  {
    hide InStep, Uploaded, Run, UploadFate, DrainFate, Dealt, SourceLayout.View, SourceLayout.Valid, Answer;
    ghost var s := source.Snap();
    InStepHolds(ts, chunks, out, s);
    v := ProcessHttpUpload(source, []);
    more := source.written[|old(source.written)|..];
    LastCall(ts, chunks, out, s, v, more, source.Snap());
  }

  /** The calls the server makes for one upload: any split of the bytes, then an empty call.
      The verdict is the one that the fate of the chunks means, and as far as the source gets
      the writer receives the entries of the whole stream. */
  method Upload(source: RemoteSource, chunks: seq<Bytes>) returns (v: Verdict)
    requires source.Valid() && source.View() == Start(source.ts, []) && source.buf.Length == 0
    requires forall k :: 0 <= k < |chunks| ==> chunks[k] != []
    modifies source, source.buf
    ensures old(source.written) <= source.written
    ensures Uploaded(old(source.ts), chunks, v, source.written[|old(source.written)|..])
  {
    hide InStep, Uploaded, SourceLayout.Valid, SourceLayout.View, Run, UploadFate, Start, Concat, Answer;
    ghost var ts := source.ts;
    FreshInStep(source.Snap());
    ghost var out: seq<Entry> := [];
    var i := 0;
    ghost var more;
    assert chunks[..0] == [];
    while i < |chunks|
      invariant 0 <= i <= |chunks|
      invariant source.buf == old(source.buf) || fresh(source.buf)
      invariant source.written == old(source.written) + out
      invariant InStep(ts, chunks[..i], out, source.Snap())
    {
      v, more := PushChunk(source, chunks[i], ts, chunks[..i], out);
      assert chunks[..i] + [chunks[i]] == chunks[..i + 1];
      out, i := out + more, i + 1;
      if v != Ok {
        AnswerOk(UploadFate(ts, chunks[..i]));
        assert source.written[|old(source.written)|..] == out;
        StoppedEarly(ts, chunks, i, out);
        return;
      }
      AnswerOk(UploadFate(ts, chunks[..i]));
    }
    assert chunks[..i] == chunks;
    v, more := EndUpload(source, ts, chunks, out);
    assert source.written[|old(source.written)|..] == out + more;
  }

  lemma AnswerOk(f: Fate)
    ensures Answer(f, false) == Ok <==> f.Waits?
  {
  }

  /** The two verdicts that do not follow from the grammar have their own exact conditions: some
      entry ends in an overhang, or a line is incomplete behind DATA_SIZE_MAX bytes. */
  lemma VerdictIff(ts: Timestamps, chunks: seq<Bytes>, v: Verdict, out: seq<Entry>)
    requires Uploaded(ts, chunks, v, out)
    ensures v == Crashed <==> exists i: nat, n: nat :: CutsIn(ts, chunks, i, n)
    ensures v == Rejected(ENOBUFS) <==> exists i: nat, n: nat :: TooLongIn(ts, chunks, i, n)
    ensures |Concat(chunks)| <= 8 * LINE_CHUNK ==> v != Crashed
    ensures |Concat(chunks)| < DATA_SIZE_MAX ==> v != Rejected(ENOBUFS)
  {
    hide Run, UploadFate, WholeEntries, CutsIn, TooLongIn;
    UploadCutIff(ts, chunks);
    UploadTooLongIff(ts, chunks);
    UploadRuns(ts, chunks);
  }
}
