/**
 How an upload ends, told from the bytes and the way they are cut: the parser state together
 with the bookkeeping of the buffer, carried along the run. No buffer content is involved.
 */
module UploadFates {
  import opened Bytes
  import opened ExportParser
  import opened SourceLayout
  import opened Wrappers

  /** The unread bytes of the parser are those between offset and filled. */
  ghost predicate Holds(p: Parser, r: Room) {
    Proper(p) && r.offset <= r.filled <= r.size && |p.unread| == r.filled - r.offset
  }

  /** The end of a drain: the source waits for more bytes, waits for a line behind too many
      bytes, meets an error, or the shrink cuts its buffer. */
  datatype Fate = Waits(p: Parser, room: Room) | TooLong | Broken(error: Errno) | Cut

  /** The blank line at p leaves a buffer that does not cover its bytes. */
  ghost predicate CutsHere(p: Parser, r: Room)
    requires Holds(p, r)
  {
    EndsEntry(p) && Overhangs(r.(offset := r.offset + 1))
  }

  /** A step moves the offset by the bytes it consumes; a blank line tidies up the buffer. */
  ghost function RoomAfter(p: Parser, r: Room): Room
    requires Holds(p, r) && Step(p).Next?
  {
    StepConsumes(p);
    if EndsEntry(p) then AfterEntry(r.(offset := r.offset + 1)) else r.(offset := r.filled - |Step(p).p.unread|)
  }

  lemma RoomStep(p: Parser, r: Room)
    requires Holds(p, r) && Step(p).Next?
    ensures |Step(p).p.unread| < |p.unread|
    ensures RoomAfter(p, r).filled > RoomAfter(p, r).size <==> CutsHere(p, r)
    ensures !CutsHere(p, r) ==> Holds(Step(p).p, RoomAfter(p, r))
    ensures RoomAfter(p, r).filled <= r.filled && RoomAfter(p, r).size <= r.size
    ensures CutsHere(p, r) ==> r.size > 16 * LINE_CHUNK
  {
    StepConsumes(p);
    if EndsEntry(p) {
      EndsEntryStep(p);
      var past := r.(offset := r.offset + 1);
      AfterEntrySteps(past);
      ShrinkCutsIff(past);
      hide Step, Overhangs;
    }
  }

  /** A source that waits cannot go on, and does not wait in vain. */
  ghost predicate Sane(f: Fate) {
    f.Waits? ==> Holds(f.p, f.room) && Step(f.p).Blocked? && !(f.p.mode.Line? && f.room.filled >= DATA_SIZE_MAX)
  }

  ghost function DrainFate(p: Parser, r: Room): (f: Fate)
    requires Holds(p, r)
    ensures Sane(f)
    decreases |p.unread|
  {
    match Step(p)
    case Blocked => if p.mode.Line? && r.filled >= DATA_SIZE_MAX then TooLong else Waits(p, r)
    case Failed(e) => Broken(e)
    case Next(q, _) =>
      RoomStep(p, r);
      if CutsHere(p, r) then Cut else DrainFate(q, RoomAfter(p, r))
  }

  lemma FateStops(p: Parser, r: Room)
    requires Holds(p, r) && !Step(p).Next?
    ensures DrainFate(p, r) == if Step(p).Failed? then Broken(Step(p).error)
                               else if p.mode.Line? && r.filled >= DATA_SIZE_MAX then TooLong else Waits(p, r)
  {
    hide Step;
  }

  lemma FateNext(p: Parser, r: Room)
    requires Holds(p, r) && Step(p).Next?
    ensures CutsHere(p, r) ==> DrainFate(p, r) == Cut
    ensures !CutsHere(p, r) ==>
              Holds(Step(p).p, RoomAfter(p, r)) && DrainFate(p, r) == DrainFate(Step(p).p, RoomAfter(p, r))
  {
    hide Step, CutsHere, RoomAfter;
    RoomStep(p, r);
  }

  /** Where the drain goes on it is the run of the parser, and the buffer does not grow. */
  lemma {:induction false} FateRuns(p: Parser, r: Room)
    requires Holds(p, r)
    ensures var f := DrainFate(p, r);
            && (f.Waits? ==> f.p == Run(p).p && Run(p).err.None? && f.room.filled <= r.filled && f.room.size <= r.size)
            && (f.Broken? ==> Run(p).err == Some(f.error) && f.error != ENOBUFS)
            && (f.TooLong? ==> Run(p).err.None? && r.filled >= DATA_SIZE_MAX)
            && (f.Cut? ==> r.size > 16 * LINE_CHUNK)
    decreases |p.unread|
  {
    hide Step, Run, CutsHere, RoomAfter;
    if Step(p).Next? {
      RunNext(p);
      FateNext(p, r);
      RoomStep(p, r);
      if !CutsHere(p, r) {
        FateRuns(Step(p).p, RoomAfter(p, r));
      }
    } else {
      RunBlocked(p);
      FateStops(p, r);
      StepNeverTooLong(p);
    }
  }

  lemma StepNeverTooLong(p: Parser)
    ensures Step(p) != Failed(ENOBUFS)
  {
    hide IndexOf, FromLittleEndian;
  }

  // ---- the exact conditions --------------------------------------------------------

  datatype Point = Point(p: Parser, room: Room)

  /** The point that is reached after n steps, if the drain gets that far. */
  ghost function Reached(p: Parser, r: Room, n: nat): (x: Option<Point>)
    requires Holds(p, r)
    ensures x.Some? ==> Holds(x.value.p, x.value.room)
    decreases n
  {
    if n == 0 then Some(Point(p, r))
    else if Step(p).Next? && !CutsHere(p, r) then
      RoomStep(p, r);
      Reached(Step(p).p, RoomAfter(p, r), n - 1)
    else None
  }

  /** After n steps stands a blank line whose shrink cuts the buffer. */
  ghost predicate CutsAfter(p: Parser, r: Room, n: nat)
    requires Holds(p, r)
  {
    Reached(p, r, n).Some? && CutsHere(Reached(p, r, n).value.p, Reached(p, r, n).value.room)
  }

  /** After n steps a line is incomplete behind too many buffered bytes. */
  ghost predicate TooLongAfter(p: Parser, r: Room, n: nat)
    requires Holds(p, r)
  {
    && Reached(p, r, n).Some?
    && var x := Reached(p, r, n).value; x.p.mode.Line? && Step(x.p).Blocked? && x.room.filled >= DATA_SIZE_MAX
  }

  lemma ReachedNext(p: Parser, r: Room, n: nat)
    requires Holds(p, r) && Step(p).Next? && !CutsHere(p, r)
    ensures Holds(Step(p).p, RoomAfter(p, r))
    ensures Reached(p, r, n + 1) == Reached(Step(p).p, RoomAfter(p, r), n)
  {
    hide Step, CutsHere, RoomAfter;
    RoomStep(p, r);
  }

  /** The buffer is cut exactly when some entry on the way ends in an overhang. */
  lemma {:induction false} CutIff(p: Parser, r: Room)
    requires Holds(p, r)
    ensures DrainFate(p, r) == Cut <==> exists n: nat :: CutsAfter(p, r, n)
    decreases |p.unread|
  {
    hide Step, CutsHere, RoomAfter, DrainFate;
    if !Step(p).Next? {
      FateStops(p, r);
      forall n: nat
        ensures !CutsAfter(p, r, n)
      {
        BlankLineGoesOn(p, r);
      }
    } else if CutsHere(p, r) {
      FateNext(p, r);
      assert CutsAfter(p, r, 0);
    } else {
      FateNext(p, r);
      RoomStep(p, r);
      var q, room := Step(p).p, RoomAfter(p, r);
      CutIff(q, room);
      if n: nat :| CutsAfter(q, room, n) {
        ReachedNext(p, r, n);
        assert CutsAfter(p, r, n + 1);
      }
      if n: nat :| CutsAfter(p, r, n) {
        if n > 0 {
          ReachedNext(p, r, n - 1);
          assert CutsAfter(q, room, n - 1);
        }
      }
    }
  }

  lemma BlankLineGoesOn(p: Parser, r: Room)
    requires Holds(p, r)
    ensures CutsHere(p, r) ==> Step(p).Next?
  {
    if EndsEntry(p) {
      EndsEntryStep(p);
    }
  }

  /** The upload is refused as too long exactly when it comes to wait for the end of a line with
      at least DATA_SIZE_MAX bytes in the buffer, consumed ones included. */
  lemma {:induction false} TooLongIff(p: Parser, r: Room)
    requires Holds(p, r)
    ensures DrainFate(p, r) == TooLong <==> exists n: nat :: TooLongAfter(p, r, n)
    decreases |p.unread|
  {
    hide Step, CutsHere, RoomAfter, DrainFate;
    if !Step(p).Next? {
      FateStops(p, r);
      if DrainFate(p, r) == TooLong {
        assert TooLongAfter(p, r, 0);
      }
      if n: nat :| TooLongAfter(p, r, n) {
        assert n == 0;
      }
    } else if CutsHere(p, r) {
      FateNext(p, r);
    } else {
      FateNext(p, r);
      RoomStep(p, r);
      var q, room := Step(p).p, RoomAfter(p, r);
      TooLongIff(q, room);
      if n: nat :| TooLongAfter(q, room, n) {
        ReachedNext(p, r, n);
        assert TooLongAfter(p, r, n + 1);
      }
      if n: nat :| TooLongAfter(p, r, n) {
        if n > 0 {
          ReachedNext(p, r, n - 1);
          assert TooLongAfter(q, room, n - 1);
        }
      }
    }
  }

  // ---- a whole upload --------------------------------------------------------------

  /** push_data: the buffer grows if it has to. */
  function Pushed(r: Room, n: nat): Room {
    Room(GreedySize(r.size, r.filled + n), r.offset, r.filled + n)
  }

  /** One more call: nothing happens to an upload that has ended. */
  ghost function Fed(f: Fate, chunk: Bytes): (g: Fate)
    requires Sane(f)
    ensures Sane(g)
  {
    match f
    case Waits(p, r) => DrainFate(Feed(p, chunk), Pushed(r, |chunk|))
    case _ => f
  }

  /** The fate of an upload that arrives in these chunks, at a source without buffer. */
  ghost function UploadFate(ts: Timestamps, chunks: seq<Bytes>): (f: Fate)
    ensures Sane(f)
  {
    if chunks == [] then Waits(Start(ts, []), Room(0, 0, 0))
    else Fed(UploadFate(ts, chunks[..|chunks| - 1]), chunks[|chunks| - 1])
  }

  lemma UploadNext(ts: Timestamps, chunks: seq<Bytes>, chunk: Bytes)
    ensures UploadFate(ts, chunks + [chunk]) == Fed(UploadFate(ts, chunks), chunk)
  {
    hide Fed;
    assert (chunks + [chunk])[..|chunks|] == chunks;
  }

  /** What has ended stays ended. */
  lemma {:induction false} UploadStays(ts: Timestamps, chunks: seq<Bytes>, i: nat)
    requires i <= |chunks| && !UploadFate(ts, chunks[..i]).Waits?
    ensures UploadFate(ts, chunks) == UploadFate(ts, chunks[..i])
  {
    hide UploadFate;
    if i == |chunks| {
      assert chunks[..i] == chunks;
    } else {
      var front, last := chunks[..|chunks| - 1], chunks[|chunks| - 1];
      assert front[..i] == chunks[..i] && chunks == front + [last];
      UploadStays(ts, front, i);
      UploadNext(ts, front, last);
    }
  }

  /** While it goes on, the upload is the run of the parser over all bytes so far. */
  ghost predicate FateOf(f: Fate, r: RunResult, n: nat) {
    && (f.Waits? ==> f.p == r.p && r.err.None? && f.room.filled <= n && f.room.size <= if n > 32 then 2 * n else 64)
    && (f.Broken? ==> r.err == Some(f.error) && f.error != ENOBUFS)
    && (f.TooLong? ==> n >= DATA_SIZE_MAX)
    && (f.Cut? ==> n > 8 * LINE_CHUNK)
  }

  lemma FedRuns(ts: Timestamps, seen: Bytes, f: Fate, chunk: Bytes)
    requires Sane(f) && FateOf(f, Run(Start(ts, seen)), |seen|)
    ensures FateOf(Fed(f, chunk), Run(Start(ts, seen + chunk)), |seen + chunk|)
  {
    hide Run, DrainFate, Step;
    RunFeed(Start(ts, seen), chunk);
    assert Feed(Start(ts, seen), chunk) == Start(ts, seen + chunk);
    if f.Waits? {
      FateRuns(Feed(f.p, chunk), Pushed(f.room, |chunk|));
    }
  }

  lemma {:induction false} UploadRuns(ts: Timestamps, chunks: seq<Bytes>)
    ensures FateOf(UploadFate(ts, chunks), Run(Start(ts, Concat(chunks))), |Concat(chunks)|)
  {
    hide Run, Fed;
    if chunks == [] {
      assert Step(Start(ts, [])).Blocked?;
      RunBlocked(Start(ts, []));
    } else {
      var front, last := chunks[..|chunks| - 1], chunks[|chunks| - 1];
      assert chunks == front + [last];
      ConcatAppend(front, last);
      UploadRuns(ts, front);
      FedRuns(ts, Concat(front), UploadFate(ts, front), last);
    }
  }

  /** Chunk i is pushed to a waiting source, and the n-th step behind it cuts the buffer. */
  ghost predicate CutsIn(ts: Timestamps, chunks: seq<Bytes>, i: nat, n: nat) {
    && i < |chunks| && UploadFate(ts, chunks[..i]).Waits?
    && var f := UploadFate(ts, chunks[..i]); CutsAfter(Feed(f.p, chunks[i]), Pushed(f.room, |chunks[i]|), n)
  }

  ghost predicate TooLongIn(ts: Timestamps, chunks: seq<Bytes>, i: nat, n: nat) {
    && i < |chunks| && UploadFate(ts, chunks[..i]).Waits?
    && var f := UploadFate(ts, chunks[..i]); TooLongAfter(Feed(f.p, chunks[i]), Pushed(f.room, |chunks[i]|), n)
  }

  lemma StepOfUpload(ts: Timestamps, chunks: seq<Bytes>, i: nat)
    requires i < |chunks|
    ensures UploadFate(ts, chunks[..i + 1]) == Fed(UploadFate(ts, chunks[..i]), chunks[i])
  {
    hide UploadFate, Fed;
    assert chunks[..i + 1] == chunks[..i] + [chunks[i]];
    UploadNext(ts, chunks[..i], chunks[i]);
  }

  /** The last chunk that found the source waiting. */
  lemma {:induction false} EndsAt(ts: Timestamps, chunks: seq<Bytes>) returns (i: nat)
    requires !UploadFate(ts, chunks).Waits?
    ensures i < |chunks| && UploadFate(ts, chunks[..i]).Waits?
    ensures UploadFate(ts, chunks) == Fed(UploadFate(ts, chunks[..i]), chunks[i])
  {
    hide Fed;
    i := |chunks| - 1;
    var front := chunks[..i];
    if !UploadFate(ts, front).Waits? {
      UploadStays(ts, chunks, i);
      i := EndsAt(ts, front);
      assert front[..i] == chunks[..i];
    }
  }

  /** An upload fails the size assertion exactly when, behind some chunk, some entry ends with
      the buffer neither reset nor compacted and shrunk below its bytes. */
  lemma UploadCutIff(ts: Timestamps, chunks: seq<Bytes>)
    ensures UploadFate(ts, chunks) == Cut <==> exists i: nat, n: nat :: CutsIn(ts, chunks, i, n)
  {
    hide UploadFate, CutsAfter, DrainFate;
    if UploadFate(ts, chunks) == Cut {
      var i := EndsAt(ts, chunks);
      var f := UploadFate(ts, chunks[..i]);
      CutIff(Feed(f.p, chunks[i]), Pushed(f.room, |chunks[i]|));
      var n: nat :| CutsAfter(Feed(f.p, chunks[i]), Pushed(f.room, |chunks[i]|), n);
      assert CutsIn(ts, chunks, i, n);
    }
    if i: nat, n: nat :| CutsIn(ts, chunks, i, n) {
      var f := UploadFate(ts, chunks[..i]);
      CutIff(Feed(f.p, chunks[i]), Pushed(f.room, |chunks[i]|));
      StepOfUpload(ts, chunks, i);
      UploadStays(ts, chunks, i + 1);
    }
  }

  lemma UploadTooLongIff(ts: Timestamps, chunks: seq<Bytes>)
    ensures UploadFate(ts, chunks) == TooLong <==> exists i: nat, n: nat :: TooLongIn(ts, chunks, i, n)
  {
    hide UploadFate, TooLongAfter, DrainFate;
    if UploadFate(ts, chunks) == TooLong {
      var i := EndsAt(ts, chunks);
      var f := UploadFate(ts, chunks[..i]);
      TooLongIff(Feed(f.p, chunks[i]), Pushed(f.room, |chunks[i]|));
      var n: nat :| TooLongAfter(Feed(f.p, chunks[i]), Pushed(f.room, |chunks[i]|), n);
      assert TooLongIn(ts, chunks, i, n);
    }
    if i: nat, n: nat :| TooLongIn(ts, chunks, i, n) {
      var f := UploadFate(ts, chunks[..i]);
      TooLongIff(Feed(f.p, chunks[i]), Pushed(f.room, |chunks[i]|));
      StepOfUpload(ts, chunks, i);
      UploadStays(ts, chunks, i + 1);
    }
  }
}
