/**
 Uploads of any length that never run into the buffer bookkeeping: entries and chunks that are
 small against the size from which the buffer is shrunk.
 */
module SteadyUploads {
  import opened Bytes
  import opened ExportParser
  import opened SourceLayout
  import opened UploadFates

  // ---- entries of bounded size -----------------------------------------------------

  /** The bytes that the next step looks at. */
  function Needed(p: Parser): nat {
    match p.mode
    case Line => if NEWLINE in p.unread then IndexOf(p.unread, NEWLINE) + 1 else |p.unread|
    case DataStart(_) => if |p.unread| < 8 then |p.unread| else 8
    case Data(_, size) => if |p.unread| < size then |p.unread| else size
    case DataFinish => if |p.unread| < 1 then 0 else 1
  }

  lemma StepTakesNeeded(p: Parser)
    requires Step(p).Next?
    ensures |Step(p).p.unread| == |p.unread| - Needed(p)
  {
    hide ProcessDunder, IndexOf, FromLittleEndian;
  }

  /** From p on, with `used` bytes of the current entry consumed, no entry takes more than limit
      bytes. */
  ghost predicate Fits(p: Parser, used: nat, limit: nat)
    requires Proper(p)
    decreases |p.unread|
  {
    if Step(p).Next? then
      StepConsumes(p);
      used + Needed(p) <= limit && Fits(Step(p).p, if EndsEntry(p) then 0 else used + Needed(p), limit)
    else used + Needed(p) <= limit
  }

  lemma FitsNext(p: Parser, used: nat, limit: nat)
    requires Proper(p) && Step(p).Next?
    ensures Proper(Step(p).p) && |Step(p).p.unread| < |p.unread|
    ensures Fits(p, used, limit) <==>
              used + Needed(p) <= limit && Fits(Step(p).p, if EndsEntry(p) then 0 else used + Needed(p), limit)
  {
    hide Step, Needed;
    StepConsumes(p);
  }

  /** What is buffered of an incomplete entry is part of that entry. */
  lemma BlockedFits(p: Parser, future: Bytes, used: nat, limit: nat)
    requires Proper(p) && Step(p).Blocked? && Fits(Feed(p, future), used, limit)
    ensures used + |p.unread| <= limit
  {
    hide ProcessDunder, FromLittleEndian, Fits;
    assert used + Needed(Feed(p, future)) <= limit by {
      FitsNow(Feed(p, future), used, limit);
    }
    assert p.mode.Line? ==> NEWLINE !in p.unread;
  }

  lemma FitsNow(p: Parser, used: nat, limit: nat)
    requires Proper(p) && Fits(p, used, limit)
    ensures used + Needed(p) <= limit
  {
    hide Step, Needed;
  }

  /** A step that is possible now fits as well as it does with the bytes to come. */
  lemma FitsAhead(p: Parser, future: Bytes, used: nat, limit: nat)
    requires Proper(p) && Step(p).Next? && Fits(Feed(p, future), used, limit)
    ensures Proper(Step(p).p)
    ensures Fits(Feed(Step(p).p, future), if EndsEntry(p) then 0 else used + Needed(p), limit)
    ensures |Step(p).p.unread| == |p.unread| - Needed(p)
  {
    hide Fits;
    StepConsumes(p);
    StepFeed(p, future);
    StepTakesNeeded(p);
    StepTakesNeeded(Feed(p, future));
    FitsNext(Feed(p, future), used, limit);
    assert p.mode.Line? ==> p.unread != [];
    hide Step, Needed;
  }

  // ---- the buffer stays small ------------------------------------------------------

  /** The bytes of the buffer that lie before the current entry. */
  function Base(r: Room, used: nat): int {
    r.offset - used
  }

  /** Consumed bytes in front of the current entry are few against the entries or the buffer. */
  predicate Low(r: Room, used: nat, limit: nat) {
    used <= r.offset && (Base(r, used) <= limit || 2 * Base(r, used) <= r.size)
  }

  /** The same while draining: at an entry end they are also few against the bytes behind. */
  predicate LowDraining(r: Room, used: nat, limit: nat) {
    used <= r.offset && (Low(r, used, limit) || 2 * Base(r, used) <= r.filled)
  }

  lemma LowAfterEntry(r: Room, limit: nat)
    requires r.offset <= r.filled <= r.size <= 16 * LINE_CHUNK
    ensures LowDraining(AfterEntry(r), 0, limit) && AfterEntry(r).size == r.size
  {
  }

  /** A drain that starts low ends low, with the buffer of the same size. */
  lemma {:induction false} SteadyDrain(p: Parser, r: Room, used: nat, future: Bytes, limit: nat) returns (left: nat)
    requires Holds(p, r) && LowDraining(r, used, limit) && r.size <= 16 * LINE_CHUNK &&
             Fits(Feed(p, future), used, limit)
    ensures var f := DrainFate(p, r);
            && !f.Cut? && !f.TooLong?
            && (f.Waits? ==> && f.room.size == r.size && Low(f.room, left, limit) && left + |f.p.unread| <= limit
                             && Fits(Feed(f.p, future), left, limit))
    decreases |p.unread|
  {
    hide Step, DrainFate, Fits, Needed, CutsHere, RoomAfter, LowDraining, AfterEntry;
    left := used;
    if Step(p).Next? {
      FitsAhead(p, future, used, limit);
      FateNext(p, r);
      RoomStep(p, r);
      LowNext(p, r, used, limit);
      left := SteadyDrain(Step(p).p, RoomAfter(p, r), if EndsEntry(p) then 0 else used + Needed(p), future, limit);
    } else {
      FateStops(p, r);
      if Step(p).Blocked? {
        BlockedFits(p, future, used, limit);
        LowBlocked(r, used, limit);
      }
    }
  }

  lemma LowNext(p: Parser, r: Room, used: nat, limit: nat)
    requires Holds(p, r) && Step(p).Next? && LowDraining(r, used, limit) && r.size <= 16 * LINE_CHUNK
    requires |Step(p).p.unread| == |p.unread| - Needed(p)
    ensures LowDraining(RoomAfter(p, r), if EndsEntry(p) then 0 else used + Needed(p), limit)
    ensures RoomAfter(p, r).size == r.size
  {
    hide Step, Needed;
    if EndsEntry(p) {
      LowAfterEntry(r.(offset := r.offset + 1), limit);
    }
  }

  lemma LowBlocked(r: Room, used: nat, limit: nat)
    requires r.offset <= r.filled && LowDraining(r, used, limit) && used + (r.filled - r.offset) <= limit
    ensures Low(r, used, limit)
  {
  }

  /** A push keeps the buffer below four times the entries and chunks. */
  lemma SteadyPush(r: Room, used: nat, n: nat, limit: nat, chunk: nat)
    requires r.offset <= r.filled <= r.size && Low(r, used, limit) && used + (r.filled - r.offset) <= limit &&
             n <= chunk
    requires 4 * limit + 4 * chunk <= 16 * LINE_CHUNK && r.size <= 16 * LINE_CHUNK
    ensures Pushed(r, n).size <= 16 * LINE_CHUNK && LowDraining(Pushed(r, n), used, limit)
  {
  }

  /** Behind every chunk the source waits, low, or has met an error. */
  ghost predicate Steady(f: Fate, left: nat, future: Bytes, limit: nat)
    requires Sane(f)
  {
    && !f.Cut? && !f.TooLong?
    && (f.Waits? ==> && f.room.size <= 16 * LINE_CHUNK && Low(f.room, left, limit) && left + |f.p.unread| <= limit
                     && Fits(Feed(f.p, future), left, limit))
  }

  lemma SteadyFed(f: Fate, left: nat, chunk: Bytes, future: Bytes, limit: nat, most: nat) returns (after: nat)
    requires Sane(f) && Steady(f, left, chunk + future, limit) && |chunk| <= most
    requires 4 * limit + 4 * most <= 16 * LINE_CHUNK
    ensures Steady(Fed(f, chunk), after, future, limit)
  {
    hide DrainFate, Fits, Step;
    after := left;
    if f.Waits? {
      SteadyPush(f.room, left, |chunk|, limit, most);
      assert Feed(Feed(f.p, chunk), future) == Feed(f.p, chunk + future) by {
        Associate(f.p.unread, chunk, future);
      }
      after := SteadyDrain(Feed(f.p, chunk), Pushed(f.room, |chunk|), left, future, limit);
    }
  }

  lemma {:induction false} SteadyPrefix(ts: Timestamps, chunks: seq<Bytes>, i: nat, limit: nat, most: nat)
    returns (left: nat)
    requires i <= |chunks| && Fits(Start(ts, Concat(chunks)), 0, limit) && 4 * limit + 4 * most <= 16 * LINE_CHUNK
    requires forall k :: 0 <= k < |chunks| ==> |chunks[k]| <= most
    ensures Steady(UploadFate(ts, chunks[..i]), left, Concat(chunks[i..]), limit)
    decreases i
  {
    hide Fits, Fed, Step, Steady;
    if i == 0 {
      left := 0;
      assert chunks[..0] == [] && chunks[0..] == chunks;
      SteadyStart(ts, Concat(chunks), limit);
    } else {
      var before := SteadyPrefix(ts, chunks, i - 1, limit, most);
      StepOfUpload(ts, chunks, i - 1);
      assert chunks[i - 1..][0] == chunks[i - 1] && chunks[i - 1..][1..] == chunks[i..];
      assert Concat(chunks[i - 1..]) == chunks[i - 1] + Concat(chunks[i..]);
      left := SteadyFed(UploadFate(ts, chunks[..i - 1]), before, chunks[i - 1], Concat(chunks[i..]), limit, most);
    }
  }

  lemma SteadyStart(ts: Timestamps, s: Bytes, limit: nat)
    requires Fits(Start(ts, s), 0, limit)
    ensures Sane(UploadFate(ts, [])) && Steady(UploadFate(ts, []), 0, s, limit)
  {
    hide Fits, Step;
    assert Feed(Start(ts, []), s) == Start(ts, s) by {
      assert [] + s == s;
    }
  }

  /** Entries of at most `limit` bytes in chunks of at most `most` never fail the size assertion
      and are never refused as too long if limit + most is at most 4 line chunks, however long
      the stream is. */
  lemma SteadyUpload(ts: Timestamps, chunks: seq<Bytes>, limit: nat, most: nat)
    requires Fits(Start(ts, Concat(chunks)), 0, limit) && limit + most <= 4 * LINE_CHUNK
    requires forall k :: 0 <= k < |chunks| ==> |chunks[k]| <= most
    ensures !UploadFate(ts, chunks).Cut? && !UploadFate(ts, chunks).TooLong?
  {
    hide Fits, UploadFate;
    var left := SteadyPrefix(ts, chunks, |chunks|, limit, most);
    assert chunks[..|chunks|] == chunks;
  }

  // ---- streams of the grammar ------------------------------------------------------

  /** Whatever was read before, these bytes fit from the start of a line on. */
  ghost predicate FitsLine(rest: Bytes, used: nat, limit: nat) {
    forall p: Parser :: p.mode.Line? && p.unread == rest ==> Fits(p, used, limit)
  }

  lemma FitsText(p: Parser, t: Bytes, rest: Bytes, used: nat, limit: nat)
    requires p.mode.Line? && t != [] && NEWLINE !in t && p.unread == t + [NEWLINE] + rest
    requires used + |t| + 1 <= limit
    requires Step(p).Next? ==> Fits(Step(p).p, used + |t| + 1, limit)
    ensures Fits(p, used, limit)
  {
    hide Step;
    LineStep(p, t, rest);
    assert p.unread[..|t|] == t;
    IndexOfUnique(p.unread, NEWLINE, |t|);
    if Step(p).Next? {
      FitsNext(p, used, limit);
    }
  }

  lemma FitsTextItem(p: Parser, t: Bytes, rest: Bytes, used: nat, limit: nat)
    requires p.mode.Line? && ItemOk(Text(t)) && p.unread == ItemBytes(Text(t)) + rest
    requires used + |ItemBytes(Text(t))| <= limit && FitsLine(rest, used + |ItemBytes(Text(t))|, limit)
    ensures Fits(p, used, limit)
  {
    hide ProcessDunder, StartsWith, Fits, Step;
    LineStep(p, t, rest);
    DunderIsDunder(t, p.ts);
    FitsText(p, t, rest, used, limit);
  }

  lemma FitsBinary(p: Parser, name: Bytes, data: Bytes, rest: Bytes, used: nat, limit: nat)
    requires p.mode.Line? && ItemOk(Binary(name, data)) && p.unread == BinaryText(name, data) + rest
    requires used + |BinaryText(name, data)| <= limit && FitsLine(rest, used + |BinaryText(name, data)|, limit)
    ensures Fits(p, used, limit)
  {
    hide ProcessDunder, StartsWith, Fits, LittleEndian, FitsLine, Step;
    BinaryTextSplit(name, data, rest);
    var word := LittleEndian(|data|, 8) + (data + ([NEWLINE] + rest));
    LineStep(p, name, word);
    DunderIsDunder(name, p.ts);
    FitsWord(Step(p).p, name, data, rest, used + |name| + 1, limit);
    FitsText(p, name, word, used, limit);
  }

  lemma FitsWord(p: Parser, name: Bytes, data: Bytes, rest: Bytes, used: nat, limit: nat)
    requires p.mode == DataStart(name) && |data| <= DATA_SIZE_MAX
    requires p.unread == LittleEndian(|data|, 8) + (data + ([NEWLINE] + rest))
    requires used + 8 + |data| + 1 <= limit && FitsLine(rest, used + 8 + |data| + 1, limit)
    ensures Fits(p, used, limit)
  {
    hide Fits, LittleEndian, FitsLine, Step;
    SizeStep(p, name, |data|, data + ([NEWLINE] + rest));
    FitsNext(p, used, limit);
    var q := Step(p).p;
    if data == [] {
      assert q.unread == [NEWLINE] + rest;
      FitsClosing(q, rest, used + 8, limit);
    } else {
      FitsData(q, name, data, rest, used + 8, limit);
    }
  }

  lemma FitsData(p: Parser, name: Bytes, data: Bytes, rest: Bytes, used: nat, limit: nat)
    requires data != [] && p.mode == Data(name, |data|) && p.unread == data + ([NEWLINE] + rest)
    requires used + |data| + 1 <= limit && FitsLine(rest, used + |data| + 1, limit)
    ensures Fits(p, used, limit)
  {
    hide FitsLine;
    assert p.unread[|data|..] == [NEWLINE] + rest;
    if Step(p).Next? {
      FitsClosing(Step(p).p, rest, used + |data|, limit);
    }
  }

  lemma FitsClosing(p: Parser, rest: Bytes, used: nat, limit: nat)
    requires p.mode.DataFinish? && p.unread == [NEWLINE] + rest && used + 1 <= limit && FitsLine(rest, used + 1, limit)
    ensures Fits(p, used, limit)
  {
    assert p.unread[1..] == rest;
    var q := Step(p).p;
    assert q.mode.Line? && q.unread == rest;
    hide Step;
    FitsNext(p, used, limit);
  }

  lemma FitsItem(i: Item, rest: Bytes, used: nat, limit: nat)
    requires ItemOk(i) && used + |ItemBytes(i)| <= limit && FitsLine(rest, used + |ItemBytes(i)|, limit)
    ensures FitsLine(ItemBytes(i) + rest, used, limit)
  {
    hide Fits, ItemOk;
    forall p: Parser | p.mode.Line? && p.unread == ItemBytes(i) + rest
      ensures Fits(p, used, limit)
    {
      match i
      case Text(t) => FitsTextItem(p, t, rest, used, limit);
      case Binary(name, data) => FitsBinary(p, name, data, rest, used, limit);
    }
  }

  lemma FitsBlank(rest: Bytes, used: nat, limit: nat)
    requires used + 1 <= limit && FitsLine(rest, 0, limit)
    ensures FitsLine([NEWLINE] + rest, used, limit)
  {
    hide Fits, FitsLine, Step;
    forall p: Parser | p.mode.Line? && p.unread == [NEWLINE] + rest
      ensures Fits(p, used, limit)
    {
      EndsEntryStep(p);
      assert p.unread[1..] == rest;
      IndexOfUnique(p.unread, NEWLINE, 0);
      FitsNext(p, used, limit);
      FitsLineAt(Step(p).p, rest, 0, limit);
    }
    FitsLineIf([NEWLINE] + rest, used, limit);
  }

  lemma FitsLineAt(p: Parser, rest: Bytes, used: nat, limit: nat)
    requires FitsLine(rest, used, limit) && p.mode.Line? && p.unread == rest
    ensures Fits(p, used, limit)
  {
    hide Fits;
  }

  lemma FitsLineIf(rest: Bytes, used: nat, limit: nat)
    requires forall p: Parser :: p.mode.Line? && p.unread == rest ==> Fits(p, used, limit)
    ensures FitsLine(rest, used, limit)
  {
    hide Fits;
  }

  lemma {:induction false} FitsEntry(items: seq<Item>, rest: Bytes, used: nat, limit: nat)
    requires EntryOk(items) && used + |EntryBytes(items)| <= limit && FitsLine(rest, 0, limit)
    ensures FitsLine(EntryBytes(items) + rest, used, limit)
  {
    hide FitsLine, ItemOk;
    if items == [] {
      FitsBlank(rest, used, limit);
    } else {
      var first := ItemBytes(items[0]);
      FitsEntry(items[1..], rest, used + |first|, limit);
      FitsItem(items[0], EntryBytes(items[1..]) + rest, used, limit);
      Associate(first, EntryBytes(items[1..]), rest);
    }
  }

  /** A stream of the grammar whose entries have at most `limit` bytes. */
  lemma {:induction false} FitsStream(es: seq<seq<Item>>, limit: nat)
    requires StreamOk(es) && forall k :: 0 <= k < |es| ==> |EntryBytes(es[k])| <= limit
    ensures FitsLine(StreamBytes(es), 0, limit)
  {
    hide FitsLine, EntryOk, EntryBytes;
    if es == [] {
      NothingFits(limit);
    } else {
      FitsStream(es[1..], limit);
      FitsEntry(es[0], StreamBytes(es[1..]), 0, limit);
    }
  }

  lemma NothingFits(limit: nat)
    ensures FitsLine([], 0, limit)
  {
  }

  /** The same bound for a stream that is given by its entries. */
  lemma SteadyStream(ts: Timestamps, es: seq<seq<Item>>, chunks: seq<Bytes>, limit: nat, most: nat)
    requires StreamOk(es) && Concat(chunks) == StreamBytes(es) && limit + most <= 4 * LINE_CHUNK
    requires forall k :: 0 <= k < |es| ==> |EntryBytes(es[k])| <= limit
    requires forall k :: 0 <= k < |chunks| ==> |chunks[k]| <= most
    ensures !UploadFate(ts, chunks).Cut? && !UploadFate(ts, chunks).TooLong?
  {
    hide Fits, UploadFate, FitsLine;
    FitsStream(es, limit);
    FitsLineAt(Start(ts, Concat(chunks)), Concat(chunks), 0, limit);
    SteadyUpload(ts, chunks, limit, most);
  }
}
