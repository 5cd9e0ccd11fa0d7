/** Uploads that do not end as the grammar says: streams that reach the two exceptions. */
module UploadExamples {
  import opened Bytes
  import opened ExportParser
  import opened SourceLayout
  import opened RemoteSources
  import opened UploadFates
  import opened HttpUpload

  const LETTER: Byte := 65

  function Letters(n: nat): (s: Bytes)
    ensures |s| == n && forall k :: 0 <= k < n ==> s[k] == LETTER
  {
    seq(n, _ => LETTER)
  }

  /** A text field of n bytes. */
  function TextField(n: nat): (t: Bytes)
    requires n >= 2
    ensures |t| == n && NEWLINE !in t && EQUALS in t && !StartsWith(t, DUNDER)
  {
    var t := [LETTER, EQUALS] + Letters(n - 2);
    assert t[1] == EQUALS && t[..2][0] == LETTER;
    t
  }

  /** The line of a text field is read in one step. */
  lemma ReadsField(ts: Timestamps, n: nat, rest: Bytes, room: Room)
    requires n >= 2 && room.offset == 0 && room.filled == n + 1 + |rest| <= room.size
    ensures var p, q := Start(ts, TextField(n) + [NEWLINE] + rest), Parser(Line, [TextField(n)], ts, false, rest);
            && Holds(p, room) && Holds(q, room.(offset := n + 1))
            && DrainFate(p, room) == DrainFate(q, room.(offset := n + 1))
  {
    hide ProcessDunder, TextField, DrainFate, Step;
    var t := TextField(n);
    var p := Start(ts, t + [NEWLINE] + rest);
    LineStep(p, t, rest);
    DunderIsDunder(t, ts);
    assert p.unread[0] == t[0] && t[0] in t;
    assert p.fields + [t] == [t];
    FateNext(p, room);
  }

  // ---- a push that is cut ----------------------------------------------------------

  /** A first entry of 110000 bytes and 90000 more. */
  function LongPush(): (s: Bytes)
    ensures |s| == 200000
  {
    TextField(109998) + [NEWLINE] + ([NEWLINE] + Letters(90000))
  }

  /** At its end the buffer of 400000 bytes is halved twice, to half of what it holds. */
  lemma LongPushOverhangs()
    ensures GreedySize(0, 200000) == 400000
    ensures Overhangs(Room(400000, 110000, 200000))
    ensures AfterEntry(Room(400000, 110000, 200000)) == Room(100000, 110000, 200000)
  {
    assert Halved(400000, 1) == Halved(200000, 0) && Halved(400000, 2) == Halved(200000, 1) == Halved(100000, 0);
    assert StepsBelow(400000, 90000, 200000, 1);
    assert ShrinkTarget(100000, 90000) == 100000;
    assert ShrinkTarget(200000, 90000) == ShrinkTarget(100000, 90000);
    assert ShrinkTarget(400000, 90000) == ShrinkTarget(200000, 90000);
  }

  lemma LongPushIsCut(ts: Timestamps)
    ensures UploadFate(ts, [LongPush()]) == Cut
  {
    hide DrainFate, Step, TextField, Overhangs, Letters, AfterEntry;
    var s, rest := LongPush(), [NEWLINE] + Letters(90000);
    UploadNext(ts, [], s);
    assert [] + [s] == [s];
    assert Feed(Start(ts, []), s) == Start(ts, s) by {
      assert [] + s == s;
    }
    LongPushOverhangs();
    var room := Room(400000, 0, 200000);
    ReadsField(ts, 109998, rest, room);
    var q := Parser(Line, [TextField(109998)], ts, false, rest);
    EndsEntryStep(q);
    FateNext(q, room.(offset := 109999));
  }

  /** The size assertion fails behind this push. */
  method CrashingUpload() returns (v: Verdict)
    ensures v == Crashed
  {
    hide UploadFate, LongPush;
    var source := new RemoteSource();
    var s := LongPush();
    assert s != [];
    v := Upload(source, [s]);
    LongPushIsCut(Timestamps(0, 0));
  }

  // ---- one stream, two cuttings ----------------------------------------------------

  function LongLine(): (t: Bytes)
    ensures |t| == DATA_SIZE_MAX
  {
    TextField(DATA_SIZE_MAX)
  }

  function WholeCutting(): seq<Bytes> {
    [LongLine() + [NEWLINE] + [NEWLINE]]
  }

  function SplitCutting(): seq<Bytes> {
    [LongLine(), [NEWLINE] + [NEWLINE]]
  }

  lemma SameStream()
    ensures Concat(WholeCutting()) == Concat(SplitCutting())
  {
    hide LongLine;
    var t: Bytes, end: Bytes := LongLine(), [NEWLINE] + [NEWLINE];
    ConcatAppend([], t);
    ConcatAppend([t], end);
    ConcatAppend([], t + [NEWLINE] + [NEWLINE]);
    assert [] + [t] == [t] && [t] + [end] == SplitCutting() && [] + [t + [NEWLINE] + [NEWLINE]] == WholeCutting();
    Associate(t, [NEWLINE], [NEWLINE]);
  }

  lemma WholeCuttingPasses(ts: Timestamps)
    ensures Answer(UploadFate(ts, WholeCutting()), true) == Accepted
  {
    hide DrainFate, Step, TextField, Overhangs, ShrinkTarget;
    var s := LongLine() + [NEWLINE] + [NEWLINE];
    UploadNext(ts, [], s);
    assert [] + [s] == [s];
    assert Feed(Start(ts, []), s) == Start(ts, s) by {
      assert [] + s == s;
    }
    var n := |s|;
    var room := Room(2 * n, 0, n);
    ReadsField(ts, DATA_SIZE_MAX, [NEWLINE], room);
    BlankLineAtEnd(ts, [LongLine()], room.(offset := n - 1));
  }

  lemma BlankLineAtEnd(ts: Timestamps, fields: seq<Bytes>, room: Room)
    requires room.filled == room.offset + 1 <= room.size
    ensures var q := Parser(Line, fields, ts, false, [NEWLINE]);
            Holds(q, room) && DrainFate(q, room).Waits? && DrainFate(q, room).room.filled == 0
  {
    hide DrainFate, Step, ShrinkTarget;
    var q := Parser(Line, fields, ts, false, [NEWLINE]);
    EndsEntryStep(q);
    assert q.unread[1..] == [];
    FateNext(q, room);
    StartBlocks(ts);
    FateStops(Start(ts, []), RoomAfter(q, room));
  }

  lemma StartBlocks(ts: Timestamps)
    ensures Step(Start(ts, [])).Blocked?
  {
  }

  lemma SplitCuttingIsTooLong(ts: Timestamps)
    ensures UploadFate(ts, SplitCutting()) == TooLong
  {
    hide DrainFate, LongLine, Step;
    var t := LongLine();
    UploadNext(ts, [], t);
    assert [] + [t] == [t];
    UploadNext(ts, [t], [NEWLINE] + [NEWLINE]);
    assert [t] + [[NEWLINE] + [NEWLINE]] == SplitCutting();
    var p := Feed(Start(ts, []), t);
    assert p.unread == t;
    LineWithoutEnd(ts);
    FateStops(p, Pushed(Room(0, 0, 0), |t|));
  }

  lemma LineWithoutEnd(ts: Timestamps)
    ensures Step(Feed(Start(ts, []), LongLine())).Blocked?
  {
    assert NEWLINE !in LongLine();
    assert [] + LongLine() == LongLine();
  }

  /** The same bytes are accepted in one push and refused as too long in two. */
  method CuttingDecides() returns (whole: Verdict, split: Verdict)
    ensures whole == Accepted && split == Rejected(ENOBUFS)
  {
    hide UploadFate, LongLine, Answer;
    var one := new RemoteSource();
    whole := Upload(one, WholeCutting());
    WholeCuttingPasses(Timestamps(0, 0));
    var two := new RemoteSource();
    split := Upload(two, SplitCutting());
    SplitCuttingIsTooLong(Timestamps(0, 0));
    assert Answer(TooLong, true) == Rejected(ENOBUFS) by {
      AnswerTooLong();
    }
  }

  lemma AnswerTooLong()
    ensures Answer(TooLong, true) == Rejected(ENOBUFS)
  {
  }
}
