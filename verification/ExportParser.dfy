/**
 The Journal Export Format as a language, and a pure incremental parser for it.

 A stream is a sequence of entries; an entry is a sequence of items closed by an empty
 line; an item is either one text line or a binary field (name line, 64-bit little-endian
 length, data, newline). `Step` is the reference that the in-place parser of RemoteSource
 is proved to follow; `Interpret` gives the meaning of a stream by recursion over its
 grammar, without any parser state.
 */
module ExportParser {
  import opened Bytes
  import opened Numbers
  import opened Wrappers

  const DATA_SIZE_MAX: nat := 768 * 1024 * 1024
  const ENTRY_FIELD_COUNT_MAX: nat := 1024

  datatype Errno = EINVAL | ERANGE | E2BIG | ENOBUFS

  function Ascii(s: string): (r: Bytes)
    requires forall i :: 0 <= i < |s| ==> s[i] as int < 128
    ensures |r| == |s|
  {
    seq(|s|, i requires 0 <= i < |s| => s[i] as int)
  }

  lemma AsciiAt(s: string, k: nat)
    requires (forall i :: 0 <= i < |s| ==> s[i] as int < 128) && k < |s|
    ensures Ascii(s)[k] == s[k] as int
  {
  }

  const UNDERSCORE: Byte := 95
  const DUNDER: Bytes := Ascii("__")
  const CURSOR: Bytes := Ascii("__CURSOR=")
  const REALTIME: Bytes := Ascii("__REALTIME_TIMESTAMP=")
  const MONOTONIC: Bytes := Ascii("__MONOTONIC_TIMESTAMP=")
  const BOOT_ID: Bytes := Ascii("_BOOT_ID=")

  /** dual_timestamp. */
  datatype Timestamps = Timestamps(realtime: nat, monotonic: nat)

  /** What the writer receives for one entry: the iovecs' contents and the timestamps. */
  datatype Entry = Entry(ts: Timestamps, fields: seq<Bytes>)

  // ---- metadata lines --------------------------------------------------------------

  datatype Dunder = NoDunder | Metadata(ts: Timestamps) | BadNumber(error: Errno)

  function Number(a: Atollu, ok: nat -> Timestamps): Dunder {
    match a
    case Value(n) => Metadata(ok(n))
    case Einval => BadNumber(EINVAL)
    case Erange => BadNumber(ERANGE)
  }

  /** process_dunder on a line whose newline has been cut off. */
  function ProcessDunder(text: Bytes, ts: Timestamps): Dunder {
    if StartsWith(text, CURSOR) then Metadata(ts)
    else if StartsWith(text, REALTIME) then
      Number(SafeAtollu(text[|REALTIME|..]), (n: nat) => ts.(realtime := n))
    else if StartsWith(text, MONOTONIC) then
      Number(SafeAtollu(text[|MONOTONIC|..]), (n: nat) => ts.(monotonic := n))
    else if StartsWith(text, DUNDER) then Metadata(ts)
    else NoDunder
  }

  /** What a line does to the timestamps: only the two lines that name one change it, and only that one;
      every other line with two underscores in front changes nothing, and no other line is metadata. */
  lemma DunderEffects(text: Bytes, ts: Timestamps)
    ensures var d := ProcessDunder(text, ts);
            && (d == NoDunder <==> !(|text| >= 2 && text[0] == UNDERSCORE && text[1] == UNDERSCORE))
            && (!StartsWith(text, Ascii("__REALTIME_TIMESTAMP=")) && !StartsWith(text, Ascii("__MONOTONIC_TIMESTAMP="))
                ==> d == NoDunder || d == Metadata(ts))
    ensures StartsWith(text, Ascii("__REALTIME_TIMESTAMP=")) ==>
              var d, a := ProcessDunder(text, ts), SafeAtollu(text[21..]);
              && (a.Value? ==> d == Metadata(Timestamps(a.n, ts.monotonic)))
              && (a.Einval? ==> d == BadNumber(EINVAL)) && (a.Erange? ==> d == BadNumber(ERANGE))
    ensures StartsWith(text, Ascii("__MONOTONIC_TIMESTAMP=")) ==>
              var d, a := ProcessDunder(text, ts), SafeAtollu(text[22..]);
              && (a.Value? ==> d == Metadata(Timestamps(ts.realtime, a.n)))
              && (a.Einval? ==> d == BadNumber(EINVAL)) && (a.Erange? ==> d == BadNumber(ERANGE))
  {
    hide SafeAtollu;
    StartDiffers(text);
    if |text| >= 2 {
      assert text[..2] == [text[0], text[1]];
    }
  }

  /** The prefixes exclude each other, and all begin with two underscores. */
  lemma StartDiffers(text: Bytes)
    ensures !(StartsWith(text, CURSOR) && StartsWith(text, REALTIME))
    ensures !(StartsWith(text, CURSOR) && StartsWith(text, MONOTONIC))
    ensures !(StartsWith(text, REALTIME) && StartsWith(text, MONOTONIC))
    ensures StartsWith(text, CURSOR) || StartsWith(text, REALTIME) || StartsWith(text, MONOTONIC) ==>
              |text| >= 2 && text[0] == UNDERSCORE && text[1] == UNDERSCORE
  {
    assert StartsWith(text, CURSOR) ==> text[..9][2] == 67 && text[..9][0] == text[..9][1] == UNDERSCORE;
    assert StartsWith(text, REALTIME) ==> text[..21][2] == 82 && text[..21][0] == text[..21][1] == UNDERSCORE;
    assert StartsWith(text, MONOTONIC) ==> text[..22][2] == 77 && text[..22][0] == text[..22][1] == UNDERSCORE;
  }

  // ---- incremental parser ----------------------------------------------------------

  datatype Mode =
    | Line
    | DataStart(name: Bytes)
    | Data(name: Bytes, size: nat)
    | DataFinish

  /** `clean` says that nothing was consumed since the start or the last empty line. */
  datatype Parser = Parser(mode: Mode, fields: seq<Bytes>, ts: Timestamps, clean: bool, unread: Bytes)

  datatype Outcome = Blocked | Failed(error: Errno) | Next(p: Parser, out: seq<Entry>)

  function Start(ts: Timestamps, unread: Bytes): Parser {
    Parser(Line, [], ts, true, unread)
  }

  function Feed(p: Parser, more: Bytes): Parser {
    p.(unread := p.unread + more)
  }

  function PutField(p: Parser, field: Bytes, mode: Mode, rest: Bytes): Outcome {
    if |p.fields| >= ENTRY_FIELD_COUNT_MAX then Failed(E2BIG)
    else Next(Parser(mode, p.fields + [field], p.ts, false, rest), [])
  }

  function EndEntry(p: Parser, rest: Bytes): Outcome {
    Next(Start(p.ts, rest), if p.fields == [] then [] else [Entry(p.ts, p.fields)])
  }

  function StepText(p: Parser, text: Bytes, rest: Bytes): Outcome {
    match ProcessDunder(text, p.ts)
    case BadNumber(e) => Failed(e)
    case Metadata(ts) => Next(Parser(Line, p.fields, ts, false, rest), [])
    case NoDunder =>
      if EQUALS in text then PutField(p, text, Line, rest)
      else Next(Parser(DataStart(text), p.fields, p.ts, false, rest), [])
  }

  /** One call of process_source on a passive source, without the size check on the line. */
  function Step(p: Parser): Outcome {
    match p.mode
    case Line =>
      var k := IndexOf(p.unread, NEWLINE);
      if k == |p.unread| then Blocked
      else if k == 0 then EndEntry(p, p.unread[1..])
      else StepText(p, p.unread[..k], p.unread[k + 1..])
    case DataStart(name) =>
      if |p.unread| < 8 then Blocked
      else
        var size := FromLittleEndian(p.unread[..8]);
        if size > DATA_SIZE_MAX then Failed(EINVAL)
        else
          Next(Parser(if size > 0 then Data(name, size) else DataFinish,
                      p.fields, p.ts, false, p.unread[8..]), [])
    case Data(name, size) =>
      if |p.unread| < size then Blocked
      else PutField(p, name + [EQUALS] + p.unread[..size], DataFinish, p.unread[size..])
    case DataFinish =>
      if |p.unread| < 1 then Blocked
      else if p.unread[0] != NEWLINE then Failed(EINVAL)
      else Next(Parser(Line, p.fields, p.ts, false, p.unread[1..]), [])
  }

  /** The next thing to read is the blank line that ends an entry. */
  predicate EndsEntry(p: Parser) {
    p.mode.Line? && p.unread != [] && p.unread[0] == NEWLINE
  }

  lemma EndsEntryStep(p: Parser)
    requires EndsEntry(p)
    ensures Step(p) == EndEntry(p, p.unread[1..])
  {
  }

  ghost predicate Proper(p: Parser) {
    p.mode.Data? ==> p.mode.size > 0
  }

  /** Every step that neither fails nor blocks consumes at least one byte. */
  lemma StepConsumes(p: Parser)
    requires Proper(p) && Step(p).Next?
    ensures |Step(p).p.unread| < |p.unread| && Proper(Step(p).p)
  {
  }

  datatype RunResult = RunResult(p: Parser, out: seq<Entry>, err: Option<Errno>)

  function Prepend(out: seq<Entry>, r: RunResult): RunResult {
    r.(out := out + r.out)
  }

  /** The drain loop: step until the parser blocks or fails. */
  ghost function Run(p: Parser): RunResult
    requires Proper(p)
    decreases |p.unread|
  {
    match Step(p)
    case Blocked => RunResult(p, [], None)
    case Failed(e) => RunResult(p, [], Some(e))
    case Next(p', out) =>
      StepConsumes(p);
      Prepend(out, Run(p'))
  }

  // Unfolding of Run by one step, so that the proofs below can leave Run and Step folded.

  lemma RunBlocked(p: Parser)
    requires Proper(p) && !Step(p).Next?
    ensures Run(p) == RunResult(p, [], if Step(p).Failed? then Some(Step(p).error) else None)
  {
    hide Step;
  }

  lemma RunNext(p: Parser)
    requires Proper(p) && Step(p).Next?
    ensures Proper(Step(p).p) && |Step(p).p.unread| < |p.unread|
    ensures Run(p) == Prepend(Step(p).out, Run(Step(p).p))
    ensures Step(p).out == [] ==> Run(p) == Run(Step(p).p)
  {
    StepConsumes(p);
    hide Step;
    assert [] + Run(Step(p).p).out == Run(Step(p).p).out;
  }

  // ---- chunk independence ----------------------------------------------------------

  lemma StepTextFeed(p: Parser, text: Bytes, rest: Bytes, more: Bytes)
    ensures StepText(Feed(p, more), text, rest + more)
         == match StepText(p, text, rest)
            case Next(q, out) => Next(Feed(q, more), out)
            case other => other
  {
    hide ProcessDunder;
  }

  lemma StepFeedLine(p: Parser, more: Bytes)
    requires p.mode.Line? && !Step(p).Blocked?
    ensures Step(p).Failed? ==> Step(Feed(p, more)) == Step(p)
    ensures Step(p).Next? ==> Step(Feed(p, more)) == Next(Feed(Step(p).p, more), Step(p).out)
  {
    hide StepText;
    var all := p.unread + more;
    var k := IndexOf(p.unread, NEWLINE);
    assert all[..k] == p.unread[..k];
    IndexOfUnique(all, NEWLINE, k);
    assert all[k + 1..] == p.unread[k + 1..] + more;
    StepTextFeed(p, p.unread[..k], p.unread[k + 1..], more);
  }

  lemma StepFeed(p: Parser, more: Bytes)
    requires Proper(p) && !Step(p).Blocked?
    ensures Step(p).Failed? ==> Step(Feed(p, more)) == Step(p)
    ensures Step(p).Next? ==> Step(Feed(p, more)) == Next(Feed(Step(p).p, more), Step(p).out)
  {
    hide FromLittleEndian, StepText, IndexOf;
    var all := p.unread + more;
    match p.mode
    case Line => StepFeedLine(p, more);
    case DataStart(_) =>
      assert all[..8] == p.unread[..8] && all[8..] == p.unread[8..] + more;
    case Data(_, size) =>
      assert all[..size] == p.unread[..size] && all[size..] == p.unread[size..] + more;
    case DataFinish =>
      assert all[1..] == p.unread[1..] + more;
  }

  ghost predicate FeedsTo(r: RunResult, more: Bytes, whole: RunResult)
    requires Proper(r.p)
  {
    if r.err.Some? then whole == RunResult(Feed(r.p, more), r.out, r.err)
    else whole == Prepend(r.out, Run(Feed(r.p, more)))
  }

  lemma {:induction false} RunProper(p: Parser)
    requires Proper(p)
    ensures Proper(Run(p).p)
    ensures Run(p).err.None? ==> Step(Run(p).p).Blocked?
    decreases |p.unread|
  {
    hide Step, Run;
    if Step(p).Next? {
      RunNext(p);
      RunProper(Step(p).p);
    } else {
      RunBlocked(p);
    }
  }

  lemma {:induction false} RunFeed(p: Parser, more: Bytes)
    requires Proper(p)
    ensures Proper(Run(p).p) && FeedsTo(Run(p), more, Run(Feed(p, more)))
    decreases |p.unread|
  {
    hide Step, Run;
    RunProper(p);
    match Step(p)
    case Blocked =>
      RunBlocked(p);
      assert [] + Run(Feed(p, more)).out == Run(Feed(p, more)).out;
    case Failed(_) =>
      RunBlocked(p);
      StepFeed(p, more);
      RunBlocked(Feed(p, more));
    case Next(p', out) =>
      StepFeed(p, more);
      RunNext(p);
      RunNext(Feed(p, more));
      RunFeed(p', more);
      var r := Run(p');
      assert out + (r.out + Run(Feed(r.p, more)).out) == out + r.out + Run(Feed(r.p, more)).out;
  }

  /** Push the chunks one after the other, draining after each push. */
  ghost function RunChunks(p: Parser, chunks: seq<Bytes>): RunResult
    requires Proper(p)
    decreases chunks
  {
    if chunks == [] then RunResult(p, [], None)
    else
      var r := Run(Feed(p, chunks[0]));
      RunProper(Feed(p, chunks[0]));
      if r.err.Some? then r else Prepend(r.out, RunChunks(r.p, chunks[1..]))
  }

  ghost predicate SameResult(a: RunResult, b: RunResult) {
    a.out == b.out && a.err == b.err && (a.err.None? ==> a.p == b.p)
  }

  /** Any split of a stream gives the entries, the error and the final state of the whole. */
  lemma {:induction false} ChunkIndependence(p: Parser, chunks: seq<Bytes>)
    requires Proper(p) && Step(p).Blocked?
    ensures SameResult(RunChunks(p, chunks), Run(Feed(p, Concat(chunks))))
    decreases chunks
  {
    hide Step, Run;
    if chunks == [] {
      assert Feed(p, []) == p;
      RunBlocked(p);
    } else {
      var first := Feed(p, chunks[0]);
      var rest := Concat(chunks[1..]);
      assert Feed(p, Concat(chunks)) == Feed(first, rest) by {
        assert p.unread + Concat(chunks) == p.unread + chunks[0] + rest;
      }
      RunFeed(first, rest);
      RunProper(first);
      if Run(first).err.None? {
        ChunkIndependence(Run(first).p, chunks[1..]);
      }
    }
  }

  // ---- the grammar -----------------------------------------------------------------

  datatype Item = Text(text: Bytes) | Binary(name: Bytes, data: Bytes)

  predicate ItemOk(i: Item) {
    match i
    case Text(t) => t != [] && NEWLINE !in t && (EQUALS in t || StartsWith(t, DUNDER))
    case Binary(n, d) =>
      n != [] && NEWLINE !in n && EQUALS !in n && !StartsWith(n, DUNDER) && |d| <= DATA_SIZE_MAX
  }

  /** A binary field on the wire. */
  function BinaryText(name: Bytes, data: Bytes): Bytes {
    name + [NEWLINE] + LittleEndian(|data|, 8) + data + [NEWLINE]
  }

  lemma BinaryTextSplit(name: Bytes, data: Bytes, rest: Bytes)
    ensures BinaryText(name, data) + rest
         == name + [NEWLINE] + (LittleEndian(|data|, 8) + (data + ([NEWLINE] + rest)))
  {
    hide LittleEndian;
    Regroup(name + [NEWLINE], LittleEndian(|data|, 8), data, [NEWLINE], rest);
  }

  lemma Regroup(a: Bytes, b: Bytes, c: Bytes, d: Bytes, e: Bytes)
    ensures a + b + c + d + e == a + (b + (c + (d + e)))
  {
    Associate(a + b + c, d, e);
    Associate(a + b, c, d + e);
    Associate(a, b, c + (d + e));
  }

  function ItemBytes(i: Item): Bytes {
    match i
    case Text(t) => t + [NEWLINE]
    case Binary(n, d) => BinaryText(n, d)
  }

  function EntryBytes(items: seq<Item>): Bytes {
    if items == [] then [NEWLINE] else ItemBytes(items[0]) + EntryBytes(items[1..])
  }

  function StreamBytes(es: seq<seq<Item>>): Bytes {
    if es == [] then [] else EntryBytes(es[0]) + StreamBytes(es[1..])
  }

  predicate EntryOk(items: seq<Item>) {
    forall k :: 0 <= k < |items| ==> ItemOk(items[k])
  }

  predicate StreamOk(es: seq<seq<Item>>) {
    forall k :: 0 <= k < |es| ==> EntryOk(es[k])
  }

  /** s is a whole number of entries. */
  ghost predicate WholeEntries(s: Bytes) {
    exists es :: StreamOk(es) && StreamBytes(es) == s
  }

  /** The fields and timestamps collected so far, or the error that stops the reader. */
  datatype Draft = Draft(fields: seq<Bytes>, ts: Timestamps) | Refused(error: Errno)

  function AddField(d: Draft, field: Bytes): Draft
    requires d.Draft?
  {
    if |d.fields| >= ENTRY_FIELD_COUNT_MAX then Refused(E2BIG) else d.(fields := d.fields + [field])
  }

  /** A text line is metadata or a field; a binary field of length zero leaves no trace. */
  function AddItem(d: Draft, i: Item): Draft
    requires d.Draft?
  {
    match i
    case Text(t) =>
      (match ProcessDunder(t, d.ts)
       case NoDunder => AddField(d, t)
       case Metadata(ts) => d.(ts := ts)
       case BadNumber(e) => Refused(e))
    case Binary(n, data) => if data == [] then d else AddField(d, n + [EQUALS] + data)
  }

  function AddItems(d: Draft, items: seq<Item>): Draft
    decreases items
  {
    if d.Refused? || items == [] then d else AddItems(AddItem(d, items[0]), items[1..])
  }

  datatype Interpretation = Interpretation(out: seq<Entry>, ts: Timestamps, err: Option<Errno>)

  /** The meaning of a stream: its entries in order; entries without fields are skipped. */
  function Interpret(es: seq<seq<Item>>, ts: Timestamps): Interpretation {
    if es == [] then Interpretation([], ts, None)
    else
      match AddItems(Draft([], ts), es[0])
      case Refused(e) => Interpretation([], ts, Some(e))
      case Draft(fields, ts') =>
        var rest := Interpret(es[1..], ts');
        rest.(out := (if fields == [] then [] else [Entry(ts', fields)]) + rest.out)
  }

  lemma DunderIsDunder(t: Bytes, ts: Timestamps)
    ensures ProcessDunder(t, ts).NoDunder? <==> !StartsWith(t, DUNDER)
  {
    hide SafeAtollu;
    assert CURSOR[..2] == DUNDER && REALTIME[..2] == DUNDER && MONOTONIC[..2] == DUNDER;
    assert StartsWith(t, CURSOR) ==> t[..2] == t[..|CURSOR|][..2];
    assert StartsWith(t, REALTIME) ==> t[..2] == t[..|REALTIME|][..2];
    assert StartsWith(t, MONOTONIC) ==> t[..2] == t[..|MONOTONIC|][..2];
  }

  /** A line without inner newline is what the next step reads. */
  lemma LineStep(p: Parser, t: Bytes, rest: Bytes)
    requires p.mode.Line? && t != [] && NEWLINE !in t && p.unread == t + [NEWLINE] + rest
    ensures Step(p) == StepText(p, t, rest)
  {
    hide StepText;
    assert p.unread[..|t|] == t && p.unread[|t| + 1..] == rest;
    IndexOfUnique(p.unread, NEWLINE, |t|);
  }

  lemma TextRun(p: Parser, t: Bytes, rest: Bytes)
    requires p.mode.Line? && ItemOk(Text(t)) && p.unread == t + [NEWLINE] + rest
    ensures match AddItem(Draft(p.fields, p.ts), Text(t))
            case Refused(e) => Run(p).out == [] && Run(p).err == Some(e)
            case Draft(fields, ts) => Run(p) == Run(Parser(Line, fields, ts, false, rest))
  {
    hide ProcessDunder, StartsWith, Step, Run;
    LineStep(p, t, rest);
    DunderIsDunder(t, p.ts);
    if Step(p).Next? {
      RunNext(p);
    } else {
      RunBlocked(p);
    }
  }

  /** Data and closing newline. */
  lemma DataRun(p: Parser, name: Bytes, d: Bytes, rest: Bytes)
    requires p.mode == (if d == [] then DataFinish else Data(name, |d|))
    requires p.unread == d + ([NEWLINE] + rest)
    ensures match AddItem(Draft(p.fields, p.ts), Binary(name, d))
            case Refused(e) => Run(p).out == [] && Run(p).err == Some(e)
            case Draft(fields, ts) => Run(p) == Run(Parser(Line, fields, ts, false, rest))
    decreases |d|
  {
    hide StepText, IndexOf, FromLittleEndian, Run;
    if d == [] {
      assert p.unread[1..] == rest;
      RunNext(p);
    } else {
      assert p.unread[..|d|] == d && p.unread[|d|..] == [NEWLINE] + rest;
      if Step(p).Next? {
        RunNext(p);
        var p1 := Step(p).p;
        assert [NEWLINE] + rest == [] + ([NEWLINE] + rest);
        DataRun(p1, name, [], rest);
      } else {
        RunBlocked(p);
      }
    }
  }

  /** The length word announces the size of the data. */
  lemma SizeStep(p: Parser, name: Bytes, size: nat, rest: Bytes)
    requires p.mode == DataStart(name) && size <= DATA_SIZE_MAX
    requires p.unread == LittleEndian(size, 8) + rest
    ensures Step(p) == Next(Parser(if size > 0 then Data(name, size) else DataFinish,
                                   p.fields, p.ts, false, rest), [])
  {
    hide LittleEndian, FromLittleEndian, IndexOf, StepText;
    Pow256Of8();
    LittleEndianRoundTrip(size, 8);
    assert p.unread[..8] == LittleEndian(size, 8) && p.unread[8..] == rest;
  }

  lemma SizeStepInverse(p: Parser) returns (size: nat)
    requires p.mode.DataStart? && Step(p).Next?
    ensures var q := Step(p).p;
            q.mode == (if size > 0 then Data(p.mode.name, size) else DataFinish)
            && size <= DATA_SIZE_MAX && !q.clean
            && p.unread == LittleEndian(size, 8) + q.unread
  {
    hide LittleEndian, FromLittleEndian, IndexOf, StepText;
    size := FromLittleEndian(p.unread[..8]);
    FromLittleEndianInverse(p.unread[..8]);
  }

  lemma BinaryRun(p: Parser, n: Bytes, d: Bytes, rest: Bytes)
    requires p.mode.Line? && ItemOk(Binary(n, d)) && p.unread == ItemBytes(Binary(n, d)) + rest
    ensures match AddItem(Draft(p.fields, p.ts), Binary(n, d))
            case Refused(e) => Run(p).out == [] && Run(p).err == Some(e)
            case Draft(fields, ts) => Run(p) == Run(Parser(Line, fields, ts, false, rest))
  {
    hide ProcessDunder, StartsWith, LittleEndian, Run, Step, BinaryText;
    BinaryTextSplit(n, d, rest);
    var tail := LittleEndian(|d|, 8) + (d + ([NEWLINE] + rest));
    LineStep(p, n, tail);
    DunderIsDunder(n, p.ts);
    RunNext(p);
    var p1 := Step(p).p;
    SizeStep(p1, n, |d|, d + ([NEWLINE] + rest));
    RunNext(p1);
    DataRun(Step(p1).p, n, d, rest);
  }

  lemma ItemRun(p: Parser, i: Item, rest: Bytes)
    requires p.mode.Line? && ItemOk(i) && p.unread == ItemBytes(i) + rest
    ensures match AddItem(Draft(p.fields, p.ts), i)
            case Refused(e) => Run(p).out == [] && Run(p).err == Some(e)
            case Draft(fields, ts) => Run(p) == Run(Parser(Line, fields, ts, false, rest))
  {
    hide ProcessDunder, StartsWith, LittleEndian, Run;
    match i
    case Text(t) => TextRun(p, t, rest);
    case Binary(n, d) => BinaryRun(p, n, d, rest);
  }

  lemma {:induction false} EntryRun(p: Parser, items: seq<Item>, rest: Bytes)
    requires p.mode.Line? && EntryOk(items) && p.unread == EntryBytes(items) + rest
    ensures match AddItems(Draft(p.fields, p.ts), items)
            case Refused(e) => Run(p).out == [] && Run(p).err == Some(e)
            case Draft(fields, ts) =>
              Run(p) == Prepend(if fields == [] then [] else [Entry(ts, fields)], Run(Start(ts, rest)))
    decreases items
  {
    hide ItemOk, ItemBytes, Run, AddItem, StepText;
    if items == [] {
      assert p.unread == [NEWLINE] + rest;
      assert p.unread[1..] == rest;
      assert Step(p) == EndEntry(p, rest);
      RunNext(p);
    } else {
      hide Step;
      var tail := EntryBytes(items[1..]) + rest;
      assert p.unread == ItemBytes(items[0]) + tail;
      ItemRun(p, items[0], tail);
      var d := AddItem(Draft(p.fields, p.ts), items[0]);
      if d.Draft? {
        EntryRun(Parser(Line, d.fields, d.ts, false, tail), items[1..], rest);
      }
    }
  }

  /** The parser computes the meaning of every stream of the language, errors included. */
  lemma {:induction false} StreamRun(es: seq<seq<Item>>, ts: Timestamps)
    requires StreamOk(es)
    ensures var i := Interpret(es, ts);
            var r := Run(Start(ts, StreamBytes(es)));
            r.out == i.out && r.err == i.err && (i.err.None? ==> r.p == Start(i.ts, []))
    decreases es
  {
    hide EntryOk, Run, AddItems, EntryBytes;
    if es == [] {
      RunBlocked(Start(ts, []));
    } else {
      hide Step;
      var rest := StreamBytes(es[1..]);
      EntryRun(Start(ts, StreamBytes(es)), es[0], rest);
      var d := AddItems(Draft([], ts), es[0]);
      if d.Draft? {
        StreamRun(es[1..], d.ts);
      }
    }
  }

  ghost predicate EndsClean(r: RunResult) {
    r.err.None? && r.p.clean && r.p.unread == []
  }

  /** A run that ends at an entry boundary has read the bytes of some list of entries. */
  lemma {:induction false} Sound(p: Parser) returns (es: seq<seq<Item>>)
    requires p.mode.Line? && EndsClean(Run(p))
    ensures StreamOk(es) && StreamBytes(es) == p.unread
    ensures !p.clean ==> es != []
    decreases |p.unread|, 0
  {
    hide Run, ProcessDunder, StartsWith, FromLittleEndian, EntryOk;
    if Step(p).Next? {
      RunNext(p);
      var p1 := Step(p).p;
      var k := IndexOf(p.unread, NEWLINE);
      var text := p.unread[..k];
      assert p.unread == text + [NEWLINE] + p.unread[k + 1..];
      if k == 0 {
        es := SoundEmptyLine(p1);
      } else {
        DunderIsDunder(text, p.ts);
        if p1.mode.Line? {
          es := SoundItem(Text(text), p1);
        } else {
          es := SoundBinary(text, p1);
        }
      }
    } else {
      RunBlocked(p);
      es := [];
    }
  }

  lemma SoundEmptyLine(next: Parser) returns (es: seq<seq<Item>>)
    requires next.mode.Line? && EndsClean(Run(next))
    ensures StreamOk(es) && StreamBytes(es) == [NEWLINE] + next.unread && es != []
    decreases |next.unread|, 1
  {
    hide Run, Step;
    var tail := Sound(next);
    es := [[]] + tail;
    assert es[1..] == tail && EntryBytes([]) == [NEWLINE];
  }

  lemma SoundItem(i: Item, next: Parser) returns (es: seq<seq<Item>>)
    requires next.mode.Line? && !next.clean && EndsClean(Run(next)) && ItemOk(i)
    ensures StreamOk(es) && StreamBytes(es) == ItemBytes(i) + next.unread && es != []
    decreases |next.unread|, 1
  {
    hide Run, Step, ItemOk, ItemBytes;
    var tail := Sound(next);
    var head := [i] + tail[0];
    es := [head] + tail[1..];
    assert head[1..] == tail[0] && es[1..] == tail[1..];
    assert StreamBytes(es) == ItemBytes(i) + (EntryBytes(tail[0]) + StreamBytes(tail[1..]));
  }

  lemma SoundBinary(name: Bytes, p1: Parser) returns (es: seq<seq<Item>>)
    requires p1.mode == DataStart(name) && EndsClean(Run(p1)) && !p1.clean
    requires ItemOk(Binary(name, []))
    ensures StreamOk(es) && StreamBytes(es) == name + [NEWLINE] + p1.unread && es != []
    decreases |p1.unread|, 2
  {
    hide Run, Step, StartsWith, LittleEndian, StreamOk, StreamBytes, BinaryText;
    StepsOn(p1);
    var p2 := Step(p1).p;
    var size := SizeStepInverse(p1);
    var data, p4 := SoundData(name, size, p2);
    es := SoundItem(Binary(name, data), p4);
    BinaryTextSplit(name, data, p4.unread);
  }

  lemma SoundData(name: Bytes, size: nat, p2: Parser) returns (data: Bytes, p4: Parser)
    requires p2.mode == (if size > 0 then Data(name, size) else DataFinish)
    requires EndsClean(Run(p2)) && !p2.clean
    ensures p4.mode.Line? && EndsClean(Run(p4)) && !p4.clean && |p4.unread| < |p2.unread|
    ensures p2.unread == data + ([NEWLINE] + p4.unread) && |data| == size
  {
    hide Run, IndexOf, StepText, FromLittleEndian;
    var p3 := p2;
    data := [];
    if size > 0 {
      StepsOn(p2);
      data, p3 := p2.unread[..size], Step(p2).p;
    }
    StepsOn(p3);
    p4 := Step(p3).p;
    assert p3.unread == [NEWLINE] + p4.unread;
  }

  /** A run that ends clean does not stop at a state that is not clean. */
  lemma StepsOn(p: Parser)
    requires Proper(p) && EndsClean(Run(p)) && !p.clean
    ensures Step(p).Next? && EndsClean(Run(Step(p).p))
    ensures |Step(p).p.unread| < |p.unread|
  {
    hide Step;
    if Step(p).Next? {
      RunNext(p);
    } else {
      RunBlocked(p);
    }
  }

  /** An error-free run stops at an entry boundary exactly on a whole number of entries. */
  lemma WholeEntriesIffEndsClean(ts: Timestamps, s: Bytes)
    ensures EndsClean(Run(Start(ts, s))) <==> WholeEntries(s) && Run(Start(ts, s)).err.None?
  {
    if EndsClean(Run(Start(ts, s))) {
      var es := Sound(Start(ts, s));
    }
    if WholeEntries(s) {
      var es :| StreamOk(es) && StreamBytes(es) == s;
      StreamRun(es, ts);
    }
  }
}
