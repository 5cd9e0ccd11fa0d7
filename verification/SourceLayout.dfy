/**
 How a remote source lays out a partly parsed stream in its buffer.

 A snapshot holds the fields of a RemoteSource together with the bytes and the address of
 its buffer. `View` reads a snapshot as a state of the pure parser: the fields spelled by
 the iovecs, the pending name and size, and the unread bytes. `Valid` is the invariant that
 makes this reading stable under appends, reallocation and the in-place rewriting.
 */
module SourceLayout {
  import opened Bytes
  import opened ExportParser

  const LINE_CHUNK: nat := 8 * 1024

  datatype SourceState = STATE_LINE | STATE_DATA_START | STATE_DATA | STATE_DATA_FINISH | STATE_EOF

  /** struct iovec: an address and a length. */
  datatype IoVec = IoVec(base: int, len: nat)

  datatype Snapshot = Snapshot(
    mem: Bytes, addr: int, offset: nat, scanned: nat, filled: nat, fieldLen: nat, dataSize: nat,
    iov: seq<IoVec>, state: SourceState, ts: Timestamps, clean: bool)

  /** The bytes that one iovec points at, in a buffer placed at addr. */
  function Spelled(mem: Bytes, addr: int, v: IoVec): Bytes {
    if addr <= v.base && v.base - addr + v.len <= |mem| then mem[v.base - addr..v.base - addr + v.len]
    else []
  }

  function Fields(mem: Bytes, addr: int, iov: seq<IoVec>): (fs: seq<Bytes>)
    ensures |fs| == |iov|
  {
    if iov == [] then []
    else Fields(mem, addr, iov[..|iov| - 1]) + [Spelled(mem, addr, iov[|iov| - 1])]
  }

  /** iovecs lie one after the other below the buffer position `limit`. */
  ghost predicate Spans(iov: seq<IoVec>, addr: int, limit: int) {
    && (forall k :: 0 <= k < |iov| ==> addr <= iov[k].base && iov[k].base + iov[k].len <= addr + limit)
    && (forall i, j :: 0 <= i < j < |iov| ==> iov[i].base + iov[i].len <= iov[j].base)
  }

  function Rebased(iov: seq<IoVec>, from: int, to: int): (r: seq<IoVec>)
    ensures |r| == |iov|
    ensures forall k :: 0 <= k < |iov| ==> r[k] == IoVec(iov[k].base - from + to, iov[k].len)
  {
    seq(|iov|, k requires 0 <= k < |iov| => IoVec(iov[k].base - from + to, iov[k].len))
  }

  /** Bytes in front of offset that belong to a binary field still being read. */
  function Pending(s: Snapshot): nat {
    match s.state
    case STATE_DATA_START => s.fieldLen
    case STATE_DATA => s.fieldLen + 8
    case _ => 0
  }

  ghost predicate Valid(s: Snapshot) {
    && s.offset <= s.filled <= |s.mem|
    && s.scanned <= s.filled
    && (s.offset <= s.scanned ==> NEWLINE !in s.mem[s.offset..s.scanned])
    && s.state != STATE_EOF
    && (s.state != STATE_LINE ==> s.scanned <= s.offset && !s.clean)
    && Pending(s) <= s.offset
    && Spans(s.iov, s.addr, s.offset - Pending(s))
    && (s.state == STATE_LINE || s.state == STATE_DATA_START ==> s.dataSize == 0)
    && (s.state == STATE_DATA ==> 0 < s.dataSize <= DATA_SIZE_MAX)
    && (s.state == STATE_DATA_START || s.state == STATE_DATA ==>
          s.fieldLen > 0 && s.mem[s.offset - Pending(s) + s.fieldLen - 1] == EQUALS)
    && (s.filled == 0 <==> s.clean && s.offset == s.filled)
  }

  /** The name of the pending binary field, without the '=' that replaced its newline. */
  function PendingName(s: Snapshot): Bytes
    requires 0 < s.fieldLen <= Pending(s) <= s.offset <= |s.mem|
  {
    s.mem[s.offset - Pending(s)..s.offset - Pending(s) + s.fieldLen - 1]
  }

  ghost function View(s: Snapshot): (p: Parser)
    requires Valid(s)
    ensures Proper(p) && |p.unread| == s.filled - s.offset
  {
    var mode := match s.state
      case STATE_DATA_START => DataStart(PendingName(s))
      case STATE_DATA => Data(PendingName(s), s.dataSize)
      case STATE_DATA_FINISH => DataFinish
      case _ => Line;
    Parser(mode, Fields(s.mem, s.addr, s.iov), s.ts, s.clean, s.mem[s.offset..s.filled])
  }

  // ---- the iovecs keep spelling their fields ---------------------------------------

  lemma {:induction false} FieldsFrame(mem: Bytes, mem': Bytes, addr: int, iov: seq<IoVec>, limit: nat)
    requires limit <= |mem| && limit <= |mem'| && mem[..limit] == mem'[..limit]
    requires Spans(iov, addr, limit)
    ensures Fields(mem, addr, iov) == Fields(mem', addr, iov)
  {
    if iov != [] {
      FieldsFrame(mem, mem', addr, iov[..|iov| - 1], limit);
      var v := iov[|iov| - 1];
      SliceFrame(mem, mem', limit, v.base - addr, v.base - addr + v.len);
    }
  }

  lemma {:induction false} FieldsRebase(mem: Bytes, from: int, to: int, iov: seq<IoVec>)
    ensures Fields(mem, to, Rebased(iov, from, to)) == Fields(mem, from, iov)
  {
    if iov != [] {
      FieldsRebase(mem, from, to, iov[..|iov| - 1]);
      var r := Rebased(iov, from, to);
      assert r[..|r| - 1] == Rebased(iov[..|iov| - 1], from, to);
    }
  }

  lemma FieldsPut(mem: Bytes, addr: int, iov: seq<IoVec>, v: IoVec)
    ensures Fields(mem, addr, iov + [v]) == Fields(mem, addr, iov) + [Spelled(mem, addr, v)]
  {
    assert (iov + [v])[..|iov|] == iov;
  }

  lemma SpansPut(iov: seq<IoVec>, addr: int, limit: int, v: IoVec, limit': int)
    requires Spans(iov, addr, limit) && addr <= addr + limit <= v.base && v.base + v.len <= addr + limit'
    ensures Spans(iov + [v], addr, limit')
  {
  }

  lemma SpansWiden(iov: seq<IoVec>, addr: int, limit: int, limit': int)
    requires Spans(iov, addr, limit) && limit <= limit'
    ensures Spans(iov, addr, limit')
  {
  }

  lemma SpansRebase(iov: seq<IoVec>, from: int, to: int, limit: int)
    requires Spans(iov, from, limit)
    ensures Spans(Rebased(iov, from, to), to, limit)
  {
  }

  lemma InBuffer(s: Snapshot)
    requires Valid(s)
    ensures s.offset <= s.filled <= |s.mem|
  {
  }

  // ---- effects of the operations on snapshots --------------------------------------

  /** Only the bytes below `filled` matter. */
  lemma SameBytesSameView(s: Snapshot, t: Snapshot)
    requires Valid(s) && s.filled <= |t.mem| && t.mem[..s.filled] == s.mem[..s.filled]
    requires t == s.(mem := t.mem)
    ensures Valid(t) && View(t) == View(s)
  {
    hide Fields, Spans;
    SpansWiden(s.iov, s.addr, s.offset - Pending(s), s.filled);
    FieldsFrame(s.mem, t.mem, s.addr, s.iov, s.filled);
    SliceFrame(s.mem, t.mem, s.filled, s.offset, s.filled);
    if s.offset <= s.scanned {
      SliceFrame(s.mem, t.mem, s.filled, s.offset, s.scanned);
    }
    if 0 < s.fieldLen <= Pending(s) {
      var lo := s.offset - Pending(s);
      SliceFrame(s.mem, t.mem, s.filled, lo, lo + s.fieldLen - 1);
      assert t.mem[..s.filled][lo + s.fieldLen - 1] == s.mem[..s.filled][lo + s.fieldLen - 1];
    }
  }

  /** Moving the buffer changes nothing that is read, provided the iovecs are rebased. */
  lemma RebaseKeepsView(s: Snapshot, addr: int)
    requires Valid(s)
    ensures var t := s.(addr := addr, iov := Rebased(s.iov, s.addr, addr)); Valid(t) && View(t) == View(s)
  {
    hide Fields, Spans, Rebased;
    FieldsRebase(s.mem, s.addr, addr, s.iov);
    SpansRebase(s.iov, s.addr, addr, s.offset - Pending(s));
  }

  lemma AppendFeeds(s: Snapshot, data: Bytes)
    requires Valid(s) && s.filled + |data| <= |s.mem| && s.mem[s.filled..s.filled + |data|] == data
    ensures var t := s.(filled := s.filled + |data|); Valid(t) && View(t) == Feed(View(s), data)
  {
    hide Fields, Spans;
    var t := s.(filled := s.filled + |data|);
    assert t.mem[t.offset..t.filled] == s.mem[s.offset..s.filled] + data;
  }

  /** GREEDY_REALLOC: the new allocation for a request of `need` bytes. */
  function GreedySize(size: nat, need: nat): (r: nat)
    ensures r >= need && r >= size
  {
    if size >= need then size else if 2 * need > 64 then 2 * need else 64
  }

  /** A buffer that is large enough stays; otherwise it gets twice what is needed, and never less than 64. */
  lemma GreedySizeIs(size: nat, need: nat)
    ensures size >= need ==> GreedySize(size, need) == size
    ensures size < need ==> GreedySize(size, need) >= 64 && GreedySize(size, need) >= 2 * need
    ensures size < need ==> GreedySize(size, need) == 64 || GreedySize(size, need) == 2 * need
  {
  }

  /** realloc_buffer: the bytes are kept, the buffer may move, the iovecs move along. */
  ghost predicate Grown(s: Snapshot, t: Snapshot, need: nat) {
    && |t.mem| == GreedySize(|s.mem|, need) && t.mem[..|s.mem|] == s.mem
    && t == s.(mem := t.mem, addr := t.addr, iov := Rebased(s.iov, s.addr, t.addr))
  }

  lemma GrownView(s: Snapshot, t: Snapshot, need: nat)
    requires Valid(s) && Grown(s, t, need)
    ensures Valid(t) && View(t) == View(s)
  {
    hide Fields, Spans, Rebased;
    var u := s.(mem := t.mem);
    SliceFrame(t.mem, s.mem, |s.mem|, 0, s.filled);
    SameBytesSameView(s, u);
    RebaseKeepsView(u, t.addr);
  }

  /** push_data behind realloc_buffer: memcpy to the end. */
  function Appended(s: Snapshot, data: Bytes): Snapshot
    requires s.filled + |data| <= |s.mem|
  {
    s.(mem := s.mem[..s.filled] + data + s.mem[s.filled + |data|..], filled := s.filled + |data|)
  }

  lemma AppendedView(s: Snapshot, data: Bytes)
    requires Valid(s) && s.filled + |data| <= |s.mem|
    ensures Valid(Appended(s, data)) && View(Appended(s, data)) == Feed(View(s), data)
  {
    hide Fields, Spans;
    var t := s.(mem := Appended(s, data).mem);
    assert t.mem[..s.filled] == s.mem[..s.filled];
    SameBytesSameView(s, t);
    AppendFeeds(t, data);
  }

  /** Scanning up to the end without finding a newline. */
  lemma ScannedAll(s: Snapshot)
    requires Valid(s) && s.state == STATE_LINE && NEWLINE !in s.mem[s.offset..s.filled]
    ensures var t := s.(scanned := s.filled); Valid(t) && View(t) == View(s)
  {
  }

  /** The position of the next newline in the buffer is that of the unread bytes. */
  lemma NewlineAt(s: Snapshot, c: nat)
    requires Valid(s) && s.offset <= c < s.filled && s.mem[c] == NEWLINE && NEWLINE !in s.mem[s.offset..c]
    ensures IndexOf(View(s).unread, NEWLINE) == c - s.offset
    ensures View(s).unread[..c - s.offset] == s.mem[s.offset..c]
    ensures View(s).unread[c - s.offset + 1..] == s.mem[c + 1..s.filled]
  {
    hide Fields, Spans, IndexOf;
    SubSlice(s.mem, s.offset, s.filled, 0, c - s.offset);
    SubSlice(s.mem, s.offset, s.filled, c - s.offset + 1, s.filled - s.offset);
    IndexOfUnique(View(s).unread, NEWLINE, c - s.offset);
  }

  /** Bytes rewritten below the new offset and above the old one disturb no field and no unread byte. */
  lemma Consumed(s: Snapshot, mem: Bytes, offset: nat)
    requires Valid(s) && Pending(s) == 0 && s.offset < offset <= s.filled && |mem| == |s.mem|
    requires mem[..s.offset] == s.mem[..s.offset] && mem[offset..] == s.mem[offset..]
    ensures Fields(mem, s.addr, s.iov) == Fields(s.mem, s.addr, s.iov)
    ensures mem[offset..s.filled] == s.mem[offset..s.filled]
    ensures s.offset <= s.scanned && s.mem[offset - 1] == NEWLINE ==> s.scanned < offset
  {
    FieldsFrame(s.mem, mem, s.addr, s.iov, s.offset);
    SuffixFrame(mem, s.mem, offset, offset, s.filled);
    if offset <= s.scanned {
      assert s.mem[offset - 1] == s.mem[s.offset..s.scanned][offset - 1 - s.offset];
    }
  }

  // ---- the branches of process_data, each seen as one step of the parser -----------

  /** Return values of process_data: negative errors, 0 to go on, 1 for a complete entry. */
  datatype Ret = WouldBlock | Error(error: Errno) | Continue | EntryReady

  /** What a passive source answers when no complete item is there yet. */
  function BlockedRet(s: Snapshot): Ret {
    if s.state == STATE_LINE && s.filled >= DATA_SIZE_MAX then Error(ENOBUFS) else WouldBlock
  }

  /** From s, process_data returned r and left t behind, as the parser does. A complete entry
      is still in the iovecs, the empty line is consumed. */
  ghost predicate Follows(s: Snapshot, r: Ret, t: Snapshot)
    requires Valid(s)
  {
    match Step(View(s))
    case Blocked => r == BlockedRet(s) && Valid(t) && View(t) == View(s)
    case Failed(e) => r == Error(e)
    case Next(p, out) =>
      || (r == Continue && !EndsEntry(View(s)) && Valid(t) && View(t) == p && out == [])
      || (r == EntryReady && EndsEntry(View(s)) && Valid(t) && t.state == STATE_LINE && t.offset == s.offset + 1
          && Step(View(s)) == EndEntry(View(s), View(t).unread)
          && View(t) == View(s).(clean := false, unread := View(t).unread))
  }

  /** The scan may start where the last one stopped. */
  function ScanStart(s: Snapshot): nat {
    if s.scanned > s.offset then s.scanned else s.offset
  }

  lemma ScanFromStart(s: Snapshot, c: nat)
    requires Valid(s) && ScanStart(s) <= c <= s.filled && NEWLINE !in s.mem[ScanStart(s)..c]
    ensures NEWLINE !in s.mem[s.offset..c]
  {
    hide Spans;
    assert s.mem[s.offset..c] == s.mem[s.offset..ScanStart(s)] + s.mem[ScanStart(s)..c];
  }

  lemma NoLine(s: Snapshot)
    requires Valid(s) && s.state == STATE_LINE && NEWLINE !in s.mem[ScanStart(s)..s.filled]
    ensures Follows(s, BlockedRet(s), s.(scanned := s.filled))
  {
    hide StepText, Fields, Spans;
    ScanFromStart(s, s.filled);
    ScannedAll(s);
  }

  function BlankLine(s: Snapshot): Snapshot {
    s.(offset := s.offset + 1, clean := false)
  }

  lemma BlankLineStep(s: Snapshot)
    requires Valid(s) && s.state == STATE_LINE && s.offset < s.filled && s.mem[s.offset] == NEWLINE
    ensures Follows(s, EntryReady, BlankLine(s))
  {
    hide StepText, Fields;
    NewlineAt(s, s.offset);
    Consumed(s, s.mem, s.offset + 1);
  }

  ghost predicate LineAt(s: Snapshot, c: nat) {
    && Valid(s) && s.state == STATE_LINE && s.offset < c < s.filled
    && s.mem[c] == NEWLINE && NEWLINE !in s.mem[s.offset..c]
  }

  lemma LineIsText(s: Snapshot, c: nat)
    requires LineAt(s, c)
    ensures Step(View(s)) == StepText(View(s), s.mem[s.offset..c], s.mem[c + 1..s.filled])
  {
    hide StepText, Fields;
    NewlineAt(s, c);
  }

  function MetadataLine(s: Snapshot, b: Byte, c: nat, ts: Timestamps): Snapshot
    requires c < |s.mem|
  {
    s.(mem := s.mem[c := b], offset := c + 1, ts := ts, clean := false)
  }

  lemma MetadataLineStep(s: Snapshot, b: Byte, c: nat, ts: Timestamps)
    requires LineAt(s, c) && ProcessDunder(s.mem[s.offset..c], s.ts) == Metadata(ts)
    ensures Follows(s, Continue, MetadataLine(s, b, c, ts))
  {
    hide ProcessDunder, Fields, Step;
    LineIsText(s, c);
    Consumed(s, s.mem[c := b], c + 1);
  }

  function TextLine(s: Snapshot, c: nat): Snapshot
    requires s.offset <= c
  {
    s.(offset := c + 1, iov := s.iov + [IoVec(s.addr + s.offset, c - s.offset)], clean := false)
  }

  lemma TextLineStep(s: Snapshot, c: nat)
    requires LineAt(s, c) && ProcessDunder(s.mem[s.offset..c], s.ts).NoDunder? && EQUALS in s.mem[s.offset..c]
    requires |s.iov| < ENTRY_FIELD_COUNT_MAX
    ensures Follows(s, Continue, TextLine(s, c))
  {
    hide ProcessDunder, Fields, Step, Spans;
    LineIsText(s, c);
    Consumed(s, s.mem, c + 1);
    var v := IoVec(s.addr + s.offset, c - s.offset);
    SpansPut(s.iov, s.addr, s.offset, v, c + 1);
    FieldsPut(s.mem, s.addr, s.iov, v);
  }

  function NameLine(s: Snapshot, c: nat): Snapshot
    requires s.offset <= c < |s.mem|
  {
    s.(mem := s.mem[c := EQUALS], offset := c + 1, fieldLen := c + 1 - s.offset, state := STATE_DATA_START,
       clean := false)
  }

  lemma NameLineStep(s: Snapshot, c: nat)
    requires LineAt(s, c) && ProcessDunder(s.mem[s.offset..c], s.ts).NoDunder? && EQUALS !in s.mem[s.offset..c]
    ensures Follows(s, Continue, NameLine(s, c))
  {
    hide ProcessDunder, Fields, Step;
    LineIsText(s, c);
    Consumed(s, s.mem[c := EQUALS], c + 1);
    assert PendingName(NameLine(s, c)) == s.mem[s.offset..c];
  }

  /** process_dunder terminates the line with NUL before it reads a number. */
  predicate Stamps(text: Bytes) {
    !StartsWith(text, CURSOR) && (StartsWith(text, REALTIME) || StartsWith(text, MONOTONIC))
  }

  /** What process_data does with the line mem[offset..c]; after an error only the code counts. */
  function TextEffect(s: Snapshot, c: nat): (Ret, Snapshot)
    requires s.offset < c < |s.mem|
  {
    var text := s.mem[s.offset..c];
    match ProcessDunder(text, s.ts)
    case BadNumber(e) => (Error(e), s)
    case Metadata(ts) => (Continue, MetadataLine(s, if Stamps(text) then 0 else s.mem[c], c, ts))
    case NoDunder =>
      if EQUALS !in text then (Continue, NameLine(s, c))
      else if |s.iov| < ENTRY_FIELD_COUNT_MAX then (Continue, TextLine(s, c))
      else (Error(E2BIG), s)
  }

  /** r and t are the given effect. */
  predicate Matches(effect: (Ret, Snapshot), r: Ret, t: Snapshot) {
    r == effect.0 && (r.Error? || t == effect.1)
  }

  lemma TextEffectFollows(s: Snapshot, c: nat, r: Ret, t: Snapshot)
    requires LineAt(s, c) && Matches(TextEffect(s, c), r, t)
    ensures Follows(s, r, t)
  {
    hide ProcessDunder, Step, Fields, Spans;
    LineIsText(s, c);
    if r == Continue {
      match ProcessDunder(s.mem[s.offset..c], s.ts)
      case Metadata(ts) => MetadataLineStep(s, t.mem[c], c, ts);
      case NoDunder =>
        if EQUALS in s.mem[s.offset..c] {
          TextLineStep(s, c);
        } else {
          NameLineStep(s, c);
        }
    }
  }

  function SizeWord(s: Snapshot, size: nat): Snapshot {
    s.(offset := s.offset + 8, dataSize := size, state := if size > 0 then STATE_DATA else STATE_DATA_FINISH)
  }

  function SizeEffect(s: Snapshot): (Ret, Snapshot)
    requires s.offset <= s.filled <= |s.mem|
  {
    if s.filled - s.offset < 8 then (WouldBlock, s)
    else
      var size := FromLittleEndian(s.mem[s.offset..s.offset + 8]);
      if size > DATA_SIZE_MAX then (Error(EINVAL), s) else (Continue, SizeWord(s, size))
  }

  lemma SizeWordView(s: Snapshot, size: nat)
    requires Valid(s) && s.state == STATE_DATA_START && s.filled - s.offset >= 8 && size <= DATA_SIZE_MAX
    ensures var t := SizeWord(s, size);
            Valid(t) && View(t) == View(s).(mode := if size > 0 then Data(View(s).mode.name, size) else DataFinish,
                                            unread := View(s).unread[8..])
  {
    hide Fields, Spans;
    SubSlice(s.mem, s.offset, s.filled, 8, s.filled - s.offset);
    SpansWiden(s.iov, s.addr, s.offset - s.fieldLen, s.offset + 8);
  }

  lemma SizeEffectFollows(s: Snapshot, r: Ret, t: Snapshot)
    requires Valid(s) && s.state == STATE_DATA_START && Matches(SizeEffect(s), r, t)
    ensures Follows(s, r, t)
  {
    hide StepText, IndexOf, FromLittleEndian, Fields, Spans;
    if s.filled - s.offset >= 8 {
      SubSlice(s.mem, s.offset, s.filled, 0, 8);
      if r == Continue {
        SizeWordView(s, t.dataSize);
      }
    }
  }

  /** The memory after memmove(to, from, n). */
  function Moved(mem: Bytes, to: nat, from: nat, n: nat): (r: Bytes)
    requires from + n <= |mem| && to + n <= |mem|
    ensures |r| == |mem|
  {
    mem[..to] + mem[from..from + n] + mem[to + n..]
  }

  /** memmove slides "NAME=" over the length word, so that name and data become adjacent. */
  function DataBlock(s: Snapshot): Snapshot
    requires s.fieldLen + 8 <= s.offset <= |s.mem|
  {
    s.(mem := Moved(s.mem, s.offset - s.fieldLen, s.offset - s.fieldLen - 8, s.fieldLen),
       offset := s.offset + s.dataSize,
       iov := s.iov + [IoVec(s.addr + s.offset - s.fieldLen, s.fieldLen + s.dataSize)],
       state := STATE_DATA_FINISH)
  }

  lemma SlidNameSpells(s: Snapshot)
    requires Valid(s) && s.state == STATE_DATA && s.offset + s.dataSize <= s.filled
    ensures DataBlock(s).mem[s.offset - s.fieldLen..s.offset + s.dataSize]
         == PendingName(s) + [EQUALS] + s.mem[s.offset..s.offset + s.dataSize]
    ensures DataBlock(s).mem[s.offset..] == s.mem[s.offset..]
  {
    hide Fields, Spans;
    var lo, mem := s.offset - 8 - s.fieldLen, DataBlock(s).mem;
    assert s.mem[lo..lo + s.fieldLen] == PendingName(s) + [EQUALS];
    assert mem[lo + 8..s.offset] == s.mem[lo..lo + s.fieldLen];
    assert mem[s.offset..s.offset + s.dataSize] == s.mem[s.offset..s.offset + s.dataSize];
    assert mem[lo + 8..s.offset + s.dataSize] == mem[lo + 8..s.offset] + mem[s.offset..s.offset + s.dataSize];
  }

  function DataEffect(s: Snapshot): (Ret, Snapshot)
    requires s.fieldLen + 8 <= s.offset <= |s.mem|
  {
    if s.filled - s.offset < s.dataSize then (WouldBlock, s)
    else if |s.iov| < ENTRY_FIELD_COUNT_MAX then (Continue, DataBlock(s))
    else (Error(E2BIG), s)
  }

  lemma DataBlockStep(s: Snapshot)
    requires Valid(s) && s.state == STATE_DATA && s.dataSize <= s.filled - s.offset
    requires |s.iov| < ENTRY_FIELD_COUNT_MAX
    ensures Follows(s, Continue, DataBlock(s))
  {
    hide StepText, IndexOf, FromLittleEndian, Fields, Spans;
    var t := DataBlock(s);
    var lo := s.offset - 8 - s.fieldLen;
    var v := IoVec(s.addr + s.offset - s.fieldLen, s.fieldLen + s.dataSize);
    FieldsFrame(s.mem, t.mem, s.addr, s.iov, lo);
    SpansPut(s.iov, s.addr, lo, v, t.offset);
    FieldsPut(t.mem, s.addr, s.iov, v);
    SlidNameSpells(s);
    SubSlice(s.mem, s.offset, s.filled, 0, s.dataSize);
    SubSlice(s.mem, s.offset, s.filled, s.dataSize, s.filled - s.offset);
    SuffixFrame(s.mem, t.mem, s.offset, t.offset, t.filled);
  }

  lemma DataEffectFollows(s: Snapshot, r: Ret, t: Snapshot)
    requires Valid(s) && s.state == STATE_DATA && Matches(DataEffect(s), r, t)
    ensures Follows(s, r, t)
  {
    hide StepText, IndexOf, FromLittleEndian, Fields, Spans, Moved;
    if r == Continue {
      DataBlockStep(s);
    }
  }

  function ClosingNewline(s: Snapshot): Snapshot {
    s.(offset := s.offset + 1, dataSize := 0, state := STATE_LINE)
  }

  function ClosingEffect(s: Snapshot): (Ret, Snapshot)
    requires s.offset <= s.filled <= |s.mem|
  {
    if s.offset == s.filled then (WouldBlock, s)
    else if s.mem[s.offset] != NEWLINE then (Error(EINVAL), s)
    else (Continue, ClosingNewline(s))
  }

  lemma ClosingEffectFollows(s: Snapshot, r: Ret, t: Snapshot)
    requires Valid(s) && s.state == STATE_DATA_FINISH && Matches(ClosingEffect(s), r, t)
    ensures Follows(s, r, t)
  {
    hide StepText, IndexOf, FromLittleEndian, Fields;
    if s.offset < s.filled {
      SubSlice(s.mem, s.offset, s.filled, 1, s.filled - s.offset);
    }
  }

  /** iovw_free_contents. */
  lemma DropFields(s: Snapshot)
    requires Valid(s) && Pending(s) == 0
    ensures Valid(s.(iov := [])) && View(s.(iov := [])) == View(s).(fields := [])
  {
    hide Fields;
    assert Fields(s.mem, s.addr, []) == [];
  }

  lemma SliceFrom(a: Bytes, b: Bytes, lo: nat, mid: nat, hi: nat)
    requires lo <= mid <= hi <= |a| && hi <= |b| && a[lo..hi] == b[lo..hi]
    ensures a[lo..mid] == b[lo..mid]
  {
    SubSlice(a, lo, hi, 0, mid - lo);
    SubSlice(b, lo, hi, 0, mid - lo);
  }

  /** Between entries only the unread bytes count, wherever they lie. */
  lemma FreshView(s: Snapshot, t: Snapshot)
    requires Valid(s) && s.state == STATE_LINE && s.iov == []
    requires t == s.(mem := t.mem, addr := t.addr, offset := t.offset, scanned := t.scanned, filled := t.filled,
                     clean := true)
    requires t.offset <= t.filled <= |t.mem| && t.mem[t.offset..t.filled] == s.mem[s.offset..s.filled]
    requires t.scanned == 0 || (t.scanned == s.scanned && t.offset == s.offset && t.filled == s.filled)
    requires t.offset == t.filled <==> t.filled == 0
    ensures Valid(t) && View(t) == Start(s.ts, View(s).unread)
  {
    if t.offset <= t.scanned && t.scanned > 0 {
      SliceFrom(s.mem, t.mem, t.offset, t.scanned, t.filled);
    }
  }

  // ---- buffer sizes and the end of an entry ----------------------------------------

  /** The size the shrink loop settles on; it looks at the unread bytes only. */
  function ShrinkTarget(size: nat, remain: nat): (target: nat)
    ensures target <= size
    ensures remain <= size ==> remain <= target
    ensures size <= 16 * LINE_CHUNK ==> target == size
  {
    if size > 16 * LINE_CHUNK && remain < size / 2 then ShrinkTarget(size / 2, remain) else size
  }

  datatype Room = Room(size: nat, offset: nat, filled: nat)

  function RoomOf(s: Snapshot): Room {
    Room(|s.mem|, s.offset, s.filled)
  }

  predicate Compacts(r: Room) {
    r.offset > r.size - r.filled && r.offset > r.filled - r.offset
  }

  /** Buffer bookkeeping at the end of an entry: reset or compact, then shrink. */
  function AfterEntry(r: Room): Room
    requires r.offset <= r.filled <= r.size
  {
    var remain := r.filled - r.offset;
    var size := ShrinkTarget(r.size, remain);
    if remain == 0 then Room(size, 0, 0)
    else if Compacts(r) then Room(size, 0, remain)
    else Room(size, r.offset, r.filled)
  }

  lemma AfterEntrySteps(r: Room)
    requires r.offset <= r.filled <= r.size
    ensures AfterEntry(r).offset <= AfterEntry(r).filled <= r.size
    ensures AfterEntry(r).filled - AfterEntry(r).offset == r.filled - r.offset
    ensures AfterEntry(r).size == ShrinkTarget(r.size, r.filled - r.offset)
  {
  }

  /** size / 2^k. */
  function Halved(size: nat, k: nat): (r: nat)
    ensures r <= size
  {
    if k == 0 then size else Halved(size / 2, k - 1)
  }

  /** The shrink loop takes its step k + 1, below the filled bytes. */
  predicate StepsBelow(size: nat, remain: nat, filled: nat, k: nat) {
    Halved(size, k) > 16 * LINE_CHUNK && remain < Halved(size, k + 1) < filled
  }

  ghost predicate ShrinksBelow(size: nat, remain: nat, filled: nat) {
    exists k: nat :: StepsBelow(size, remain, filled, k)
  }

  /** The loop settles below the filled bytes exactly when one of its guards admits a step
      there: the guards look at the unread bytes only. */
  lemma {:induction false} ShrinkTargetBelowIff(size: nat, remain: nat, filled: nat)
    requires remain <= filled <= size
    ensures ShrinkTarget(size, remain) < filled <==> ShrinksBelow(size, remain, filled)
  {
    if size > 16 * LINE_CHUNK && remain < size / 2 {
      if size / 2 < filled {
        assert Halved(size, 1) == Halved(size / 2, 0);
        assert StepsBelow(size, remain, filled, 0);
      } else {
        ShrinkTargetBelowIff(size / 2, remain, filled);
        if k: nat :| StepsBelow(size / 2, remain, filled, k) {
          assert StepsBelow(size, remain, filled, k + 1);
        }
        if k: nat :| StepsBelow(size, remain, filled, k) {
          assert k > 0 ==> StepsBelow(size / 2, remain, filled, k - 1);
          assert k == 0 ==> Halved(size, 1) == Halved(size / 2, 0);
        }
      }
    }
  }

  /** At the end of an entry the filled bytes overhang the buffer that the loop leaves. */
  ghost predicate Overhangs(r: Room)
    requires r.offset <= r.filled
  {
    r.offset < r.filled && !Compacts(r) && ShrinksBelow(r.size, r.filled - r.offset, r.filled)
  }

  /** The buffer still covers its bytes unless it is neither reset nor compacted and the loop
      steps below them; in particular it does in every buffer of at most 16 line chunks. */
  lemma ShrinkCutsIff(r: Room)
    requires r.offset <= r.filled <= r.size
    ensures AfterEntry(r).filled > AfterEntry(r).size <==> Overhangs(r)
    ensures r.size <= 16 * LINE_CHUNK ==> !Overhangs(r)
  {
    AfterEntrySteps(r);
    ShrinkTargetBelowIff(r.size, r.filled - r.offset, r.filled);
  }

  /** Whether process_source leaves t and hands `out` to the writer, as one step of the parser
      from s; after a complete entry the buffer is usable unless the shrink cut it. */
  ghost predicate Processed(s: Snapshot, r: Ret, t: Snapshot, out: seq<Entry>)
    requires Valid(s)
  {
    match Step(View(s))
    case Blocked => r == BlockedRet(s) && Valid(t) && View(t) == View(s) && RoomOf(t) == RoomOf(s) && out == []
    case Failed(e) => r == Error(e) && out == []
    case Next(p, o) =>
      && out == o
      && r == (if EndsEntry(View(s)) then EntryReady else Continue)
      && (t.filled <= |t.mem| ==> Valid(t) && View(t) == p)
      && RoomFollows(s, r, t)
  }

  ghost predicate RoomFollows(s: Snapshot, r: Ret, t: Snapshot) {
    if r == EntryReady then
      s.offset + 1 <= s.filled <= |s.mem| && RoomOf(t) == AfterEntry(RoomOf(s).(offset := s.offset + 1))
    else t.filled == s.filled <= |t.mem| == |s.mem|
  }

  /** The buffer after an entry, seen from the snapshot u that process_data left. */
  ghost predicate Finished(u: Snapshot, t: Snapshot) {
    && u.offset <= u.filled <= |u.mem|
    && RoomOf(t) == AfterEntry(RoomOf(u))
    && t == u.(mem := t.mem, addr := t.addr, iov := [], offset := t.offset, scanned := t.scanned, filled := t.filled,
               clean := true)
    && (t.filled <= |t.mem| && t.offset <= t.filled ==> t.mem[t.offset..t.filled] == u.mem[u.offset..u.filled])
    && (t.scanned == 0 || (t.scanned == u.scanned && t.offset == u.offset))
  }

  lemma FinishedView(u: Snapshot, t: Snapshot)
    requires Valid(u) && u.state == STATE_LINE && Finished(u, t) && t.filled <= |t.mem|
    ensures Valid(t) && View(t) == Start(u.ts, View(u).unread)
  {
    hide Fields, Spans;
    DropFields(u);
    FreshView(u.(iov := []), t);
  }

  lemma EntryReadyInBuffer(s: Snapshot, u: Snapshot)
    requires Valid(s) && Follows(s, EntryReady, u)
    ensures u.offset <= u.filled <= |u.mem|
  {
    hide Step, View, Spans;
  }

  /** A complete entry: written unless it has no fields, and the buffer finished. */
  lemma EntryProcessed(s: Snapshot, u: Snapshot, t: Snapshot)
    requires Valid(s) && Follows(s, EntryReady, u) && Finished(u, t) && |u.mem| == |s.mem| && u.filled == s.filled
    ensures Valid(u)
    ensures Processed(s, EntryReady, t,
                      if u.iov == [] then [] else [Entry(u.ts, Fields(u.mem, u.addr, u.iov))])
  {
    assert View(u).ts == u.ts && View(u).fields == Fields(u.mem, u.addr, u.iov);
    hide Step, Fields, Spans;
    if t.filled <= |t.mem| {
      FinishedView(u, t);
    }
  }

  lemma OtherProcessed(s: Snapshot, r: Ret, t: Snapshot)
    requires Valid(s) && Follows(s, r, t) && r != EntryReady && |t.mem| == |s.mem| && t.filled == s.filled
    ensures Processed(s, r, t, [])
  {
    hide Step, Fields, Spans;
    if Step(View(s)).Blocked? {
      assert |View(t).unread| == |View(s).unread|;
    }
  }
}
