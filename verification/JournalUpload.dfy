/**
 The sending side, journal-upload: a serializer that can stop at almost any byte when the
 output buffer is full and continue in the next callback.
 */
module JournalUpload {
  import opened Bytes
  import opened Numbers
  import opened ExportParser

  /** What sd-journal reports about one entry. */
  datatype JournalEntry = JournalEntry(cursor: Bytes, realtime: nat, monotonic: nat, bootId: Bytes, fields: seq<Bytes>)

  datatype EntryState =
    | ENTRY_CURSOR
    | ENTRY_REALTIME
    | ENTRY_MONOTONIC
    | ENTRY_BOOT_ID
    | ENTRY_NEW_FIELD
    | ENTRY_TEXT_FIELD
    | ENTRY_BINARY_FIELD_START
    | ENTRY_BINARY_FIELD_SIZE
    | ENTRY_BINARY_FIELD
    | ENTRY_OUTRO
    | ENTRY_DONE

  // ---- the canonical text of an entry ----------------------------------------------

  function CursorLine(e: JournalEntry): Bytes { CURSOR + e.cursor + [NEWLINE] }

  function RealtimeLine(e: JournalEntry): Bytes { REALTIME + Decimal(e.realtime) + [NEWLINE] }

  function MonotonicLine(e: JournalEntry): Bytes { MONOTONIC + Decimal(e.monotonic) + [NEWLINE] }

  function BootLine(e: JournalEntry): Bytes { BOOT_ID + e.bootId + [NEWLINE] }

  /** A field that has to be sent as binary needs a non-empty label in front of its '='. */
  predicate HasLabel(field: Bytes) {
    0 < IndexOf(field, EQUALS) < |field|
  }

  function BinaryBytes(field: Bytes): Bytes
    requires HasLabel(field)
  {
    var k := IndexOf(field, EQUALS);
    BinaryText(field[..k], field[k + 1..])
  }

  /** printable stands for utf8_is_printable_newline(data, length, false). */
  function FieldBytes(printable: Bytes -> bool, field: Bytes): Bytes {
    if printable(field) then field + [NEWLINE]
    else if HasLabel(field) then BinaryBytes(field)
    else []
  }

  function FieldsBytes(printable: Bytes -> bool, fields: seq<Bytes>): Bytes {
    if fields == [] then [NEWLINE] else FieldBytes(printable, fields[0]) + FieldsBytes(printable, fields[1..])
  }

  function EntryText(printable: Bytes -> bool, e: JournalEntry): Bytes {
    CursorLine(e) + (RealtimeLine(e) + (MonotonicLine(e) + (BootLine(e) + FieldsBytes(printable, e.fields))))
  }

  function JournalText(printable: Bytes -> bool, es: seq<JournalEntry>): Bytes {
    if es == [] then [] else EntryText(printable, es[0]) + JournalText(printable, es[1..])
  }

  // ---- the position inside an entry ------------------------------------------------

  /** next counts the fields already enumerated; data and pos are field_data and field_pos. */
  datatype Place = Place(entry: JournalEntry, next: nat, state: EntryState, data: Bytes, pos: nat)

  ghost predicate PlaceOk(printable: Bytes -> bool, p: Place) {
    && p.next <= |p.entry.fields|
    && (p.state.ENTRY_CURSOR? || p.state.ENTRY_REALTIME? || p.state.ENTRY_MONOTONIC? || p.state.ENTRY_BOOT_ID?
        ==> p.next == 0)
    && (p.state.ENTRY_TEXT_FIELD? || p.state.ENTRY_BINARY_FIELD? || p.state.ENTRY_BINARY_FIELD_SIZE?
        ==> p.pos <= |p.data|)
    && (p.state.ENTRY_BINARY_FIELD_START? ==>
          !printable(p.data) && p.next > 0 && p.data == p.entry.fields[p.next - 1])
  }

  function Later(printable: Bytes -> bool, p: Place): Bytes
    requires p.next <= |p.entry.fields|
  {
    FieldsBytes(printable, p.entry.fields[p.next..])
  }

  /** The bytes of the entry that are still to be sent. */
  ghost function Remaining(printable: Bytes -> bool, p: Place): Bytes
    requires PlaceOk(printable, p)
  {
    var e, later := p.entry, Later(printable, p);
    match p.state
    case ENTRY_CURSOR => CursorLine(e) + (RealtimeLine(e) + (MonotonicLine(e) + (BootLine(e) + later)))
    case ENTRY_REALTIME => RealtimeLine(e) + (MonotonicLine(e) + (BootLine(e) + later))
    case ENTRY_MONOTONIC => MonotonicLine(e) + (BootLine(e) + later)
    case ENTRY_BOOT_ID => BootLine(e) + later
    case ENTRY_NEW_FIELD => later
    case ENTRY_TEXT_FIELD => p.data[p.pos..] + ([NEWLINE] + later)
    case ENTRY_BINARY_FIELD => p.data[p.pos..] + ([NEWLINE] + later)
    case ENTRY_BINARY_FIELD_START => FieldBytes(printable, p.data) + later
    case ENTRY_BINARY_FIELD_SIZE => LittleEndian(|p.data| - p.pos, 8) + (p.data[p.pos..] + ([NEWLINE] + later))
    case ENTRY_OUTRO => [NEWLINE]
    case ENTRY_DONE => []
  }

  /** Room without which the current state cannot write anything. */
  function Need(p: Place): nat {
    match p.state
    case ENTRY_CURSOR => |CursorLine(p.entry)|
    case ENTRY_REALTIME => |RealtimeLine(p.entry)|
    case ENTRY_MONOTONIC => |MonotonicLine(p.entry)|
    case ENTRY_BOOT_ID => |BootLine(p.entry)|
    case ENTRY_BINARY_FIELD_START => IndexOf(p.data, EQUALS) + 1
    case ENTRY_BINARY_FIELD_SIZE => 8
    case ENTRY_TEXT_FIELD => 1
    case ENTRY_BINARY_FIELD => 1
    case ENTRY_OUTRO => 1
    case _ => 0
  }

  // ---- the moves between places ----------------------------------------------------

  /** `bytes` is sent on the way from p to q. */
  ghost predicate Sends(printable: Bytes -> bool, p: Place, bytes: Bytes, q: Place) {
    && PlaceOk(printable, p) && PlaceOk(printable, q) && q.entry == p.entry
    && bytes + Remaining(printable, q) == Remaining(printable, p)
  }

  lemma SendsTransitive(printable: Bytes -> bool, p: Place, a: Bytes, q: Place, b: Bytes, r: Place)
    requires Sends(printable, p, a, q) && Sends(printable, q, b, r)
    ensures Sends(printable, p, a + b, r)
  {
    hide Remaining, PlaceOk;
    assert (a + b) + Remaining(printable, r) == a + (b + Remaining(printable, r));
  }

  lemma SendsNothing(printable: Bytes -> bool, p: Place)
    requires PlaceOk(printable, p)
    ensures Sends(printable, p, [], p)
  {
    hide PlaceOk;
    assert [] + Remaining(printable, p) == Remaining(printable, p);
  }

  function HeaderLine(p: Place): Bytes {
    match p.state
    case ENTRY_CURSOR => CursorLine(p.entry)
    case ENTRY_REALTIME => RealtimeLine(p.entry)
    case ENTRY_MONOTONIC => MonotonicLine(p.entry)
    case _ => BootLine(p.entry)
  }

  predicate InHeader(s: EntryState) {
    s.ENTRY_CURSOR? || s.ENTRY_REALTIME? || s.ENTRY_MONOTONIC? || s.ENTRY_BOOT_ID?
  }

  function AfterHeader(s: EntryState): EntryState {
    match s
    case ENTRY_CURSOR => ENTRY_REALTIME
    case ENTRY_REALTIME => ENTRY_MONOTONIC
    case ENTRY_MONOTONIC => ENTRY_BOOT_ID
    case _ => ENTRY_NEW_FIELD
  }

  lemma HeaderSent(printable: Bytes -> bool, p: Place)
    requires PlaceOk(printable, p) && InHeader(p.state)
    ensures Sends(printable, p, HeaderLine(p), p.(state := AfterHeader(p.state)))
  {
    hide CursorLine, RealtimeLine, MonotonicLine, BootLine;
  }

  /** sd_journal_enumerate_data and the choice of the representation. */
  function EnumerateField(printable: Bytes -> bool, p: Place): Place {
    if p.next >= |p.entry.fields| then p.(state := ENTRY_OUTRO, pos := 0)
    else
      var data := p.entry.fields[p.next];
      p.(next := p.next + 1, data := data, pos := 0,
         state := if printable(data) then ENTRY_TEXT_FIELD else ENTRY_BINARY_FIELD_START)
  }

  lemma FieldEnumerated(printable: Bytes -> bool, p: Place)
    requires PlaceOk(printable, p) && p.state == ENTRY_NEW_FIELD
    ensures Sends(printable, p, [], EnumerateField(printable, p))
  {
    hide HasLabel, BinaryBytes;
    var q := EnumerateField(printable, p);
    assert [] + Remaining(printable, q) == Remaining(printable, q);
    if p.next < |p.entry.fields| {
      LaterFields(printable, p);
      Associate(q.data, [NEWLINE], Later(printable, q));
      assert q.data[0..] == q.data;
    } else {
      assert p.entry.fields[p.next..] == [];
    }
  }

  lemma LaterFields(printable: Bytes -> bool, p: Place)
    requires p.next < |p.entry.fields|
    ensures Later(printable, p)
         == FieldBytes(printable, p.entry.fields[p.next]) + Later(printable, p.(next := p.next + 1))
  {
    hide FieldBytes;
    assert p.entry.fields[p.next..][1..] == p.entry.fields[p.next + 1..];
  }

  lemma FieldRemaining(printable: Bytes -> bool, p: Place)
    requires PlaceOk(printable, p) && (p.state == ENTRY_TEXT_FIELD || p.state == ENTRY_BINARY_FIELD)
    ensures Remaining(printable, p) == p.data[p.pos..] + ([NEWLINE] + Later(printable, p))
  {
    hide FieldsBytes, FieldBytes;
  }

  /** A piece of the field that leaves something for the next callback. */
  lemma PieceSent(printable: Bytes -> bool, p: Place, n: nat)
    requires PlaceOk(printable, p) && (p.state == ENTRY_TEXT_FIELD || p.state == ENTRY_BINARY_FIELD)
    requires n <= |p.data| - p.pos
    ensures Sends(printable, p, p.data[p.pos..p.pos + n], p.(pos := p.pos + n))
  {
    hide Remaining, FieldsBytes;
    FieldRemaining(printable, p);
    FieldRemaining(printable, p.(pos := p.pos + n));
    CutSuffix(p.data, p.pos, p.pos + n);
    Associate(p.data[p.pos..p.pos + n], p.data[p.pos + n..], [NEWLINE] + Later(printable, p));
  }

  lemma FieldSent(printable: Bytes -> bool, p: Place)
    requires PlaceOk(printable, p) && (p.state == ENTRY_TEXT_FIELD || p.state == ENTRY_BINARY_FIELD)
    ensures Sends(printable, p, p.data[p.pos..] + [NEWLINE], p.(state := ENTRY_NEW_FIELD))
  {
    hide FieldsBytes, FieldBytes;
    Associate(p.data[p.pos..], [NEWLINE], Later(printable, p));
  }

  lemma LabelSent(printable: Bytes -> bool, p: Place)
    requires PlaceOk(printable, p) && p.state == ENTRY_BINARY_FIELD_START && HasLabel(p.data)
    ensures var k := IndexOf(p.data, EQUALS);
            Sends(printable, p, p.data[..k] + [NEWLINE], p.(state := ENTRY_BINARY_FIELD_SIZE, pos := k + 1))
  {
    hide LittleEndian, FieldsBytes, BinaryText, IndexOf;
    var k := IndexOf(p.data, EQUALS);
    BinaryTextSplit(p.data[..k], p.data[k + 1..], Later(printable, p));
  }

  lemma SizeSent(printable: Bytes -> bool, p: Place)
    requires PlaceOk(printable, p) && p.state == ENTRY_BINARY_FIELD_SIZE
    ensures Sends(printable, p, LittleEndian(|p.data| - p.pos, 8), p.(state := ENTRY_BINARY_FIELD))
  {
    hide LittleEndian, FieldsBytes, FieldBytes;
  }

  // ---- the output buffer -----------------------------------------------------------

  /** b after s was written at position `at`. */
  function Written(b: Bytes, at: nat, s: Bytes): (r: Bytes)
    requires at + |s| <= |b|
    ensures |r| == |b|
  {
    b[..at] + s + b[at + |s|..]
  }

  /** Nothing outside [at, at + room) changed. */
  ghost predicate Keeps(b: Bytes, c: Bytes, at: nat, room: nat) {
    at + room <= |b| == |c| && c[..at] == b[..at] && c[at + room..] == b[at + room..]
  }

  lemma WrittenKeeps(b: Bytes, at: nat, s: Bytes, room: nat)
    requires |s| <= room && at + room <= |b|
    ensures Keeps(b, Written(b, at, s), at, room) && Written(b, at, s)[at..at + |s|] == s
  {
    var c := Written(b, at, s);
    assert c[..at] == b[..at];
    SuffixFrame(b, c, at + |s|, at + room, |b|) by {
      assert c[at + |s|..] == b[at + |s|..];
    }
    assert c[at + room..] == c[at + room..|b|] && b[at + room..] == b[at + room..|b|];
  }

  lemma SameKeeps(b: Bytes, at: nat, room: nat)
    requires at + room <= |b|
    ensures Keeps(b, b, at, room)
  {
  }

  /** Writing into the free part of a region extends what was written there. */
  lemma KeepsMore(a: Bytes, b: Bytes, c: Bytes, start: nat, pos: nat, size: nat, n: nat)
    requires Keeps(a, b, start, size) && pos + n <= size && Keeps(b, c, start + pos, size - pos)
    ensures Keeps(a, c, start, size)
    ensures c[start..start + pos + n] == b[start..start + pos] + c[start + pos..start + pos + n]
  {
    SliceFrame(b, c, start + pos, 0, start);
    SliceFrame(b, c, start + pos, start, start + pos);
    assert c[start..start + pos + n] == c[start..start + pos] + c[start + pos..start + pos + n];
    assert c[..start] == c[0..start] && b[..start] == b[0..start];
  }

  method Put(buf: array<Byte>, at: nat, s: Bytes)
    requires at + |s| <= buf.Length
    modifies buf
    ensures buf[..] == Written(old(buf[..]), at, s)
  {
    forall i | 0 <= i < |s| {
      buf[at + i] := s[i];
    }
  }

  /** snprintf: as much of s as fits with the NUL behind it; the value is the full length. */
  method Snprintf(buf: array<Byte>, at: nat, room: nat, s: Bytes) returns (r: nat)
    requires at + room <= buf.Length
    modifies buf
    ensures r == |s|
    ensures buf[..] == Written(old(buf[..]), at,
                               if room == 0 then [] else if |s| < room then s + [0] else s[..room - 1] + [0])
  {
    if room == 0 {
      assert Written(buf[..], at, []) == buf[..];
    } else if |s| < room {
      Put(buf, at, s + [0]);
    } else {
      Put(buf, at, s[..room - 1] + [0]);
    }
    r := |s|;
  }

  lemma NewlineRestored(b: Bytes, at: nat, line: Bytes)
    requires |line| > 0 && line[|line| - 1] == NEWLINE && at + |line| <= |b|
    ensures Written(b, at, line[..|line| - 1] + [0])[at + |line| - 1 := NEWLINE] == Written(b, at, line)
  {
    assert line == line[..|line| - 1] + [NEWLINE];
  }

  lemma DropNul(b: Bytes, at: nat, line: Bytes, room: nat)
    requires |line| < room && at + room <= |b|
    ensures Keeps(b, Written(b, at, line + [0]), at, room)
    ensures Written(b, at, line + [0])[at..at + |line|] == line
  {
    WrittenKeeps(b, at, line + [0], room);
    SubSlice(Written(b, at, line + [0]), at, at + |line| + 1, 0, |line|);
  }

  /** The snprintf idiom of the header states: a line that fills the buffer exactly loses its
      newline to the NUL and gets it back. */
  method PrintLine(buf: array<Byte>, at: nat, room: nat, line: Bytes) returns (r: Round)
    requires at + room <= buf.Length && |line| > 0 && line[|line| - 1] == NEWLINE
    modifies buf
    ensures Keeps(old(buf[..]), buf[..], at, room)
    ensures r == if |line| > room then NoRoom else if |line| == room then Full(room) else Go(|line|)
    ensures r != NoRoom ==> buf[..][at..at + |line|] == line
  {
    hide Keeps, Written;
    ghost var b := buf[..];
    var n := Snprintf(buf, at, room, line);
    if n > room {
      WrittenKeeps(b, at, if room == 0 then [] else line[..room - 1] + [0], room);
      return NoRoom;
    }
    if n == room {
      ghost var c := buf[..];
      buf[at + room - 1] := NEWLINE;
      assert buf[..] == c[at + room - 1 := NEWLINE];
      NewlineRestored(b, at, line);
      WrittenKeeps(b, at, line, room);
      return Full(room);
    }
    DropNul(b, at, line, room);
    return Go(n);
  }

  // ---- the uploader ----------------------------------------------------------------

  /** How one round of write_entry ends: n more bytes and go on, n more bytes and return,
      not enough space, or an invalid field. */
  datatype Round = Go(n: nat) | Full(n: nat) | NoRoom | Invalid

  /** The bytes a round has put at position `at`. */
  function Sent(b: Bytes, at: nat, r: Round): Bytes {
    if (r.Go? || r.Full?) && at + r.n <= |b| then b[at..at + r.n] else []
  }

  /** Position of a state in the order of the switch. */
  function Rank(s: EntryState): nat {
    match s
    case ENTRY_CURSOR => 9
    case ENTRY_REALTIME => 8
    case ENTRY_MONOTONIC => 7
    case ENTRY_BOOT_ID => 6
    case ENTRY_BINARY_FIELD_START => 5
    case ENTRY_BINARY_FIELD_SIZE => 4
    case ENTRY_TEXT_FIELD => 3
    case ENTRY_BINARY_FIELD => 3
    case ENTRY_NEW_FIELD => 2
    case ENTRY_OUTRO => 1
    case ENTRY_DONE => 0
  }

  /** What one round of the switch promises, from p to q with `room` bytes of space. */
  ghost predicate RoundOk(printable: Bytes -> bool, p: Place, room: nat, r: Round, out: Bytes, q: Place) {
    match r
    case Go(n) =>
      && n <= room && |out| == n && Sends(printable, p, out, q) && q.state != ENTRY_DONE
      && (q.next > p.next || (q.next == p.next && Rank(q.state) < Rank(p.state)))
    case Full(n) =>
      n <= room && |out| == n && Sends(printable, p, out, q) && if q.state == ENTRY_DONE then n > 0 else n == room
    case NoRoom => q == p && room < Need(p)
    case Invalid => q == p && p.state == ENTRY_BINARY_FIELD_START && !HasLabel(p.data)
  }

  lemma PlaceInField(printable: Bytes -> bool, p: Place)
    requires PlaceOk(printable, p)
    ensures p.state.ENTRY_TEXT_FIELD? || p.state.ENTRY_BINARY_FIELD? || p.state.ENTRY_BINARY_FIELD_SIZE? ==>
              p.pos <= |p.data|
  {
  }

  lemma HeaderRound(printable: Bytes -> bool, p: Place, room: nat, r: Round, out: Bytes, q: Place)
    requires PlaceOk(printable, p) && InHeader(p.state)
    requires var line := HeaderLine(p);
             if |line| > room then r == NoRoom && q == p
             else && (r == if |line| == room then Full(room) else Go(|line|))
                  && q == p.(state := AfterHeader(p.state)) && out == line
    ensures RoundOk(printable, p, room, r, out, q)
  {
    hide Sends, PlaceOk, CursorLine, RealtimeLine, MonotonicLine, BootLine;
    HeaderSent(printable, p);
  }

  lemma CopyRound(printable: Bytes -> bool, p: Place, room: nat, r: Round, out: Bytes, q: Place)
    requires PlaceOk(printable, p) && (p.state == ENTRY_TEXT_FIELD || p.state == ENTRY_BINARY_FIELD)
    requires if room > |p.data| - p.pos then
               r == Go(|p.data| - p.pos + 1) && out == p.data[p.pos..] + [NEWLINE]
               && q == p.(state := ENTRY_NEW_FIELD)
             else r == Full(room) && out == p.data[p.pos..p.pos + room] && q == p.(pos := p.pos + room)
    ensures RoundOk(printable, p, room, r, out, q)
  {
    hide Sends;
    if room > |p.data| - p.pos {
      FieldSent(printable, p);
    } else {
      PieceSent(printable, p, room);
    }
  }

  lemma StartRound(printable: Bytes -> bool, p: Place, room: nat, r: Round, out: Bytes, q: Place)
    requires PlaceOk(printable, p) && p.state == ENTRY_BINARY_FIELD_START
    requires var k := IndexOf(p.data, EQUALS);
             if !HasLabel(p.data) then r == Invalid && q == p
             else if room < k + 1 then r == NoRoom && q == p
             else r == Go(k + 1) && out == p.data[..k] + [NEWLINE]
                  && q == p.(state := ENTRY_BINARY_FIELD_SIZE, pos := k + 1)
    ensures RoundOk(printable, p, room, r, out, q)
  {
    hide Sends, PlaceOk;
    if HasLabel(p.data) {
      LabelSent(printable, p);
    }
  }

  lemma SizeRound(printable: Bytes -> bool, p: Place, room: nat, r: Round, out: Bytes, q: Place)
    requires PlaceOk(printable, p) && p.state == ENTRY_BINARY_FIELD_SIZE
    requires if room < 8 then r == NoRoom && q == p
             else r == Go(8) && out == LittleEndian(|p.data| - p.pos, 8) && q == p.(state := ENTRY_BINARY_FIELD)
    ensures RoundOk(printable, p, room, r, out, q)
  {
    hide Sends, LittleEndian;
    SizeSent(printable, p);
  }

  lemma OutroRound(printable: Bytes -> bool, p: Place, room: nat, r: Round, out: Bytes, q: Place)
    requires PlaceOk(printable, p) && p.state == ENTRY_OUTRO
    requires if room < 1 then r == NoRoom && q == p
             else r == Full(1) && out == [NEWLINE] && q == p.(state := ENTRY_DONE)
    ensures RoundOk(printable, p, room, r, out, q)
  {
    assert [NEWLINE] + [] == [NEWLINE];
  }

  lemma NewFieldRound(printable: Bytes -> bool, p: Place, room: nat)
    requires PlaceOk(printable, p) && p.state == ENTRY_NEW_FIELD
    ensures RoundOk(printable, p, room, Go(0), [], EnumerateField(printable, p))
  {
    hide Sends, PlaceOk;
    FieldEnumerated(printable, p);
  }

  /** The progress of write_entry from p: `out` was written and q is reached. */
  ghost predicate Wrote(printable: Bytes -> bool, p: Place, size: nat, w: int, out: Bytes, q: Place) {
    if w < 0 then PlaceOk(printable, q) && q.state == ENTRY_BINARY_FIELD_START && !HasLabel(q.data)
    else && w <= size && Sends(printable, p, out, q)
         && if q.state == ENTRY_DONE then w > 0 else w == size || size - w < Need(q)
  }

  /** The loop invariant of write_entry: pos bytes of the region hold what p0 sent up to p. */
  ghost predicate Partial(printable: Bytes -> bool, p0: Place, b0: Bytes, start: nat, size: nat, pos: nat, b: Bytes,
                          p: Place) {
    && pos <= size && Keeps(b0, b, start, size) && p.state != ENTRY_DONE
    && Sends(printable, p0, b[start..start + pos], p)
  }

  lemma PartialStarts(printable: Bytes -> bool, p: Place, b: Bytes, start: nat, size: nat)
    requires PlaceOk(printable, p) && start + size <= |b| && p.state != ENTRY_DONE
    ensures Partial(printable, p, b, start, size, 0, b, p)
  {
    hide Sends, PlaceOk;
    SendsNothing(printable, p);
    SameKeeps(b, start, size);
    assert b[start..start + 0] == [];
  }

  lemma PartialPlaceOk(printable: Bytes -> bool, p0: Place, b0: Bytes, start: nat, size: nat, pos: nat, b: Bytes,
                       p: Place)
    requires Partial(printable, p0, b0, start, size, pos, b, p)
    ensures PlaceOk(printable, p) && p.state != ENTRY_DONE && pos <= size && start + size <= |b|
    ensures Keeps(b0, b, start, size)
    ensures p.entry == p0.entry && p.next <= |p0.entry.fields|
  {
    hide Remaining;
  }

  lemma PartialStep(printable: Bytes -> bool, p0: Place, b0: Bytes, start: nat, size: nat, pos: nat, b: Bytes, p: Place,
                    r: Round, c: Bytes, q: Place)
    requires Partial(printable, p0, b0, start, size, pos, b, p)
    requires Keeps(b, c, start + pos, size - pos)
    requires RoundOk(printable, p, size - pos, r, Sent(c, start + pos, r), q)
    ensures r.Go? ==> Partial(printable, p0, b0, start, size, pos + r.n, c, q)
                      && (q.next > p.next || (q.next == p.next && Rank(q.state) < Rank(p.state)))
    ensures !r.Go? ==>
              var w := match r case Full(n) => pos + n case Invalid => -1 case _ => pos;
              Wrote(printable, p0, size, w, if 0 <= w <= size then c[start..start + w] else [], q)
    ensures Keeps(b0, c, start, size)
  {
    hide Remaining, PlaceOk, Need, Rank;
    var out := Sent(c, start + pos, r);
    KeepsMore(b0, b, c, start, pos, size, |out|);
    if r.Go? || r.Full? {
      SendsTransitive(printable, p0, b[start..start + pos], p, out, q);
    } else {
      assert out == [] && c[start..start + pos] == b[start..start + pos] + [] == b[start..start + pos];
    }
  }

  /** Everything still to be sent: the rest of the current entry and the entries behind it. */
  ghost function Rest(printable: Bytes -> bool, es: seq<JournalEntry>, current: nat, p: Place): Bytes
    requires current < |es| && PlaceOk(printable, p)
  {
    Remaining(printable, p) + JournalText(printable, es[current + 1..])
  }

  /** `out` was sent since everything that remained was `whole`. */
  ghost predicate Conserves(printable: Bytes -> bool, es: seq<JournalEntry>, whole: Bytes, out: Bytes, current: nat,
                            p: Place) {
    current < |es| && p.entry == es[current] && PlaceOk(printable, p) && out + Rest(printable, es, current, p) == whole
  }

  function AtStart(e: JournalEntry, p: Place): Place {
    Place(e, 0, ENTRY_CURSOR, p.data, p.pos)
  }

  lemma NextEntryConserves(printable: Bytes -> bool, es: seq<JournalEntry>, whole: Bytes, out: Bytes, current: nat,
                           p: Place)
    requires Conserves(printable, es, whole, out, current, p) && p.state == ENTRY_DONE && current + 1 < |es|
    ensures Conserves(printable, es, whole, out, current + 1, AtStart(es[current + 1], p))
  {
    hide CursorLine, RealtimeLine, MonotonicLine, BootLine, FieldsBytes;
    var later, e := es[current + 1..], es[current + 1];
    assert later[0] == e && later[1..] == es[current + 2..];
    assert e.fields[0..] == e.fields;
    assert [] + JournalText(printable, later) == JournalText(printable, later);
  }

  lemma WroteConserves(printable: Bytes -> bool, es: seq<JournalEntry>, whole: Bytes, out: Bytes, current: nat,
                       p: Place, more: Bytes, q: Place)
    requires Conserves(printable, es, whole, out, current, p) && Sends(printable, p, more, q)
    ensures Conserves(printable, es, whole, out + more, current, q)
  {
    hide Remaining, PlaceOk, JournalText;
    var rest, later := Remaining(printable, q), JournalText(printable, es[current + 1..]);
    Associate(more, rest, later);
    Associate(out, more, rest + later);
  }

  lemma EntryWritten(printable: Bytes -> bool, es: seq<JournalEntry>, whole: Bytes, b: Bytes, filled: nat, current: nat,
                     p: Place, w: nat, c: Bytes, q: Place)
    requires filled + w <= |b| && Conserves(printable, es, whole, b[..filled], current, p)
    requires Keeps(b, c, filled, |b| - filled)
    requires Sends(printable, p, c[filled..filled + w], q)
    ensures Conserves(printable, es, whole, c[..filled + w], current, q)
  {
    hide Conserves, Sends;
    WroteConserves(printable, es, whole, b[..filled], current, p, c[filled..filled + w], q);
    assert c[..filled + w] == b[..filled] + c[filled..filled + w];
  }

  /** Return values of the read callback. */
  datatype Callback = Abort | Filled(n: nat)

  class Uploader {
    const follow: bool
    const printable: Bytes -> bool
    var entries: seq<JournalEntry>
    var current: nat
    var next: nat
    var state: EntryState
    var fieldData: Bytes
    var fieldPos: nat
    var closed: bool

    ghost function Here(): Place
      requires current < |entries|
      reads this
    {
      Place(entries[current], next, state, fieldData, fieldPos)
    }

    /** ENTRY_CURSOR to ENTRY_BOOT_ID. */
    method PrintHeader(buf: array<Byte>, at: nat, room: nat) returns (r: Round)
      requires current < |entries| && InHeader(state) && at + room <= buf.Length
      modifies this`state, buf
      ensures Keeps(old(buf[..]), buf[..], at, room)
      ensures var line := HeaderLine(old(Here()));
              if |line| > room then r == NoRoom && Here() == old(Here())
              else && (r == if |line| == room then Full(room) else Go(|line|))
                   && Here() == old(Here()).(state := AfterHeader(old(state)))
                   && buf[..][at..at + |line|] == line
    {
      hide CursorLine, RealtimeLine, MonotonicLine, BootLine, Keeps, Written;
      HeaderText(Here());
      var e := entries[current];
      var line := match state
        case ENTRY_CURSOR => CursorLine(e)
        case ENTRY_REALTIME => RealtimeLine(e)
        case ENTRY_MONOTONIC => MonotonicLine(e)
        case _ => BootLine(e);
      r := PrintLine(buf, at, room, line);
      if r != NoRoom {
        state := match state
          case ENTRY_CURSOR => ENTRY_REALTIME
          case ENTRY_REALTIME => ENTRY_MONOTONIC
          case ENTRY_MONOTONIC => ENTRY_BOOT_ID
          case _ => ENTRY_NEW_FIELD;
      }
    }

    /** ENTRY_NEW_FIELD. */
    method NewField()
      requires current < |entries|
      modifies this`next, this`state, this`fieldData, this`fieldPos
      ensures Here() == EnumerateField(printable, old(Here()))
    {
      fieldPos := 0;
      var fields := entries[current].fields;
      if next >= |fields| {
        state := ENTRY_OUTRO;
        return;
      }
      fieldData, next := fields[next], next + 1;
      state := if printable(fieldData) then ENTRY_TEXT_FIELD else ENTRY_BINARY_FIELD_START;
    }

    /** ENTRY_TEXT_FIELD and ENTRY_BINARY_FIELD: the rest of the field and its newline, or as
        much as fits. */
    method CopyField(buf: array<Byte>, at: nat, room: nat) returns (r: Round)
      requires current < |entries| && at + room <= buf.Length && fieldPos <= |fieldData|
      modifies this`state, this`fieldPos, buf
      ensures Keeps(old(buf[..]), buf[..], at, room)
      ensures var p, left := old(Here()), |fieldData| - old(fieldPos);
              if room > left then
                r == Go(left + 1) && buf[..][at..at + left + 1] == p.data[p.pos..] + [NEWLINE]
                && Here() == p.(state := ENTRY_NEW_FIELD)
              else
                r == Full(room) && buf[..][at..at + room] == p.data[p.pos..p.pos + room]
                && Here() == p.(pos := p.pos + room)
    {
      hide Keeps, Written;
      ghost var b := buf[..];
      var done := room > |fieldData| - fieldPos;
      var tocopy := if done then |fieldData| - fieldPos else room;
      if done {
        var text := fieldData[fieldPos..] + [NEWLINE];
        Put(buf, at, text);
        WrittenKeeps(b, at, text, room);
        state := ENTRY_NEW_FIELD;
        return Go(tocopy + 1);
      }
      Put(buf, at, fieldData[fieldPos..fieldPos + tocopy]);
      WrittenKeeps(b, at, fieldData[fieldPos..fieldPos + tocopy], room);
      fieldPos := fieldPos + tocopy;
      return Full(room);
    }

    /** ENTRY_BINARY_FIELD_START: the label and a newline. */
    method StartBinary(buf: array<Byte>, at: nat, room: nat) returns (r: Round)
      requires current < |entries| && at + room <= buf.Length
      modifies this`state, this`fieldPos, buf
      ensures Keeps(old(buf[..]), buf[..], at, room)
      ensures var p, k := old(Here()), IndexOf(fieldData, EQUALS);
              if !HasLabel(p.data) then r == Invalid && Here() == p
              else if room < k + 1 then r == NoRoom && Here() == p
              else r == Go(k + 1) && buf[..][at..at + k + 1] == p.data[..k] + [NEWLINE]
                   && Here() == p.(state := ENTRY_BINARY_FIELD_SIZE, pos := k + 1)
    {
      hide Keeps, Written;
      ghost var b := buf[..];
      var k := IndexOf(fieldData, EQUALS);
      if k == |fieldData| || k == 0 {
        SameKeeps(b, at, room);
        return Invalid;
      }
      if room < k + 1 {
        SameKeeps(b, at, room);
        return NoRoom;
      }
      Put(buf, at, fieldData[..k] + [NEWLINE]);
      WrittenKeeps(b, at, fieldData[..k] + [NEWLINE], room);
      fieldPos, state := k + 1, ENTRY_BINARY_FIELD_SIZE;
      return Go(k + 1);
    }

    /** ENTRY_BINARY_FIELD_SIZE: the length as a little-endian word. */
    method SizeBinary(buf: array<Byte>, at: nat, room: nat) returns (r: Round)
      requires current < |entries| && at + room <= buf.Length && fieldPos <= |fieldData|
      modifies this`state, buf
      ensures Keeps(old(buf[..]), buf[..], at, room)
      ensures var p := old(Here());
              if room < 8 then r == NoRoom && Here() == p
              else r == Go(8) && buf[..][at..at + 8] == LittleEndian(|p.data| - p.pos, 8)
                   && Here() == p.(state := ENTRY_BINARY_FIELD)
    {
      hide Keeps, Written, LittleEndian;
      ghost var b := buf[..];
      if room < 8 {
        SameKeeps(b, at, room);
        return NoRoom;
      }
      var le64 := LittleEndian(|fieldData| - fieldPos, 8);
      Put(buf, at, le64);
      WrittenKeeps(b, at, le64, room);
      state := ENTRY_BINARY_FIELD;
      return Go(8);
    }

    /** ENTRY_OUTRO: the empty line. */
    method Outro(buf: array<Byte>, at: nat, room: nat) returns (r: Round)
      requires current < |entries| && at + room <= buf.Length
      modifies this`state, buf
      ensures Keeps(old(buf[..]), buf[..], at, room)
      ensures var p := old(Here());
              if room < 1 then r == NoRoom && Here() == p
              else r == Full(1) && buf[..][at..at + 1] == [NEWLINE] && Here() == p.(state := ENTRY_DONE)
    {
      hide Keeps, Written;
      ghost var b := buf[..];
      if room < 1 {
        SameKeeps(b, at, room);
        return NoRoom;
      }
      Put(buf, at, [NEWLINE]);
      WrittenKeeps(b, at, [NEWLINE], room);
      state := ENTRY_DONE;
      return Full(1);
    }

    /** The label and length of a binary field, and the end of the entry. */
    method FieldRound(buf: array<Byte>, at: nat, room: nat) returns (r: Round)
      requires current < |entries| && at + room <= buf.Length
      requires PlaceOk(printable, Here())
      requires state == ENTRY_BINARY_FIELD_START || state == ENTRY_BINARY_FIELD_SIZE || state == ENTRY_OUTRO
      modifies this`state, this`fieldPos, buf
      ensures Keeps(old(buf[..]), buf[..], at, room)
      ensures RoundOk(printable, old(Here()), room, r, Sent(buf[..], at, r), Here())
    {
      hide Keeps, RoundOk, HasLabel, LittleEndian, IndexOf, PlaceOk;
      ghost var p := Here();
      PlaceInField(printable, p);
      if state == ENTRY_BINARY_FIELD_START {
        r := StartBinary(buf, at, room);
        StartRound(printable, p, room, r, Sent(buf[..], at, r), Here());
      } else if state == ENTRY_BINARY_FIELD_SIZE {
        r := SizeBinary(buf, at, room);
        SizeRound(printable, p, room, r, Sent(buf[..], at, r), Here());
      } else {
        r := Outro(buf, at, room);
        OutroRound(printable, p, room, r, Sent(buf[..], at, r), Here());
      }
    }

    /** One round of the switch in write_entry. */
    method WriteRound(buf: array<Byte>, at: nat, room: nat) returns (r: Round)
      requires current < |entries| && at + room <= buf.Length
      requires PlaceOk(printable, Here()) && state != ENTRY_DONE
      modifies this`next, this`state, this`fieldData, this`fieldPos, buf
      ensures Keeps(old(buf[..]), buf[..], at, room)
      ensures RoundOk(printable, old(Here()), room, r, Sent(buf[..], at, r), Here())
    {
      hide Keeps, RoundOk, EnumerateField, HeaderLine, AfterHeader, PlaceOk;
      ghost var p := Here();
      PlaceInField(printable, p);
      if InHeader(state) {
        r := PrintHeader(buf, at, room);
        HeaderRound(printable, p, room, r, Sent(buf[..], at, r), Here());
      } else if state == ENTRY_NEW_FIELD {
        NewFieldRound(printable, p, room);
        SameKeeps(buf[..], at, room);
        NewField();
        r := Go(0);
        assert Sent(buf[..], at, r) == [];
      } else if state == ENTRY_TEXT_FIELD || state == ENTRY_BINARY_FIELD {
        r := CopyField(buf, at, room);
        CopyRound(printable, p, room, r, Sent(buf[..], at, r), Here());
      } else {
        r := FieldRound(buf, at, room);
      }
    }

    /** write_entry: fills at most `size` bytes from `start` on. What it has written so far,
        followed by what remains, is always the canonical text of the entry. */
    method WriteEntry(buf: array<Byte>, start: nat, size: nat) returns (w: int)
      requires current < |entries| && start + size <= buf.Length
      requires PlaceOk(printable, Here()) && state != ENTRY_DONE
      modifies this`next, this`state, this`fieldData, this`fieldPos, buf
      ensures Keeps(old(buf[..]), buf[..], start, size)
      ensures Wrote(printable, old(Here()), size, w,
                    if 0 <= w <= size then buf[..][start..start + w] else [], Here())
    {
      hide PlaceOk, RoundOk, Partial, Wrote, Keeps, Rank;
      ghost var p0, b0 := Here(), buf[..];
      var pos := 0;
      PartialStarts(printable, p0, b0, start, size);
      while true
        invariant Partial(printable, p0, b0, start, size, pos, buf[..], Here())
        decreases |entries[current].fields| - next, Rank(state)
      {
        ghost var p, b := Here(), buf[..];
        PartialPlaceOk(printable, p0, b0, start, size, pos, b, p);
        var r := WriteRound(buf, start + pos, size - pos);
        PartialStep(printable, p0, b0, start, size, pos, b, p, r, buf[..], Here());
        match r
        case Go(n) => pos := pos + n;
        case Full(n) => return pos + n;
        case NoRoom => return pos;
        case Invalid => return -1;
      }
    }

    /** process_journal_input, with at least one entry to send. */
    constructor (printable: Bytes -> bool, follow: bool, entries: seq<JournalEntry>)
      requires entries != []
      ensures Valid() && this.entries == entries && this.printable == printable && this.follow == follow && !closed
      ensures Rest(printable, entries, current, Here()) == JournalText(printable, entries)
    {
      this.printable, this.follow, this.entries := printable, follow, entries;
      current, next, state, fieldData, fieldPos, closed := 0, 0, ENTRY_CURSOR, [], 0, false;
      new;
      assert entries[0].fields[0..] == entries[0].fields;
    }

    ghost predicate Valid()
      reads this
    {
      && current < |entries| && PlaceOk(printable, Here())
      && (closed ==> state == ENTRY_DONE && current == |entries| - 1)
    }

    /** The part of the callback that looks for an entry to write. */
    method NextEntry() returns (found: bool)
      requires Valid()
      modifies this`current, this`next, this`state, this`closed
      ensures Valid() && (found ==> state != ENTRY_DONE)
      ensures closed == (old(closed) || (!found && !follow))
      ensures if !found then
                old(state) == ENTRY_DONE && current == old(current) == |entries| - 1 && Here() == old(Here())
              else if old(state) == ENTRY_DONE then
                && old(current) + 1 < |entries| && current == old(current) + 1
                && Here() == AtStart(entries[current], old(Here()))
              else current == old(current) && Here() == old(Here())
    {
      if state == ENTRY_DONE {
        if current + 1 >= |entries| {
          closed := closed || !follow;
          return false;
        }
        current, next, state := current + 1, 0, ENTRY_CURSOR;
      }
      return true;
    }

    /** One round of the callback's loop: find an entry and write what fits behind `filled`. */
    method CallbackRound(buf: array<Byte>, filled: nat, ghost whole: Bytes) returns (found: bool, w: int)
      requires Valid() && filled <= buf.Length
      requires Conserves(printable, entries, whole, buf[..][..filled], current, Here())
      modifies this`current, this`next, this`state, this`fieldData, this`fieldPos, this`closed, buf
      ensures Valid() && current >= old(current) && w <= buf.Length - filled
      ensures !found ==> w == 0 && state == ENTRY_DONE && current == |entries| - 1
      ensures closed == (old(closed) || (!found && !follow))
      ensures found && old(state) == ENTRY_DONE ==> current > old(current)
      ensures w >= 0 ==> Conserves(printable, entries, whole, buf[..][..filled + w], current, Here())
      ensures w < 0 ==> state == ENTRY_BINARY_FIELD_START && !HasLabel(fieldData)
      ensures w >= 0 && found ==>
                if state == ENTRY_DONE then w > 0
                else w == buf.Length - filled || buf.Length - filled - w < Need(Here())
    {
      hide Conserves, Keeps, Sends, PlaceOk, HasLabel, Need;
      ghost var p, c0 := Here(), current;
      found := NextEntry();
      if !found {
        return false, 0;
      }
      if p.state == ENTRY_DONE {
        NextEntryConserves(printable, entries, whole, buf[..][..filled], c0, p);
      }
      ghost var q, b := Here(), buf[..];
      w := WriteEntry(buf, filled, buf.Length - filled);
      if w >= 0 {
        SendsOk(printable, q, buf[..][filled..filled + w], Here());
        EntryWritten(printable, entries, whole, b, filled, current, q, w, buf[..], Here());
      }
    }

    /** journal_input_callback: fill the buffer with as many bytes of the journal as fit. The
        bytes handed out, followed by what remains, are what remained before. The callback
        gives up only on a field without label or when not even one piece fits. */
    method JournalInputCallback(buf: array<Byte>) returns (r: Callback)
      requires Valid()
      modifies this`current, this`next, this`state, this`fieldData, this`fieldPos, this`closed, buf
      ensures Valid()
      ensures r.Filled? ==>
                && r.n <= buf.Length
                && Conserves(printable, entries, old(Rest(printable, entries, current, Here())), buf[..][..r.n],
                             current, Here())
      ensures r == Abort ==>
                || (state == ENTRY_BINARY_FIELD_START && !HasLabel(fieldData))
                || buf.Length < Need(Here())
      ensures old(state) == ENTRY_DONE && old(current) == |entries| - 1 ==>
                state == ENTRY_DONE && current == |entries| - 1
      ensures r == Filled(0) ==> buf.Length == 0 || (state == ENTRY_DONE && current == |entries| - 1)
      ensures closed == (old(closed) || (!follow && r.Filled? && r.n < buf.Length && state == ENTRY_DONE))
    {
      hide Conserves, Remaining, HasLabel, Need, PlaceOk;
      ghost var whole := Rest(printable, entries, current, Here());
      ConservesNothing(printable, entries, current, Here());
      assert buf[..][..0] == [];
      var filled := 0;
      while !closed && filled < buf.Length
        invariant Valid() && 0 <= filled <= buf.Length && (state == ENTRY_DONE || filled == 0) && closed == old(closed)
        invariant Conserves(printable, entries, whole, buf[..][..filled], current, Here())
        invariant old(state) == ENTRY_DONE && old(current) == |entries| - 1 ==>
                    state == ENTRY_DONE && current == |entries| - 1
        decreases |entries| - current, if state == ENTRY_DONE then 0 else 1
      {
        var found, w := CallbackRound(buf, filled, whole);
        if !found {
          break;
        }
        if w < 0 {
          return Abort;
        }
        filled := filled + w;
        if filled == 0 {
          return Abort;
        } else if state != ENTRY_DONE {
          break;
        }
      }
      return Filled(filled);
    }
  }

  lemma SendsOk(printable: Bytes -> bool, p: Place, out: Bytes, q: Place)
    requires Sends(printable, p, out, q)
    ensures PlaceOk(printable, q)
  {
  }

  lemma ConservesNothing(printable: Bytes -> bool, es: seq<JournalEntry>, current: nat, p: Place)
    requires current < |es| && p.entry == es[current] && PlaceOk(printable, p)
    ensures Conserves(printable, es, Rest(printable, es, current, p), [], current, p)
  {
    hide PlaceOk, Remaining, JournalText;
    var rest := Rest(printable, es, current, p);
    assert [] + rest == rest;
  }

  /** A header line is not empty and ends with its only newline that snprintf can lose. */
  lemma HeaderText(p: Place)
    requires InHeader(p.state)
    ensures var line := HeaderLine(p); |line| > 0 && line[|line| - 1] == NEWLINE
  {
  }
}
