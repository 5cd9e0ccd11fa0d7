/**
 What stands on the wire, read line by line and byte by byte against the entries of a journal. It
 does not refer to the way the sender composes its text.
 */
module JournalWire {
  import opened Bytes
  import opened Numbers
  import opened ExportParser
  import opened JournalUpload

  // ---- reading -----------------------------------------------------------------------

  /** What follows the first line. */
  function NextLine(s: Bytes): Bytes {
    var k := IndexOf(s, NEWLINE);
    if k < |s| then s[k + 1..] else []
  }

  /** The first line is complete and reads as t. */
  predicate ReadsLine(s: Bytes, t: Bytes) {
    NEWLINE in s && s[..IndexOf(s, NEWLINE)] == t
  }

  function DecimalValue(s: Bytes): int {
    if s == [] then 0 else 10 * DecimalValue(s[..|s| - 1]) + (s[|s| - 1] as int - '0' as int)
  }

  /** s is n in decimal: digits without a leading zero. */
  predicate IsDecimal(s: Bytes, n: nat) {
    && s != [] && (forall i :: 0 <= i < |s| ==> '0' as int <= s[i] <= '9' as int)
    && (|s| > 1 ==> s[0] != '0' as int) && DecimalValue(s) == n
  }

  /** The first line is complete and reads as t followed by n. */
  predicate ReadsNumber(s: Bytes, t: Bytes, n: nat) {
    && NEWLINE in s && IndexOf(s, NEWLINE) >= |t| && s[..|t|] == t
    && IsDecimal(s[|t|..IndexOf(s, NEWLINE)], n)
  }

  /** Eight bytes, the least significant first. */
  function Word(s: Bytes): nat
    requires |s| >= 8
  {
    (s[0] as nat) + 0x100 * (s[1] as nat) + 0x1_0000 * (s[2] as nat) + 0x100_0000 * (s[3] as nat)
    + 0x1_0000_0000 * (s[4] as nat) + 0x100_0000_0000 * (s[5] as nat) + 0x1_0000_0000_0000 * (s[6] as nat)
    + 0x100_0000_0000_0000 * (s[7] as nat)
  }

  /** s begins with the given bytes. */
  predicate Begins(s: Bytes, t: Bytes) {
    |t| <= |s| && s[..|t|] == t
  }

  predicate ReadsCursor(s: Bytes, e: JournalEntry) {
    ReadsLine(s, Ascii("__CURSOR=") + e.cursor)
  }

  predicate ReadsRealtime(s: Bytes, e: JournalEntry) {
    ReadsNumber(s, Ascii("__REALTIME_TIMESTAMP="), e.realtime)
  }

  predicate ReadsMonotonic(s: Bytes, e: JournalEntry) {
    ReadsNumber(s, Ascii("__MONOTONIC_TIMESTAMP="), e.monotonic)
  }

  predicate ReadsBootId(s: Bytes, e: JournalEntry) {
    ReadsLine(s, Ascii("_BOOT_ID=") + e.bootId)
  }

  /** The four lines at the beginning of an entry. */
  predicate ReadsHeader(s: Bytes, e: JournalEntry) {
    && ReadsCursor(s, e) && ReadsRealtime(NextLine(s), e)
    && ReadsMonotonic(NextLine(NextLine(s)), e) && ReadsBootId(NextLine(NextLine(NextLine(s))), e)
  }

  /** What follows the first four lines. */
  function BehindHeader(s: Bytes): Bytes {
    NextLine(NextLine(NextLine(NextLine(s))))
  }

  /** s is exactly the text of the journal: per entry the four header lines, then the fields. */
  predicate Spells(printable: Bytes -> bool, s: Bytes, es: seq<JournalEntry>)
    decreases |es|, 0
  {
    if es == [] then s == []
    else ReadsHeader(s, es[0]) && SpellsFields(printable, BehindHeader(s), es[0].fields, es[1..])
  }

  /** s begins with the fields and a blank line, and the entries follow. A printable field is a line.
      Any other is its label on a line, eight bytes of length, the value and a newline. */
  predicate SpellsFields(printable: Bytes -> bool, s: Bytes, fields: seq<Bytes>, es: seq<JournalEntry>)
    decreases |es| + 1, 0, |fields|
  {
    if fields == [] then Begins(s, [NEWLINE]) && Spells(printable, s[1..], es)
    else
      var f := fields[0];
      if printable(f) then
        Begins(s, f + [NEWLINE]) && SpellsFields(printable, s[|f| + 1..], fields[1..], es)
      else
        && '=' as int in f
        && var k := IndexOf(f, '=' as int);
           var value := f[k + 1..];
           && Begins(s, f[..k] + [NEWLINE]) && |s| >= k + 9 && Word(s[k + 1..]) == |value|
           && Begins(s[k + 9..], value + [NEWLINE])
           && SpellsFields(printable, s[k + 9 + |value| + 1..], fields[1..], es)
  }

  // ---- the sender's text reads as the journal ----------------------------------------

  lemma LineRead(t: Bytes, rest: Bytes)
    requires NEWLINE !in t
    ensures var s := t + [NEWLINE] + rest;
            IndexOf(s, NEWLINE) == |t| && ReadsLine(s, t) && NextLine(s) == rest && s[..|t|] == t
  {
    var s := t + [NEWLINE] + rest;
    assert s[..|t|] == t && s[|t|] == NEWLINE && s[|t| + 1..] == rest;
    IndexOfUnique(s, NEWLINE, |t|);
  }

  lemma {:induction false} DecimalReads(n: nat)
    ensures IsDecimal(Decimal(n), n) && NEWLINE !in Decimal(n)
  {
    var s := Decimal(n);
    if n < 10 {
      assert s[..0] == [];
    } else {
      DecimalReads(n / 10);
      assert s[..|s| - 1] == Decimal(n / 10);
    }
  }

  lemma NumberRead(t: Bytes, n: nat, rest: Bytes)
    requires NEWLINE !in t
    ensures var s := t + Decimal(n) + [NEWLINE] + rest; ReadsNumber(s, t, n) && NextLine(s) == rest
  {
    hide Decimal, IsDecimal, NextLine;
    DecimalReads(n);
    var line := t + Decimal(n);
    LineRead(line, rest);
    var s := line + [NEWLINE] + rest;
    assert s[..|t|] == t && s[|t|..|line|] == Decimal(n);
  }

  lemma WordRead(n: nat, rest: Bytes)
    requires n < TWO_64
    ensures Word(LittleEndian(n, 8) + rest) == n
  {
    var w := LittleEndian(n, 8);
    var n1 := n / 0x100;
    var n2 := n1 / 0x100;
    var n3 := n2 / 0x100;
    var n4 := n3 / 0x100;
    var n5 := n4 / 0x100;
    var n6 := n5 / 0x100;
    var n7 := n6 / 0x100;
    assert w == [n % 256] + LittleEndian(n1, 7);
    assert LittleEndian(n1, 7) == [n1 % 256] + LittleEndian(n2, 6);
    assert LittleEndian(n2, 6) == [n2 % 256] + LittleEndian(n3, 5);
    assert LittleEndian(n3, 5) == [n3 % 256] + LittleEndian(n4, 4);
    assert LittleEndian(n4, 4) == [n4 % 256] + LittleEndian(n5, 3);
    assert LittleEndian(n5, 3) == [n5 % 256] + LittleEndian(n6, 2);
    assert LittleEndian(n6, 2) == [n6 % 256] + LittleEndian(n7, 1);
    assert LittleEndian(n7, 1) == [n7 % 256] + LittleEndian(n7 / 256, 0);
  }

  lemma HeaderRead(e: JournalEntry, rest: Bytes)
    requires NEWLINE !in e.cursor && NEWLINE !in e.bootId
    ensures var s := CursorLine(e) + (RealtimeLine(e) + (MonotonicLine(e) + (BootLine(e) + rest)));
            ReadsHeader(s, e) && BehindHeader(s) == rest
  {
    hide Decimal, ReadsLine, ReadsNumber, NextLine, IndexOf;
    PlainPrefixes();
    var boot := BootLine(e) + rest;
    var monotonic := MonotonicLine(e) + boot;
    var realtime := RealtimeLine(e) + monotonic;
    LineRead(Ascii("_BOOT_ID=") + e.bootId, rest);
    NumberRead(Ascii("__MONOTONIC_TIMESTAMP="), e.monotonic, boot);
    NumberRead(Ascii("__REALTIME_TIMESTAMP="), e.realtime, monotonic);
    LineRead(Ascii("__CURSOR=") + e.cursor, realtime);
  }

  lemma PlainPrefixes()
    ensures NEWLINE !in Ascii("__CURSOR=") && NEWLINE !in Ascii("__REALTIME_TIMESTAMP=")
    ensures NEWLINE !in Ascii("__MONOTONIC_TIMESTAMP=") && NEWLINE !in Ascii("_BOOT_ID=")
  {
  }

  predicate SendableBinary(f: Bytes) {
    HasLabel(f) && |f| - IndexOf(f, EQUALS) - 1 < TWO_64
  }

  /** Fields that can be sent: those that are not printable need a label. */
  predicate Sendable(printable: Bytes -> bool, fields: seq<Bytes>) {
    forall k :: 0 <= k < |fields| ==> printable(fields[k]) || SendableBinary(fields[k])
  }

  ghost predicate AllSendable(printable: Bytes -> bool, es: seq<JournalEntry>) {
    forall k :: 0 <= k < |es| ==>
      NEWLINE !in es[k].cursor && NEWLINE !in es[k].bootId && Sendable(printable, es[k].fields)
  }

  lemma BinaryRead(f: Bytes, rest: Bytes)
    requires SendableBinary(f)
    ensures var s, k := BinaryBytes(f) + rest, IndexOf(f, EQUALS);
            && Begins(s, f[..k] + [NEWLINE]) && |s| >= k + 9 && Word(s[k + 1..]) == |f| - k - 1
            && Begins(s[k + 9..], f[k + 1..] + [NEWLINE]) && s[k + 9 + (|f| - k - 1) + 1..] == rest
  {
    hide IndexOf, LittleEndian, Word;
    var k := IndexOf(f, EQUALS);
    var name, value := f[..k], f[k + 1..];
    var s, word := BinaryBytes(f) + rest, LittleEndian(|value|, 8);
    var tail := value + [NEWLINE] + rest;
    assert s == name + [NEWLINE] + word + tail;
    assert s[..k + 1] == name + [NEWLINE] && s[k + 1..] == word + tail && s[k + 9..] == tail;
    WordRead(|value|, tail);
    assert tail[..|value| + 1] == value + [NEWLINE] && tail[|value| + 1..] == rest;
    assert s[k + 9 + |value| + 1..] == tail[|value| + 1..];
  }

  lemma {:induction false} FieldsRead(printable: Bytes -> bool, fields: seq<Bytes>, es: seq<JournalEntry>, rest: Bytes)
    requires Sendable(printable, fields) && Spells(printable, rest, es)
    ensures SpellsFields(printable, FieldsBytes(printable, fields) + rest, fields, es)
    decreases |fields|
  {
    hide IndexOf, Word, BinaryBytes, SendableBinary, Spells;
    var s := FieldsBytes(printable, fields) + rest;
    if fields == [] {
      assert s[..1] == [NEWLINE] && s[1..] == rest;
    } else {
      var f, later := fields[0], FieldsBytes(printable, fields[1..]);
      FieldsRead(printable, fields[1..], es, rest);
      Associate(FieldBytes(printable, f), later, rest);
      if printable(f) {
        assert s[..|f| + 1] == f + [NEWLINE] && s[|f| + 1..] == later + rest;
      } else {
        Labelled(f);
        BinaryRead(f, later + rest);
      }
    }
  }

  lemma Labelled(f: Bytes)
    requires SendableBinary(f)
    ensures HasLabel(f) && EQUALS in f && 0 < IndexOf(f, EQUALS) < |f|
  {
  }

  /** The text of a journal reads as that journal, whatever its entries. */
  lemma {:induction false} JournalRead(printable: Bytes -> bool, es: seq<JournalEntry>)
    requires AllSendable(printable, es)
    ensures Spells(printable, JournalText(printable, es), es)
    decreases |es|
  {
    hide ReadsHeader, BehindHeader, CursorLine, RealtimeLine, MonotonicLine, BootLine, FieldsBytes, SpellsFields,
         Sendable;
    if es != [] {
      var e, rest := es[0], JournalText(printable, es[1..]);
      JournalRead(printable, es[1..]);
      FieldsRead(printable, e.fields, es[1..], rest);
      HeaderRead(e, FieldsBytes(printable, e.fields) + rest);
      EntryThen(printable, e, rest);
    }
  }

  lemma EntryThen(printable: Bytes -> bool, e: JournalEntry, rest: Bytes)
    ensures EntryText(printable, e) + rest ==
            CursorLine(e) +
            (RealtimeLine(e) + (MonotonicLine(e) + (BootLine(e) + (FieldsBytes(printable, e.fields) + rest))))
  {
    hide CursorLine, RealtimeLine, MonotonicLine, BootLine, FieldsBytes;
    var fields := FieldsBytes(printable, e.fields);
    var boot := BootLine(e) + fields;
    var monotonic := MonotonicLine(e) + boot;
    var realtime := RealtimeLine(e) + monotonic;
    Associate(CursorLine(e), realtime, rest);
    Associate(RealtimeLine(e), monotonic, rest);
    Associate(MonotonicLine(e), boot, rest);
    Associate(BootLine(e), fields, rest);
  }

  // ---- and nothing else does ---------------------------------------------------------

  lemma {:induction false} DecimalUnique(s: Bytes, t: Bytes)
    requires DecimalValue(s) >= 0 && IsDecimal(s, DecimalValue(s)) && IsDecimal(t, DecimalValue(s))
    ensures s == t
    decreases |s|
  {
    PositiveDecimal(s);
    PositiveDecimal(t);
    if |s| > 1 && |t| > 1 {
      var a, b := s[..|s| - 1], t[..|t| - 1];
      assert s[|s| - 1] == t[|t| - 1] && DecimalValue(a) == DecimalValue(b);
      assert a[0] == s[0] && b[0] == t[0];
      DecimalUnique(a, b);
      assert s == a + [s[|s| - 1]] && t == b + [t[|t| - 1]];
    } else {
      assert |s| == |t| == 1;
      assert s[..0] == [] && t[..0] == [];
    }
  }

  /** More than one digit without a leading zero is at least ten. */
  lemma {:induction false} PositiveDecimal(s: Bytes)
    requires s != [] && forall i :: 0 <= i < |s| ==> '0' as int <= s[i] <= '9' as int
    requires |s| > 1 ==> s[0] != '0' as int
    ensures DecimalValue(s) >= 0 && (|s| == 1 ==> DecimalValue(s) < 10) && (|s| > 1 ==> DecimalValue(s) >= 10)
  {
    var a := s[..|s| - 1];
    if |s| == 1 {
      assert a == [];
    } else if |s| == 2 {
      assert a[..0] == [] && DecimalValue(a) == a[0] as int - '0' as int;
    } else {
      PositiveDecimal(a);
    }
  }

  lemma LineIs(s: Bytes)
    requires NEWLINE in s
    ensures s == s[..IndexOf(s, NEWLINE)] + [NEWLINE] + NextLine(s)
  {
  }

  lemma NumberUnique(s: Bytes, t: Bytes, x: Bytes, n: nat)
    requires ReadsNumber(s, x, n) && ReadsNumber(t, x, n)
    ensures s[..IndexOf(s, NEWLINE)] == t[..IndexOf(t, NEWLINE)]
  {
    hide DecimalValue;
    var i, j := IndexOf(s, NEWLINE), IndexOf(t, NEWLINE);
    DecimalUnique(s[|x|..i], t[|x|..j]);
    assert s[..i] == s[..|x|] + s[|x|..i] && t[..j] == t[..|x|] + t[|x|..j];
  }

  lemma SameLine(s: Bytes, t: Bytes)
    requires NEWLINE in s && NEWLINE in t && s[..IndexOf(s, NEWLINE)] == t[..IndexOf(t, NEWLINE)]
    ensures NextLine(s) == NextLine(t) ==> s == t
  {
    hide NextLine;
    LineIs(s);
    LineIs(t);
  }

  lemma SameHeader(s: Bytes, t: Bytes, e: JournalEntry)
    requires ReadsHeader(s, e) && ReadsHeader(t, e)
    ensures BehindHeader(s) == BehindHeader(t) ==> s == t
  {
    hide IndexOf, NextLine, IsDecimal;
    var s1, t1 := NextLine(s), NextLine(t);
    var s2, t2 := NextLine(s1), NextLine(t1);
    var s3, t3 := NextLine(s2), NextLine(t2);
    SameLine(s3, t3);
    NumberUnique(s2, t2, Ascii("__MONOTONIC_TIMESTAMP="), e.monotonic);
    SameLine(s2, t2);
    NumberUnique(s1, t1, Ascii("__REALTIME_TIMESTAMP="), e.realtime);
    SameLine(s1, t1);
    SameLine(s, t);
  }

  lemma SameBegin(s: Bytes, t: Bytes, x: Bytes)
    requires Begins(s, x) && Begins(t, x)
    ensures s[|x|..] == t[|x|..] ==> s == t
  {
    assert s == s[..|x|] + s[|x|..] && t == t[..|x|] + t[|x|..];
  }

  lemma SameWord(s: Bytes, t: Bytes)
    requires |s| >= 8 && |t| >= 8 && Word(s) == Word(t)
    ensures s[8..] == t[8..] ==> s == t
  {
    WordIs(s);
    WordIs(t);
    FromLittleEndianInverse(s[..8]);
    FromLittleEndianInverse(t[..8]);
    assert s == s[..8] + s[8..] && t == t[..8] + t[8..];
  }

  lemma WordIs(s: Bytes)
    requires |s| >= 8
    ensures Word(s) == FromLittleEndian(s[..8])
  {
    var w := s[..8];
    FromLittleEndianInverse(w);
    var n := FromLittleEndian(w);
    Pow256Of8();
    WordRead(n, []);
    assert LittleEndian(n, 8) + [] == w;
    assert forall i :: 0 <= i < 8 ==> w[i] == s[i];
  }

  lemma {:induction false} FieldsUnique(printable: Bytes -> bool, s: Bytes, t: Bytes, fields: seq<Bytes>,
                                        es: seq<JournalEntry>)
    requires SpellsFields(printable, s, fields, es) && SpellsFields(printable, t, fields, es)
    ensures s == t
    decreases |es| + 1, 0, |fields|
  {
    hide IndexOf, Word, ReadsHeader, BehindHeader;
    if fields == [] {
      SpellsUnique(printable, s[1..], t[1..], es);
      SameBegin(s, t, [NEWLINE]);
    } else if printable(fields[0]) {
      var f := fields[0];
      FieldsUnique(printable, s[|f| + 1..], t[|f| + 1..], fields[1..], es);
      SameBegin(s, t, f + [NEWLINE]);
    } else {
      var f := fields[0];
      var k := IndexOf(f, EQUALS);
      var value := f[k + 1..];
      var n := k + 9 + |value| + 1;
      FieldsUnique(printable, s[n..], t[n..], fields[1..], es);
      assert s[k + 9..][|value| + 1..] == s[n..] && t[k + 9..][|value| + 1..] == t[n..];
      SameBegin(s[k + 9..], t[k + 9..], value + [NEWLINE]);
      assert s[k + 1..][8..] == s[k + 9..] && t[k + 1..][8..] == t[k + 9..];
      SameWord(s[k + 1..], t[k + 1..]);
      SameBegin(s, t, f[..k] + [NEWLINE]);
    }
  }

  /** A journal has one text only. */
  lemma {:induction false} SpellsUnique(printable: Bytes -> bool, s: Bytes, t: Bytes, es: seq<JournalEntry>)
    requires Spells(printable, s, es) && Spells(printable, t, es)
    ensures s == t
    decreases |es|, 0
  {
    hide ReadsHeader, BehindHeader, SpellsFields;
    if es != [] {
      FieldsUnique(printable, BehindHeader(s), BehindHeader(t), es[0].fields, es[1..]);
      SameHeader(s, t, es[0]);
    }
  }
}
