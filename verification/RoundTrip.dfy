/**
 Sender and receiver together: what journal-upload serializes in pieces of any size,
 journal-remote reads back in pieces of any size.
 */
module RoundTrip {
  import opened Bytes
  import opened Numbers
  import opened ExportParser
  import opened SourceLayout
  import opened RemoteSources
  import opened HttpUpload
  import opened UploadFates
  import opened SteadyUploads
  import opened JournalUpload
  import opened JournalWire

  /** The only fact about utf8_is_printable_newline(_, _, false) that matters here. */
  ghost predicate RejectsNewline(printable: Bytes -> bool) {
    forall s :: printable(s) ==> NEWLINE !in s
  }

  /** A field the format can carry: a label without newline that is not metadata, and, when it
      has to be sent as binary, a label and a value that are not empty. */
  predicate FieldOk(printable: Bytes -> bool, f: Bytes) {
    var k := IndexOf(f, EQUALS);
    && k < |f| && NEWLINE !in f[..k] && !StartsWith(f, DUNDER)
    && (!printable(f) ==> 0 < k && 0 < |f| - k - 1 <= DATA_SIZE_MAX)
  }

  predicate JournalOk(printable: Bytes -> bool, e: JournalEntry) {
    && NEWLINE !in e.cursor && NEWLINE !in e.bootId && e.realtime < TWO_64 && e.monotonic < TWO_64
    && |e.fields| < ENTRY_FIELD_COUNT_MAX
    && forall k :: 0 <= k < |e.fields| ==> FieldOk(printable, e.fields[k])
  }

  /** What the receiver's writer should get: the boot id becomes the first field. */
  function Relayed(e: JournalEntry): Entry {
    Entry(Timestamps(e.realtime, e.monotonic), [BOOT_ID + e.bootId] + e.fields)
  }

  function RelayedAll(es: seq<JournalEntry>): seq<Entry> {
    if es == [] then [] else [Relayed(es[0])] + RelayedAll(es[1..])
  }

  /** The writer gets one entry per entry of the journal, with its times, its boot id and its fields. */
  lemma {:induction false} RelayedAt(es: seq<JournalEntry>, k: nat)
    requires k < |es|
    ensures |RelayedAll(es)| == |es|
    ensures var r, e := RelayedAll(es)[k], es[k];
            && r.ts.realtime == e.realtime && r.ts.monotonic == e.monotonic
            && |r.fields| == 1 + |e.fields| && r.fields[0] == Ascii("_BOOT_ID=") + e.bootId
            && forall l :: 0 <= l < |e.fields| ==> r.fields[l + 1] == e.fields[l]
    decreases |es|
  {
    if |es| > 1 {
      RelayedAt(es[1..], if k == 0 then 0 else k - 1);
    }
  }

  // ---- the serialized journal is a stream of the grammar ---------------------------

  function FieldItem(printable: Bytes -> bool, f: Bytes): Item {
    if printable(f) then Text(f)
    else var k := IndexOf(f, EQUALS); Binary(f[..k], if k < |f| then f[k + 1..] else [])
  }

  function FieldItems(printable: Bytes -> bool, fs: seq<Bytes>): seq<Item> {
    if fs == [] then [] else [FieldItem(printable, fs[0])] + FieldItems(printable, fs[1..])
  }

  function HeaderItems(e: JournalEntry): seq<Item> {
    [Text(CURSOR + e.cursor), Text(REALTIME + Decimal(e.realtime)), Text(MONOTONIC + Decimal(e.monotonic)),
     Text(BOOT_ID + e.bootId)]
  }

  function Items(printable: Bytes -> bool, e: JournalEntry): seq<Item> {
    HeaderItems(e) + FieldItems(printable, e.fields)
  }

  lemma BinaryItemBytes(f: Bytes)
    requires HasLabel(f) && !StartsWith(f, DUNDER)
    requires var k := IndexOf(f, EQUALS); NEWLINE !in f[..k] && |f| - k - 1 <= DATA_SIZE_MAX
    ensures var k := IndexOf(f, EQUALS); var i := Binary(f[..k], f[k + 1..]);
            ItemOk(i) && ItemBytes(i) == BinaryBytes(f)
  {
    hide BinaryText, StartsWith, IndexOf;
    LabelIsNoDunder(f);
  }

  lemma FieldItemBytes(printable: Bytes -> bool, f: Bytes)
    requires RejectsNewline(printable) && FieldOk(printable, f)
    ensures var i := FieldItem(printable, f); ItemOk(i) && ItemBytes(i) == FieldBytes(printable, f)
  {
    hide StartsWith, IndexOf, BinaryBytes;
    if printable(f) {
      assert f != [];
    } else {
      BinaryItemBytes(f);
    }
  }

  lemma FieldItemMeaning(printable: Bytes -> bool, f: Bytes, d: Draft)
    requires FieldOk(printable, f) && d.Draft?
    ensures AddItem(d, FieldItem(printable, f)) == AddField(d, f)
  {
    hide ProcessDunder, AddField, StartsWith;
    DunderIsDunder(f, d.ts);
    var k := IndexOf(f, EQUALS);
    assert f == f[..k] + [EQUALS] + f[k + 1..];
  }

  lemma LabelIsNoDunder(f: Bytes)
    requires !StartsWith(f, DUNDER)
    ensures !StartsWith(f[..IndexOf(f, EQUALS)], DUNDER)
  {
    var k := IndexOf(f, EQUALS);
    if k >= 2 {
      assert f[..k][..2] == f[..2];
    }
  }

  lemma {:induction false} FieldItemsBytes(printable: Bytes -> bool, fs: seq<Bytes>)
    requires RejectsNewline(printable) && forall k :: 0 <= k < |fs| ==> FieldOk(printable, fs[k])
    ensures EntryOk(FieldItems(printable, fs))
    ensures EntryBytes(FieldItems(printable, fs)) == FieldsBytes(printable, fs)
  {
    hide RejectsNewline, FieldOk, FieldItem, ItemOk, ItemBytes, FieldBytes;
    if fs != [] {
      FieldItemBytes(printable, fs[0]);
      FieldItemsBytes(printable, fs[1..]);
      assert FieldItems(printable, fs)[1..] == FieldItems(printable, fs[1..]);
    }
  }

  lemma {:induction false} FieldItemsMeaning(printable: Bytes -> bool, fs: seq<Bytes>, d: Draft)
    requires d.Draft? && |d.fields| + |fs| <= ENTRY_FIELD_COUNT_MAX
    requires forall k :: 0 <= k < |fs| ==> FieldOk(printable, fs[k])
    ensures AddItems(d, FieldItems(printable, fs)) == d.(fields := d.fields + fs)
    decreases fs
  {
    hide FieldOk, FieldItem, AddItem;
    if fs == [] {
      assert d.fields + fs == d.fields;
    } else {
      var items, d1 := FieldItems(printable, fs), AddField(d, fs[0]);
      assert items[1..] == FieldItems(printable, fs[1..]);
      FieldItemMeaning(printable, fs[0], d);
      FieldItemsMeaning(printable, fs[1..], d1);
      assert d1.fields + fs[1..] == d.fields + fs;
    }
  }

  // ---- the four header lines -------------------------------------------------------

  /** A line made of a known prefix: what process_dunder sees of it. */
  lemma PrefixedLine(prefix: Bytes, rest: Bytes)
    ensures StartsWith(prefix + rest, prefix) && (prefix + rest)[|prefix|..] == rest
  {
  }

  lemma PrefixAt(t: Bytes, prefix: Bytes, i: nat)
    requires i < |prefix|
    ensures StartsWith(t, prefix) ==> i < |t| && t[i] == prefix[i]
  {
    if StartsWith(t, prefix) {
      assert t[i] == t[..|prefix|][i];
    }
  }

  lemma CursorMeaning(cursor: Bytes, ts: Timestamps)
    ensures ProcessDunder(CURSOR + cursor, ts) == Metadata(ts)
  {
    PrefixedLine(CURSOR, cursor);
  }

  lemma RealtimeMeaning(n: nat, ts: Timestamps)
    requires n < TWO_64
    ensures ProcessDunder(REALTIME + Decimal(n), ts) == Metadata(ts.(realtime := n))
  {
    hide SafeAtollu, Decimal;
    PrefixedLine(REALTIME, Decimal(n));
    SafeAtolluOfDecimal(n);
    var t := REALTIME + Decimal(n);
    assert t[2] == REALTIME[2] == 82 && CURSOR[2] == 67;
    PrefixAt(t, CURSOR, 2);
  }

  lemma MonotonicMeaning(n: nat, ts: Timestamps)
    requires n < TWO_64
    ensures ProcessDunder(MONOTONIC + Decimal(n), ts) == Metadata(ts.(monotonic := n))
  {
    hide SafeAtollu, Decimal;
    PrefixedLine(MONOTONIC, Decimal(n));
    SafeAtolluOfDecimal(n);
    var t := MONOTONIC + Decimal(n);
    assert t[2] == MONOTONIC[2] == 77 && CURSOR[2] == 67 && REALTIME[2] == 82;
    PrefixAt(t, CURSOR, 2);
    PrefixAt(t, REALTIME, 2);
  }

  lemma BootMeaning(id: Bytes, ts: Timestamps)
    ensures ProcessDunder(BOOT_ID + id, ts).NoDunder? && EQUALS in BOOT_ID + id
  {
    hide ProcessDunder;
    var t := BOOT_ID + id;
    assert t[1] == BOOT_ID[1] == 66 && t[8] == BOOT_ID[8] == EQUALS && DUNDER[1] == 95;
    PrefixAt(t, DUNDER, 1);
    DunderIsDunder(t, ts);
  }

  lemma HeaderItemsOk(e: JournalEntry)
    requires NEWLINE !in e.cursor && NEWLINE !in e.bootId
    ensures EntryOk(HeaderItems(e))
  {
    hide Decimal, ProcessDunder;
    PrefixesAreDunder();
    PrefixedLine(CURSOR, e.cursor);
    PrefixedLine(REALTIME, Decimal(e.realtime));
    PrefixedLine(MONOTONIC, Decimal(e.monotonic));
    BootMeaning(e.bootId, Timestamps(0, 0));
    NoNewlineInPrefixes();
    StillDunder(CURSOR, e.cursor);
    StillDunder(REALTIME, Decimal(e.realtime));
    StillDunder(MONOTONIC, Decimal(e.monotonic));
  }

  lemma PrefixesAreDunder()
    ensures StartsWith(CURSOR, DUNDER) && StartsWith(REALTIME, DUNDER) && StartsWith(MONOTONIC, DUNDER)
  {
  }

  lemma NoNewlineInPrefixes()
    ensures NEWLINE !in CURSOR && NEWLINE !in REALTIME && NEWLINE !in MONOTONIC && NEWLINE !in BOOT_ID
  {
  }

  lemma StillDunder(prefix: Bytes, rest: Bytes)
    requires StartsWith(prefix, DUNDER)
    ensures StartsWith(prefix + rest, DUNDER)
  {
    assert (prefix + rest)[..|DUNDER|] == prefix[..|DUNDER|];
  }

  lemma EntryBytesCons(i: Item, items: seq<Item>)
    ensures EntryBytes([i] + items) == ItemBytes(i) + EntryBytes(items)
  {
    assert ([i] + items)[1..] == items;
  }

  lemma AddItemsCons(d: Draft, i: Item, items: seq<Item>)
    requires d.Draft?
    ensures AddItems(d, [i] + items) == AddItems(AddItem(d, i), items)
  {
    assert ([i] + items)[1..] == items;
  }

  lemma HeaderFirst(e: JournalEntry, items: seq<Item>)
    ensures var h := HeaderItems(e); h + items == [h[0]] + ([h[1]] + ([h[2]] + ([h[3]] + items)))
  {
    hide Decimal;
  }

  lemma HeaderBytes(e: JournalEntry, items: seq<Item>)
    ensures EntryBytes(HeaderItems(e) + items)
         == CursorLine(e) + (RealtimeLine(e) + (MonotonicLine(e) + (BootLine(e) + EntryBytes(items))))
  {
    hide Decimal, EntryBytes;
    var h := HeaderItems(e);
    HeaderFirst(e, items);
    EntryBytesCons(h[3], items);
    EntryBytesCons(h[2], [h[3]] + items);
    EntryBytesCons(h[1], [h[2]] + ([h[3]] + items));
    EntryBytesCons(h[0], [h[1]] + ([h[2]] + ([h[3]] + items)));
  }

  lemma HeaderMeaning(e: JournalEntry, ts: Timestamps, items: seq<Item>)
    requires e.realtime < TWO_64 && e.monotonic < TWO_64
    ensures AddItems(Draft([], ts), HeaderItems(e) + items)
         == AddItems(Draft([BOOT_ID + e.bootId], Timestamps(e.realtime, e.monotonic)), items)
  {
    hide ProcessDunder, Decimal, AddItems;
    var h := HeaderItems(e);
    var ts1, ts2 := ts.(realtime := e.realtime), Timestamps(e.realtime, e.monotonic);
    HeaderFirst(e, items);
    CursorMeaning(e.cursor, ts);
    AddItemsCons(Draft([], ts), h[0], [h[1]] + ([h[2]] + ([h[3]] + items)));
    RealtimeMeaning(e.realtime, ts);
    AddItemsCons(Draft([], ts), h[1], [h[2]] + ([h[3]] + items));
    MonotonicMeaning(e.monotonic, ts1);
    AddItemsCons(Draft([], ts1), h[2], [h[3]] + items);
    BootMeaning(e.bootId, ts2);
    AddItemsCons(Draft([], ts2), h[3], items);
    assert [] + [BOOT_ID + e.bootId] == [BOOT_ID + e.bootId];
  }

  // ---- whole journals --------------------------------------------------------------

  function Stream(printable: Bytes -> bool, es: seq<JournalEntry>): seq<seq<Item>> {
    if es == [] then [] else [Items(printable, es[0])] + Stream(printable, es[1..])
  }

  ghost predicate AllOk(printable: Bytes -> bool, es: seq<JournalEntry>) {
    RejectsNewline(printable) && forall k :: 0 <= k < |es| ==> JournalOk(printable, es[k])
  }

  lemma EntryItems(printable: Bytes -> bool, e: JournalEntry, ts: Timestamps)
    requires RejectsNewline(printable) && JournalOk(printable, e)
    ensures EntryOk(Items(printable, e)) && EntryBytes(Items(printable, e)) == EntryText(printable, e)
    ensures AddItems(Draft([], ts), Items(printable, e))
         == Draft([BOOT_ID + e.bootId] + e.fields, Timestamps(e.realtime, e.monotonic))
  {
    hide FieldOk, RejectsNewline, FieldItems, HeaderItems, EntryBytes, AddItems, ItemOk, CursorLine, RealtimeLine,
         MonotonicLine, BootLine;
    var items := FieldItems(printable, e.fields);
    HeaderItemsOk(e);
    HeaderBytes(e, items);
    FieldItemsBytes(printable, e.fields);
    HeaderMeaning(e, ts, items);
    FieldItemsMeaning(printable, e.fields, Draft([BOOT_ID + e.bootId], Timestamps(e.realtime, e.monotonic)));
  }

  /** The journal text is a stream of the grammar and means the journal's entries. */
  lemma {:induction false} JournalMeaning(printable: Bytes -> bool, es: seq<JournalEntry>, ts: Timestamps)
    requires AllOk(printable, es)
    ensures StreamOk(Stream(printable, es)) && StreamBytes(Stream(printable, es)) == JournalText(printable, es)
    ensures var i := Interpret(Stream(printable, es), ts); i.err.None? && i.out == RelayedAll(es)
    decreases es
  {
    hide JournalOk, RejectsNewline, Items, EntryOk, EntryBytes, EntryText, AddItems;
    if es != [] {
      EntryItems(printable, es[0], ts);
      var ts' := Timestamps(es[0].realtime, es[0].monotonic);
      JournalMeaning(printable, es[1..], ts');
      var s := Stream(printable, es);
      assert s[0] == Items(printable, es[0]) && s[1..] == Stream(printable, es[1..]);
    }
  }

  /** Parsing undoes serializing: the parser finds exactly the journal's entries, in order. */
  lemma ParseOfPrint(printable: Bytes -> bool, es: seq<JournalEntry>, ts: Timestamps)
    requires AllOk(printable, es)
    ensures var r := Run(Start(ts, JournalText(printable, es)));
            r.err.None? && r.out == RelayedAll(es) && WholeEntries(JournalText(printable, es))
  {
    hide AllOk, Run, Interpret, StreamOk, StreamBytes, JournalText;
    JournalMeaning(printable, es, ts);
    StreamRun(Stream(printable, es), ts);
  }

  // ---- exactly the fields the format can carry -------------------------------------

  /** Fields that the parser can produce at all. */
  predicate Carriable(f: Bytes) {
    var k := IndexOf(f, EQUALS);
    k < |f| && NEWLINE !in f[..k] && !StartsWith(f, DUNDER)
  }

  ghost predicate CarriableSoFar(p: Parser) {
    && (forall k :: 0 <= k < |p.fields| ==> Carriable(p.fields[k]))
    && (p.mode.DataStart? || p.mode.Data? ==>
          NEWLINE !in p.mode.name && EQUALS !in p.mode.name && !StartsWith(p.mode.name, DUNDER))
  }

  lemma LineCarriable(text: Bytes, ts: Timestamps)
    requires NEWLINE !in text && ProcessDunder(text, ts).NoDunder? && EQUALS in text
    ensures Carriable(text)
  {
    hide ProcessDunder, StartsWith, IndexOf;
    DunderIsDunder(text, ts);
  }

  lemma BinaryCarriable(name: Bytes, data: Bytes)
    requires NEWLINE !in name && EQUALS !in name && !StartsWith(name, DUNDER)
    ensures Carriable(name + [EQUALS] + data)
  {
    var f := name + [EQUALS] + data;
    assert f[..|name|] == name;
    IndexOfUnique(f, EQUALS, |name|);
    assert DUNDER[0] == 95 && DUNDER[1] == 95;
    if |name| >= 2 {
      assert f[..2] == name[..2];
    } else {
      PrefixAt(f, DUNDER, |name|);
    }
  }

  lemma StepCarriable(p: Parser)
    requires CarriableSoFar(p) && Step(p).Next?
    ensures CarriableSoFar(Step(p).p)
    ensures forall e, k :: e in Step(p).out && 0 <= k < |e.fields| ==> Carriable(e.fields[k])
  {
    hide ProcessDunder, StartsWith, IndexOf, Carriable, FromLittleEndian;
    match p.mode
    case Line =>
      var text := p.unread[..IndexOf(p.unread, NEWLINE)];
      if text != [] && ProcessDunder(text, p.ts).NoDunder? {
        if EQUALS in text {
          LineCarriable(text, p.ts);
        } else {
          DunderIsDunder(text, p.ts);
        }
      }
    case DataStart(_) =>
    case Data(name, size) => BinaryCarriable(name, p.unread[..size]);
    case DataFinish =>
  }

  lemma {:induction false} RunCarriable(p: Parser)
    requires Proper(p) && CarriableSoFar(p)
    ensures forall e, k :: e in Run(p).out && 0 <= k < |e.fields| ==> Carriable(e.fields[k])
    decreases |p.unread|
  {
    hide Step, Run, CarriableSoFar, Carriable;
    if Step(p).Next? {
      StepCarriable(p);
      RunNext(p);
      RunCarriable(Step(p).p);
    } else {
      RunBlocked(p);
    }
  }

  /** The field, sent alone, comes back alone. */
  ghost predicate FieldTrips(printable: Bytes -> bool, f: Bytes, ts: Timestamps) {
    var r := Run(Start(ts, FieldBytes(printable, f) + [NEWLINE]));
    r.err.None? && r.out == [Entry(ts, [f])]
  }

  lemma GoodFieldTrips(printable: Bytes -> bool, f: Bytes, ts: Timestamps)
    requires RejectsNewline(printable) && FieldOk(printable, f)
    ensures FieldTrips(printable, f, ts)
  {
    hide Run, RejectsNewline, FieldOk, Interpret, FieldBytes, FieldItem;
    FieldItemsBytes(printable, [f]);
    FieldItemsMeaning(printable, [f], Draft([], ts));
    var items := FieldItems(printable, [f]);
    assert FieldsBytes(printable, [f]) == FieldBytes(printable, f) + [NEWLINE];
    OneEntry(items, ts, [f]);
  }

  lemma OneEntry(items: seq<Item>, ts: Timestamps, fields: seq<Bytes>)
    requires EntryOk(items) && AddItems(Draft([], ts), items) == Draft(fields, ts)
    ensures var r := Run(Start(ts, EntryBytes(items)));
            r.err.None? && r.out == if fields == [] then [] else [Entry(ts, fields)]
  {
    hide Run, EntryOk, AddItems, EntryBytes;
    StreamRun([items], ts);
    assert StreamBytes([items]) == EntryBytes(items) + [] == EntryBytes(items);
  }

  lemma {:induction false} BadFieldFails(printable: Bytes -> bool, f: Bytes, ts: Timestamps)
    requires RejectsNewline(printable) && !FieldOk(printable, f) && |f| < TWO_64
    ensures !FieldTrips(printable, f, ts)
  {
    hide Run, FieldBytes, StartsWith, IndexOf, RejectsNewline;
    var p := Start(ts, FieldBytes(printable, f) + [NEWLINE]);
    if !Carriable(f) {
      RunCarriable(p);
      assert Entry(ts, [f]).fields[0] == f;
    } else {
      UnsendableBinary(printable, f, ts);
    }
  }

  lemma LabelOk(f: Bytes)
    requires Carriable(f) && IndexOf(f, EQUALS) > 0
    ensures ItemOk(Binary(f[..IndexOf(f, EQUALS)], []))
  {
    hide IndexOf, StartsWith;
    LabelIsNoDunder(f);
  }

  lemma EmptyValue(name: Bytes, ts: Timestamps)
    requires ItemOk(Binary(name, []))
    ensures Run(Start(ts, BinaryText(name, []) + [NEWLINE])).out == []
  {
    hide Run, StartsWith, BinaryText;
    var i := Binary(name, []);
    EntryBytesCons(i, []);
    AddItemsCons(Draft([], ts), i, []);
    assert [i] + [] == [i];
    OneEntry([i], ts, []);
  }

  lemma LongValue(name: Bytes, data: Bytes, ts: Timestamps)
    requires ItemOk(Binary(name, [])) && DATA_SIZE_MAX < |data| < TWO_64
    ensures Run(Start(ts, BinaryText(name, data) + [NEWLINE])).out == []
  {
    hide Run, StartsWith, LittleEndian, ProcessDunder, Step, BinaryText;
    BinaryTextSplit(name, data, [NEWLINE]);
    var tail := data + ([NEWLINE] + [NEWLINE]);
    var p := Start(ts, BinaryText(name, data) + [NEWLINE]);
    LineStep(p, name, LittleEndian(|data|, 8) + tail);
    DunderIsDunder(name, ts);
    RunNext(p);
    LongSizeStep(Step(p).p, |data|, tail);
    RunBlocked(Step(p).p);
  }

  lemma LongSizeStep(p: Parser, size: nat, tail: Bytes)
    requires p.mode.DataStart? && p.unread == LittleEndian(size, 8) + tail && DATA_SIZE_MAX < size < TWO_64
    ensures Step(p) == Failed(EINVAL)
  {
    hide IndexOf, LittleEndian, FromLittleEndian, StepText;
    Pow256Of8();
    LittleEndianRoundTrip(size, 8);
    assert p.unread[..8] == LittleEndian(size, 8);
  }

  /** A label or a value that is empty, or a value that is too long. */
  lemma UnsendableBinary(printable: Bytes -> bool, f: Bytes, ts: Timestamps)
    requires Carriable(f) && !printable(f) && |f| < TWO_64
    requires var k := IndexOf(f, EQUALS); k == 0 || k + 1 == |f| || |f| - k - 1 > DATA_SIZE_MAX
    ensures Run(Start(ts, FieldBytes(printable, f) + [NEWLINE])).out == []
  {
    hide Run, StartsWith, IndexOf, Start, BinaryText, ItemOk;
    var k := IndexOf(f, EQUALS);
    if k == 0 {
      NothingSent(ts);
    } else {
      LabelOk(f);
      if k + 1 == |f| {
        assert f[k + 1..] == [];
        EmptyValue(f[..k], ts);
      } else {
        LongValue(f[..k], f[k + 1..], ts);
      }
    }
  }

  lemma NothingSent(ts: Timestamps)
    ensures Run(Start(ts, [] + [NEWLINE])).out == []
  {
    hide Run;
    assert [] + [NEWLINE] == EntryBytes([]);
    OneEntry([], ts, []);
  }

  /** A field survives the trip exactly when it has a label without newline that is not
      metadata and, if it is sent as binary, a non-empty label and a value between one byte
      and DATA_SIZE_MAX. */
  lemma FieldTripsIff(printable: Bytes -> bool, f: Bytes, ts: Timestamps)
    requires RejectsNewline(printable) && |f| < TWO_64
    ensures FieldTrips(printable, f, ts) <==> FieldOk(printable, f)
  {
    hide FieldTrips, FieldOk, RejectsNewline;
    if FieldOk(printable, f) {
      GoodFieldTrips(printable, f, ts);
    } else {
      BadFieldFails(printable, f, ts);
    }
  }

  // ---- both programs together ------------------------------------------------------

  /** Buffers of n bytes have room for every piece that is written in one go: the header lines,
      the label lines of binary fields and their length words. */
  predicate Enough(printable: Bytes -> bool, es: seq<JournalEntry>, n: nat) {
    forall k :: 0 <= k < |es| ==> RoomFor(printable, es[k], n)
  }

  predicate RoomFor(printable: Bytes -> bool, e: JournalEntry, n: nat) {
    && |CursorLine(e)| <= n && |RealtimeLine(e)| <= n && |MonotonicLine(e)| <= n && |BootLine(e)| <= n && 8 <= n
    && forall k :: 0 <= k < |e.fields| && !printable(e.fields[k]) ==> IndexOf(e.fields[k], EQUALS) < n
  }

  lemma EnoughRoom(printable: Bytes -> bool, p: Place, n: nat)
    requires PlaceOk(printable, p) && RoomFor(printable, p.entry, n)
    ensures Need(p) <= n
  {
    hide CursorLine, RealtimeLine, MonotonicLine, BootLine;
  }

  lemma LabelPresent(printable: Bytes -> bool, p: Place)
    requires PlaceOk(printable, p) && p.state == ENTRY_BINARY_FIELD_START && JournalOk(printable, p.entry)
    ensures HasLabel(p.data)
  {
    hide StartsWith, IndexOf;
    assert FieldOk(printable, p.entry.fields[p.next - 1]);
  }

  lemma NeverAborts(printable: Bytes -> bool, es: seq<JournalEntry>, current: nat, p: Place, n: nat)
    requires AllOk(printable, es) && Enough(printable, es, n) && current < |es| && p.entry == es[current] &&
             PlaceOk(printable, p)
    ensures Need(p) <= n && (p.state == ENTRY_BINARY_FIELD_START ==> HasLabel(p.data))
  {
    hide PlaceOk, HasLabel, JournalOk, RoomFor, RejectsNewline;
    EnoughRoom(printable, p, n);
    if p.state == ENTRY_BINARY_FIELD_START {
      LabelPresent(printable, p);
    }
  }

  /** The callbacks of one transfer, with the buffer sizes the HTTP client happens to offer.
      What came out so far, followed by what remains, is the text of the journal; every
      callback with a non-empty buffer sends something until all is sent; and buffers with
      room for every piece are never refused. */
  method Pump(u: Uploader, sizes: seq<nat>) returns (aborted: bool, out: Bytes)
    requires u.Valid()
    modifies u
    ensures u.Valid() && u.entries == old(u.entries)
    ensures !aborted ==>
              Conserves(u.printable, u.entries, old(Rest(u.printable, u.entries, u.current, u.Here())), out,
                        u.current, u.Here())
    ensures !aborted && (forall k :: 0 <= k < |sizes| ==> sizes[k] > 0) ==>
              (u.state == ENTRY_DONE && u.current == |u.entries| - 1) || |sizes| <= |out|
    ensures AllOk(u.printable, u.entries) &&
            (forall k :: 0 <= k < |sizes| ==> Enough(u.printable, u.entries, sizes[k])) ==>
              !aborted
    ensures !aborted && AllOk(u.printable, u.entries)
            && old(Rest(u.printable, u.entries, u.current, u.Here())) == JournalText(u.printable, u.entries) ==>
              && SpellsPart(u.printable, out, u.entries)
              && (u.state == ENTRY_DONE && u.current == |u.entries| - 1 ==> Spells(u.printable, out, u.entries))
  {
    hide PlaceOk, Remaining, Conserves, AllOk, Enough, HasLabel, Need, Spells;
    ghost var whole := Rest(u.printable, u.entries, u.current, u.Here());
    ConservesNothing(u.printable, u.entries, u.current, u.Here());
    out := [];
    for i := 0 to |sizes|
      invariant u.Valid() && u.entries == old(u.entries)
      invariant Conserves(u.printable, u.entries, whole, out, u.current, u.Here())
      invariant (forall k :: 0 <= k < i ==> sizes[k] > 0) ==>
                  (u.state == ENTRY_DONE && u.current == |u.entries| - 1) || i <= |out|
    {
      var buf := new Byte[sizes[i]];
      ghost var before := Rest(u.printable, u.entries, u.current, u.Here());
      ghost var c0, p0 := u.current, u.Here();
      var r := u.JournalInputCallback(buf);
      if r == Abort {
        if AllOk(u.printable, u.entries) && Enough(u.printable, u.entries, sizes[i]) {
          NeverAborts(u.printable, u.entries, u.current, u.Here(), sizes[i]);
        }
        return true, out;
      }
      var piece := buf[..r.n];
      assert piece == buf[..][..r.n];
      ConservesOnward(u.printable, u.entries, whole, out, c0, p0, before, piece, u.current, u.Here());
      out := out + piece;
    }
    if AllOk(u.printable, u.entries) && whole == JournalText(u.printable, u.entries) {
      OutReads(u.printable, u.entries, out, u.current, u.Here());
    }
    return false, out;
  }

  /** The bytes of a journal as far as they were sent: they go on to its only text. */
  ghost predicate SpellsPart(printable: Bytes -> bool, out: Bytes, es: seq<JournalEntry>) {
    exists s :: out <= s && Spells(printable, s, es)
  }

  lemma {:induction false} OutReads(printable: Bytes -> bool, es: seq<JournalEntry>, out: Bytes, current: nat, p: Place)
    requires AllOk(printable, es) && Conserves(printable, es, JournalText(printable, es), out, current, p)
    ensures SpellsPart(printable, out, es)
    ensures p.state == ENTRY_DONE && current == |es| - 1 ==> Spells(printable, out, es)
  {
    hide AllOk, Rest, JournalText, Spells;
    SendableJournal(printable, es);
    JournalRead(printable, es);
    assert out <= JournalText(printable, es);
    if p.state == ENTRY_DONE && current == |es| - 1 {
      AllSent(printable, es, JournalText(printable, es), out, current, p);
    }
  }

  lemma SendableJournal(printable: Bytes -> bool, es: seq<JournalEntry>)
    requires AllOk(printable, es)
    ensures AllSendable(printable, es)
  {
    hide IndexOf, StartsWith, RejectsNewline;
    forall k | 0 <= k < |es|
      ensures NEWLINE !in es[k].cursor && NEWLINE !in es[k].bootId && Sendable(printable, es[k].fields)
    {
      assert JournalOk(printable, es[k]);
    }
  }

  lemma ConservesOnward(printable: Bytes -> bool, es: seq<JournalEntry>, whole: Bytes, out: Bytes, c0: nat, p0: Place,
                        before: Bytes, piece: Bytes, c1: nat, p1: Place)
    requires Conserves(printable, es, whole, out, c0, p0) && before == Rest(printable, es, c0, p0)
    requires Conserves(printable, es, before, piece, c1, p1)
    ensures Conserves(printable, es, whole, out + piece, c1, p1)
  {
    hide PlaceOk, Rest;
    Associate(out, piece, Rest(printable, es, c1, p1));
  }

  lemma EnoughIsPositive(printable: Bytes -> bool, es: seq<JournalEntry>, n: nat)
    requires es != [] && Enough(printable, es, n)
    ensures n > 0
  {
    assert RoomFor(printable, es[0], n);
  }

  lemma SentAtMost(printable: Bytes -> bool, es: seq<JournalEntry>, whole: Bytes, out: Bytes, current: nat, p: Place)
    requires Conserves(printable, es, whole, out, current, p)
    ensures |out| <= |whole|
  {
    hide Rest;
  }

  /** Once the last entry is done, everything has been sent. */
  lemma AllSent(printable: Bytes -> bool, es: seq<JournalEntry>, whole: Bytes, out: Bytes, current: nat, p: Place)
    requires Conserves(printable, es, whole, out, current, p) && p.state == ENTRY_DONE && current == |es| - 1
    ensures out == whole
  {
    assert es[current + 1..] == [];
    assert out + [] == out;
  }

  /** Any split of a byte string into non-empty pieces. */
  function Pieces(s: Bytes, cuts: seq<nat>): (r: seq<Bytes>)
    ensures forall k :: 0 <= k < |r| ==> r[k] != []
    decreases cuts
  {
    if s == [] then []
    else if cuts == [] then [s]
    else if cuts[0] == 0 || cuts[0] > |s| then Pieces(s, cuts[1..])
    else [s[..cuts[0]]] + Pieces(s[cuts[0]..], cuts[1..])
  }

  /** Every cutting into non-empty pieces comes about. */
  lemma {:induction false} AnyPieces(chunks: seq<Bytes>) returns (cuts: seq<nat>)
    requires forall k :: 0 <= k < |chunks| ==> chunks[k] != []
    ensures Pieces(Concat(chunks), cuts) == chunks
  {
    cuts := [];
    if chunks != [] {
      var first, rest := chunks[0], Concat(chunks[1..]);
      var behind := AnyPieces(chunks[1..]);
      cuts := [|first|] + behind;
      var s := first + rest;
      assert s[..|first|] == first && s[|first|..] == rest && cuts[1..] == behind;
      assert Pieces(s, cuts) == [first] + chunks[1..] == chunks;
    }
  }

  lemma {:induction false} PiecesConcat(s: Bytes, cuts: seq<nat>)
    ensures Concat(Pieces(s, cuts)) == s
    decreases cuts
  {
    if s != [] && cuts == [] {
      assert Concat([s]) == s + Concat([]);
    } else if s != [] && (cuts[0] == 0 || cuts[0] > |s|) {
      PiecesConcat(s, cuts[1..]);
    } else if s != [] {
      PiecesConcat(s[cuts[0]..], cuts[1..]);
      assert Pieces(s, cuts)[1..] == Pieces(s[cuts[0]..], cuts[1..]);
      assert s == s[..cuts[0]] + s[cuts[0]..];
    }
  }

  /** An upload of the journal text in the given chunks: accepted with every entry, except when a
      line waits behind too many bytes or the shrink cuts the buffer. */
  ghost predicate Delivered(es: seq<JournalEntry>, ts: Timestamps, chunks: seq<Bytes>, v: Verdict,
                            written: seq<Entry>) {
    match UploadFate(ts, chunks)
    case Waits(_, _) => v == Accepted && written == RelayedAll(es)
    case TooLong => v == Rejected(ENOBUFS) && written <= RelayedAll(es)
    case Cut => v == Crashed && written <= RelayedAll(es)
    case Broken(_) => false
  }

  lemma UploadDelivers(printable: Bytes -> bool, es: seq<JournalEntry>, ts: Timestamps, chunks: seq<Bytes>, v: Verdict,
                       written: seq<Entry>)
    requires AllOk(printable, es) && Concat(chunks) == JournalText(printable, es) && Uploaded(ts, chunks, v, written)
    ensures Delivered(es, ts, chunks, v, written)
  {
    hide AllOk, Run, WholeEntries, RelayedAll, JournalText, UploadFate;
    ParseOfPrint(printable, es, ts);
  }

  /** When delivery fails, exactly. */
  lemma DeliveredIff(es: seq<JournalEntry>, ts: Timestamps, chunks: seq<Bytes>, v: Verdict, written: seq<Entry>)
    requires Delivered(es, ts, chunks, v, written)
    ensures v == Crashed <==> exists i: nat, n: nat :: CutsIn(ts, chunks, i, n)
    ensures v == Rejected(ENOBUFS) <==> exists i: nat, n: nat :: TooLongIn(ts, chunks, i, n)
    ensures v == Accepted || v == Crashed || v == Rejected(ENOBUFS)
  {
    hide UploadFate, CutsIn, TooLongIn, RelayedAll;
    UploadCutIff(ts, chunks);
    UploadTooLongIff(ts, chunks);
  }

  // ---- journals of any length ------------------------------------------------------

  /** Entries of at most `limit` bytes in chunks of at most `most`, small against 4 line chunks. */
  ghost predicate Within(printable: Bytes -> bool, es: seq<JournalEntry>, chunks: seq<Bytes>, limit: nat, most: nat) {
    && limit + most <= 4 * LINE_CHUNK
    && (forall k :: 0 <= k < |es| ==> |EntryText(printable, es[k])| <= limit)
    && (forall k :: 0 <= k < |chunks| ==> |chunks[k]| <= most)
  }

  lemma {:induction false} StreamWithin(printable: Bytes -> bool, es: seq<JournalEntry>, limit: nat)
    requires AllOk(printable, es) && forall k :: 0 <= k < |es| ==> |EntryText(printable, es[k])| <= limit
    ensures forall k :: 0 <= k < |Stream(printable, es)| ==> |EntryBytes(Stream(printable, es)[k])| <= limit
  {
    hide JournalOk, RejectsNewline, Items, EntryBytes, EntryText;
    if es != [] {
      EntryItems(printable, es[0], Timestamps(0, 0));
      StreamWithin(printable, es[1..], limit);
    }
  }

  /** Such a journal is delivered whole, however long it is. */
  lemma SmallEntriesArrive(printable: Bytes -> bool, es: seq<JournalEntry>, ts: Timestamps, chunks: seq<Bytes>,
                           limit: nat, most: nat)
    requires AllOk(printable, es) && Concat(chunks) == JournalText(printable, es)
    requires Within(printable, es, chunks, limit, most)
    ensures UploadFate(ts, chunks).Waits?
  {
    hide AllOk, Run, JournalText, UploadFate, EntryText, EntryBytes, StreamOk, StreamBytes;
    JournalMeaning(printable, es, ts);
    StreamWithin(printable, es, limit);
    SteadyStream(ts, Stream(printable, es), chunks, limit, most);
    ParseOfPrint(printable, es, ts);
    UploadRuns(ts, chunks);
  }

  /** Serialize in pieces of any sizes, cut the bytes anywhere, and feed them to a receiver:
      the writer gets the same entries, in order, with equal timestamps and fields. */
  method Relay(printable: Bytes -> bool, entries: seq<JournalEntry>, sizes: seq<nat>, cuts: seq<nat>)
    returns (sent: bool, v: Verdict, written: seq<Entry>)
    requires entries != [] && AllOk(printable, entries)
    ensures sent ==> Delivered(entries, Timestamps(0, 0), Pieces(JournalText(printable, entries), cuts), v, written)
    ensures forall limit: nat, most: nat ::
              sent && Within(printable, entries, Pieces(JournalText(printable, entries), cuts), limit, most) ==>
                v == Accepted && written == RelayedAll(entries)
    ensures (forall k :: 0 <= k < |sizes| ==> Enough(printable, entries, sizes[k])) ==>
              sent || |sizes| <= |JournalText(printable, entries)|
  {
    hide AllOk, Enough, PlaceOk, Remaining, Conserves, JournalText, Uploaded, UploadFate, SourceLayout.Valid,
         SourceLayout.View, Concat, Within, RelayedAll;
    v, written := Ok, [];
    var u := new Uploader(printable, false, entries);
    ghost var whole := Rest(printable, entries, u.current, u.Here());
    var aborted, text := Pump(u, sizes);
    sent := !aborted && u.state == ENTRY_DONE && u.current == |entries| - 1;
    if forall k :: 0 <= k < |sizes| ==> Enough(printable, entries, sizes[k]) {
      forall k | 0 <= k < |sizes| ensures sizes[k] > 0 {
        EnoughIsPositive(printable, entries, sizes[k]);
      }
      SentAtMost(printable, entries, whole, text, u.current, u.Here());
    }
    if sent {
      AllSent(printable, entries, whole, text, u.current, u.Here());
      v, written := Receive(printable, entries, Pieces(text, cuts), text, cuts);
    }
  }

  /** The receiving half. */
  method Receive(printable: Bytes -> bool, entries: seq<JournalEntry>, pieces: seq<Bytes>, ghost text: Bytes,
                 ghost cuts: seq<nat>)
    returns (v: Verdict, written: seq<Entry>)
    requires AllOk(printable, entries) && text == JournalText(printable, entries) && pieces == Pieces(text, cuts)
    ensures Delivered(entries, Timestamps(0, 0), pieces, v, written)
    ensures forall limit: nat, most: nat :: Within(printable, entries, pieces, limit, most) ==>
                                              v == Accepted && written == RelayedAll(entries)
  {
    hide AllOk, JournalText, Uploaded, UploadFate, SourceLayout.Valid, SourceLayout.View, Concat, Within, RelayedAll;
    PiecesConcat(text, cuts);
    var source := new RemoteSource();
    v := Upload(source, pieces);
    written := source.written;
    assert written[0..] == written;
    UploadDelivers(printable, entries, Timestamps(0, 0), pieces, v, written);
    forall limit: nat, most: nat | Within(printable, entries, pieces, limit, most)
      ensures v == Accepted && written == RelayedAll(entries)
    {
      SmallEntriesArrive(printable, entries, Timestamps(0, 0), pieces, limit, most);
    }
  }
}
