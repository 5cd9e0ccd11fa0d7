/**
 The receiving side of journal-remote for a passive source: bytes are pushed into a growing
 buffer, parsed in place, and every finished entry is handed to the writer.

 The methods up to ProcessData say exactly what they do to the buffer and the fields;
 SourceLayout proves what that means for the parser state the buffer holds.
 */
module RemoteSources {
  import opened Bytes
  import opened ExportParser
  import opened SourceLayout

  class RemoteSource {
    var buf: array<Byte>
    var addr: int
    var offset: nat
    var scanned: nat
    var filled: nat
    var fieldLen: nat
    var dataSize: nat
    var iov: seq<IoVec>
    var state: SourceState
    var ts: Timestamps
    var written: seq<Entry>
    ghost var clean: bool

    ghost function Snap(): Snapshot
      reads this, buf
    {
      Snapshot(buf[..], addr, offset, scanned, filled, fieldLen, dataSize, iov, state, ts, clean)
    }

    ghost predicate Valid()
      reads this, buf
    {
      SourceLayout.Valid(Snap())
    }

    ghost function View(): (p: Parser)
      requires Valid()
      reads this, buf
      ensures Proper(p) && |p.unread| == filled - offset
    {
      SourceLayout.View(Snap())
    }

    /** source_new: no buffer yet. */
    constructor ()
      ensures Valid() && View() == Start(Timestamps(0, 0), []) && written == []
      ensures fresh(buf) && buf.Length == 0 && filled == 0 && ts == Timestamps(0, 0)
    {
      buf := new Byte[0];
      addr, offset, scanned, filled, fieldLen, dataSize := 0, 0, 0, 0, 0, 0;
      iov, state, ts, written, clean := [], STATE_LINE, Timestamps(0, 0), [], true;
    }

    method IovwRebase(from: int, to: int)
      modifies this`iov
      ensures iov == Rebased(old(iov), from, to)
    {
      var i := 0;
      while i < |iov|
        invariant 0 <= i <= |iov| == |old(iov)|
        invariant forall k :: 0 <= k < i ==> iov[k] == IoVec(old(iov)[k].base - from + to, old(iov)[k].len)
        invariant forall k :: i <= k < |iov| ==> iov[k] == old(iov)[k]
      {
        iov := iov[i := IoVec(iov[i].base - from + to, iov[i].len)];
        i := i + 1;
      }
    }

    /** realloc_buffer: false stands for the NULL that a request of 0 bytes gets back when
        there is no buffer yet. The allocator may put the larger buffer anywhere. */
    method ReallocBuffer(need: nat) returns (ok: bool)
      modifies this`buf, this`addr, this`iov
      ensures Grown(old(Snap()), Snap(), need) && (buf == old(buf) || fresh(buf))
      ensures ok <==> buf.Length > 0
    {
      var from := addr;
      if buf.Length < need {
        var larger := new Byte[GreedySize(buf.Length, need)];
        forall i | 0 <= i < buf.Length {
          larger[i] := buf[i];
        }
        buf := larger;
        addr := *;
      }
      IovwRebase(from, addr);
      return buf.Length > 0;
    }

    /** The memcpy of push_data. */
    method AppendBytes(data: Bytes)
      requires filled + |data| <= buf.Length
      modifies this`filled, buf
      ensures Snap() == Appended(old(Snap()), data)
    {
      forall i | 0 <= i < |data| {
        buf[filled + i] := data[i];
      }
      filled := filled + |data|;
    }

    method PushData(data: Bytes) returns (ok: bool)
      requires Valid()
      modifies this`buf, this`addr, this`iov, this`filled, buf
      ensures Valid() && (buf == old(buf) || fresh(buf))
      ensures ok <==> data != [] || old(buf.Length) > 0
      ensures View() == if ok then Feed(old(View()), data) else old(View())
      ensures filled == if ok then old(filled) + |data| else old(filled)
      ensures buf.Length == GreedySize(old(buf.Length), old(filled) + |data|)
    {
      hide SourceLayout.Valid, SourceLayout.View, Rebased;
      ghost var s := Snap();
      InBuffer(s);
      ok := ReallocBuffer(filled + |data|);
      ghost var t := Snap();
      GrownView(s, t, filled + |data|);
      if ok {
        AppendBytes(data);
        AppendedView(t, data);
      }
    }

    /** memchr for a newline in buf[from..to). */
    method FindNewline(from: nat, to: nat) returns (c: nat)
      requires from <= to <= buf.Length
      ensures from <= c <= to && NEWLINE !in buf[from..c]
      ensures c < to ==> buf[c] == NEWLINE
    {
      c := from;
      while c < to && buf[c] != NEWLINE
        invariant from <= c <= to && NEWLINE !in buf[from..c]
      {
        assert buf[from..c + 1] == buf[from..c] + [buf[c]];
        c := c + 1;
      }
    }

    /** get_line: on success the line is buf[line..line + n) and the offset is behind it. */
    method GetLine() returns (r: Ret, line: nat, n: nat)
      requires offset <= filled <= buf.Length && scanned <= filled && state == STATE_LINE
      modifies this`scanned, this`offset
      ensures r == Continue || r == BlockedRet(old(Snap()))
      ensures r != Continue ==>
                && NEWLINE !in buf[ScanStart(old(Snap()))..filled]
                && Snap() == old(Snap()).(scanned := filled)
      ensures r == Continue ==>
                && line == old(offset) && n > 0 && ScanStart(old(Snap())) <= line + n - 1 < filled
                && Snap() == old(Snap()).(offset := line + n)
                && buf[line + n - 1] == NEWLINE && NEWLINE !in buf[ScanStart(old(Snap()))..line + n - 1]
    {
      line, n := offset, 0;
      var c := FindNewline(if scanned > offset then scanned else offset, filled);
      if c == filled {
        scanned := filled;
        r := if scanned >= DATA_SIZE_MAX then Error(ENOBUFS) else WouldBlock;
        return;
      }
      n := c + 1 - offset;
      offset := offset + n;
      return Continue, line, n;
    }

    /** iovw_put: false stands for -E2BIG. */
    method IovwPut(base: int, len: nat) returns (ok: bool)
      modifies this`iov
      ensures ok <==> |old(iov)| < ENTRY_FIELD_COUNT_MAX
      ensures iov == if ok then old(iov) + [IoVec(base, len)] else old(iov)
    {
      ok := |iov| < ENTRY_FIELD_COUNT_MAX;
      if ok {
        iov := iov + [IoVec(base, len)];
      }
    }

    /** The part of process_data that looks at a non-empty line buf[line..line + n), already
        behind the offset; s is the snapshot from before the line was consumed. */
    method ProcessTextLine(line: nat, n: nat, ghost s: Snapshot) returns (r: Ret)
      requires n > 1 && line == s.offset && line + n <= buf.Length
      requires Snap() == s.(offset := line + n, clean := false)
      modifies this`iov, this`ts, this`fieldLen, this`state, buf
      ensures Matches(TextEffect(s, line + n - 1), r, Snap())
    {
      hide ProcessDunder, StartsWith;
      var text := buf[line..line + n - 1];
      assert text == s.mem[line..line + n - 1];
      match ProcessDunder(text, ts) {
        case BadNumber(e) =>
          buf[line + n - 1] := 0;
          return Error(e);
        case Metadata(newTs) =>
          if Stamps(text) {
            buf[line + n - 1] := 0;
          }
          ts := newTs;
        case NoDunder =>
          if EQUALS in text {
            var ok := IovwPut(addr + line, n - 1);
            if !ok {
              return Error(E2BIG);
            }
          } else {
            buf[line + n - 1] := EQUALS;
            fieldLen, state := n, STATE_DATA_START;
          }
      }
      return Continue;
    }

    /** process_data in STATE_LINE. */
    method ProcessLine() returns (r: Ret)
      requires Valid() && state == STATE_LINE
      modifies this`scanned, this`offset, this`iov, this`ts, this`fieldLen, this`state, this`clean, buf
      ensures Follows(old(Snap()), r, Snap())
    {
      hide Follows, Spans, SourceLayout.View, TextEffect;
      ghost var s := Snap();
      var line, n;
      r, line, n := GetLine();
      if r != Continue {
        NoLine(s);
        return;
      }
      ScanFromStart(s, line + n - 1);
      clean := false;
      if n == 1 {
        BlankLineStep(s);
        return EntryReady;
      }
      r := ProcessTextLine(line, n, s);
      TextEffectFollows(s, line + n - 1, r, Snap());
    }

    /** fill_fixed_size on a passive source: false stands for -EWOULDBLOCK. */
    method FillFixedSize(size: nat) returns (ok: bool, data: nat)
      requires offset <= filled
      modifies this`offset
      ensures ok <==> size <= filled - old(offset)
      ensures data == old(offset) && offset == if ok then old(offset) + size else old(offset)
    {
      ok, data := filled - offset >= size, offset;
      if ok {
        offset := offset + size;
      }
    }

    /** process_data in STATE_DATA_START: read the length word. */
    method ProcessDataStart() returns (r: Ret)
      requires offset <= filled <= buf.Length
      modifies this`offset, this`dataSize, this`state
      ensures Matches(SizeEffect(old(Snap())), r, Snap())
    {
      hide FromLittleEndian;
      var ok, data := FillFixedSize(8);
      if !ok {
        return WouldBlock;
      }
      dataSize := FromLittleEndian(buf[data..data + 8]);
      assert buf[data..data + 8] == old(buf[..])[data..data + 8];
      if dataSize > DATA_SIZE_MAX {
        return Error(EINVAL);
      }
      state := if dataSize > 0 then STATE_DATA else STATE_DATA_FINISH;
      return Continue;
    }

    /** memmove inside the buffer; the two ranges may overlap. */
    method Memmove(to: nat, from: nat, n: nat)
      requires from + n <= buf.Length && to + n <= buf.Length
      modifies buf
      ensures buf[..] == Moved(old(buf[..]), to, from, n)
    {
      forall i | 0 <= i < n {
        buf[to + i] := buf[from + i];
      }
    }

    /** process_data in STATE_DATA: join name and data in place. */
    method ProcessDataBlock() returns (r: Ret)
      requires fieldLen + 8 <= offset <= filled <= buf.Length
      modifies this`offset, this`state, this`iov, buf
      ensures Matches(DataEffect(old(Snap())), r, Snap())
    {
      hide Moved;
      var ok, data := FillFixedSize(dataSize);
      if !ok {
        return WouldBlock;
      }
      var field := data - 8 - fieldLen;
      Memmove(field + 8, field, fieldLen);
      ok := IovwPut(addr + field + 8, fieldLen + dataSize);
      if !ok {
        return Error(E2BIG);
      }
      state := STATE_DATA_FINISH;
      return Continue;
    }

    /** process_data in STATE_DATA_FINISH: the newline behind the data. */
    method ProcessDataFinish() returns (r: Ret)
      requires offset <= filled <= buf.Length
      modifies this`offset, this`dataSize, this`state
      ensures Matches(ClosingEffect(old(Snap())), r, Snap())
    {
      var ok, data := FillFixedSize(1);
      if !ok {
        return WouldBlock;
      }
      if buf[data] != NEWLINE {
        return Error(EINVAL);
      }
      dataSize, state := 0, STATE_LINE;
      return Continue;
    }

    /** process_data follows the parser in every state. */
    method ProcessData() returns (r: Ret)
      requires Valid()
      modifies this`scanned, this`offset, this`iov, this`ts, this`fieldLen, this`dataSize, this`state, this`clean, buf
      ensures Follows(old(Snap()), r, Snap())
    {
      hide Follows, Spans, SourceLayout.View, SizeEffect, DataEffect, ClosingEffect;
      ghost var s := Snap();
      match state
      case STATE_LINE =>
        r := ProcessLine();
      case STATE_DATA_START =>
        r := ProcessDataStart();
        SizeEffectFollows(s, r, Snap());
      case STATE_DATA =>
        r := ProcessDataBlock();
        DataEffectFollows(s, r, Snap());
      case STATE_DATA_FINISH =>
        r := ProcessDataFinish();
        ClosingEffectFollows(s, r, Snap());
    }

    /** Reset an empty buffer; move the unread bytes down when that frees more than it keeps. */
    method Compact()
      requires offset <= filled <= buf.Length
      modifies this`offset, this`scanned, this`filled, buf
      ensures var r := Room(buf.Length, old(offset), old(filled));
              Room(buf.Length, offset, filled) == AfterEntry(r).(size := buf.Length)
      ensures offset <= filled && buf[offset..filled] == old(buf[offset..filled])
      ensures scanned == 0 || (scanned == old(scanned) && offset == old(offset))
    {
      var remain := filled - offset;
      if remain == 0 {
        offset, scanned, filled := 0, 0, 0;
      } else if offset > buf.Length - filled && offset > remain {
        // source and target do not overlap, as memcpy demands
        assert remain <= offset;
        forall i | 0 <= i < remain {
          buf[i] := buf[offset + i];
        }
        offset, scanned, filled := 0, 0, remain;
      }
    }

    /** realloc to a smaller size: the bytes from `target` on are gone, no iovec is alive. */
    method Shrink(target: nat)
      requires target <= buf.Length
      modifies this`buf, this`addr
      ensures fresh(buf) && buf[..] == old(buf[..target])
    {
      var smaller := new Byte[target];
      forall i | 0 <= i < target {
        smaller[i] := buf[i];
      }
      buf := smaller;
      addr := *;
    }

    /** Halve the buffer while the unread bytes fill less than half of it. */
    method ShrinkBuffer()
      requires offset <= filled <= buf.Length
      modifies this`buf, this`addr
      ensures buf.Length == ShrinkTarget(old(buf.Length), filled - offset)
      ensures buf == old(buf) || fresh(buf)
      ensures filled <= buf.Length ==> buf[offset..filled] == old(buf[offset..filled])
    {
      var remain := filled - offset;
      var target := buf.Length;
      while target > 16 * LINE_CHUNK && remain < target / 2
        invariant 0 <= target <= buf.Length
        invariant ShrinkTarget(target, remain) == ShrinkTarget(buf.Length, remain)
      {
        target := target / 2;
      }
      if target < buf.Length {
        Shrink(target);
      }
    }

    /** The end of process_source: drop the iovecs, compact the buffer, give memory back. */
    method FinishEntry()
      requires offset <= filled <= buf.Length
      modifies this`iov, this`buf, this`addr, this`offset, this`scanned, this`filled, this`clean, buf
      ensures Finished(old(Snap()), Snap())
      ensures buf == old(buf) || fresh(buf)
    {
      hide ShrinkTarget, AfterEntry;
      AfterEntrySteps(Room(buf.Length, offset, filled));
      iov, clean := [], true;
      Compact();
      ShrinkBuffer();
    }

    /** process_source: one step of the parser; a complete entry goes to the writer unless it
        has no fields. */
    method ProcessSource() returns (r: Ret)
      requires Valid()
      modifies this, buf
      ensures buf == old(buf) || fresh(buf)
      ensures old(written) <= written
      ensures Processed(old(Snap()), r, Snap(), written[|old(written)|..])
    {
      hide Processed, Fields, SourceLayout.Valid, Follows;
      ghost var s := Snap();
      r := ProcessData();
      if r != EntryReady {
        OtherProcessed(s, r, Snap());
        assert written[|old(written)|..] == [];
        return;
      }
      ghost var u := Snap();
      EntryReadyInBuffer(s, u);
      if |iov| > 0 {
        written := written + [Entry(ts, Fields(buf[..], addr, iov))];
      }
      ghost var out := if u.iov == [] then [] else [Entry(u.ts, Fields(u.mem, u.addr, u.iov))];
      assert written == old(written) + out;
      FinishEntry();
      EntryProcessed(s, u, Snap());
    }
  }
}
