/**
 The chunked reader of the journal gateway: entries are serialised one after the other into a
 temporary file, and the HTTP server fetches the stream piece by piece.
 */
module Gateway {
  import opened Bytes
  import opened Wrappers

  /** The place in the journal: the head, the tail whatever is there, or a cursor after a seek, later
      on an entry. The entry of a cursor is at the index, or has been there. */
  datatype Location = Head | Tail | Seek(index: nat, present: bool) | On(entry: nat)

  predicate Within(entries: seq<Bytes>, at: Location) {
    match at
    case Head => true
    case Tail => true
    case Seek(g, present) => if present then g < |entries| else g <= |entries|
    case On(e) => e < |entries|
  }

  /** real_journal_next: head, tail and the entry of a cursor are found in either direction. */
  function Step(entries: seq<Bytes>, at: Location, down: bool): (r: Option<nat>)
    requires Within(entries, at)
    ensures r.Some? ==> r.value < |entries|
  {
    match at
    case Head => if entries == [] then None else Some(0)
    case Tail => if entries == [] then None else Some(|entries| - 1)
    case Seek(g, present) =>
      if down then (if g < |entries| then Some(g) else None)
      else if present then Some(g)
      else if g > 0 then Some(g - 1) else None
    case On(e) =>
      if down then (if e + 1 < |entries| then Some(e + 1) else None)
      else if e > 0 then Some(e - 1) else None
  }

  /** Where a request begins: without skip at the first entry, or at the cursor's if it is still there; a
      skip of -k without cursor at the entry k before the last; and from one entry on to the next. */
  lemma Beginnings(entries: seq<Bytes>, g: nat, k: int)
    requires g < |entries| && k >= 0
    ensures Advance(entries, Head, 0) == Some(0)
    ensures Advance(entries, Seek(g, true), 0) == Some(g)
    ensures 0 < k < |entries| ==> Advance(entries, Tail, -k) == Some(|entries| - 1 - k)
    ensures Advance(entries, Seek(g, true), k) == Some(if g + k < |entries| then g + k else |entries| - 1)
    ensures k > 0 ==> Advance(entries, Seek(g, true), -k) == Some(if k <= g then g - k else 0)
    ensures Advance(entries, On(g), 0) == if g + 1 < |entries| then Some(g + 1) else None
  {
  }

  /** Where the reader goes next: one step, and as many more as it is to skip and there are. */
  function Advance(entries: seq<Bytes>, at: Location, skip: int): (r: Option<nat>)
    requires Within(entries, at)
    ensures r.Some? ==> r.value < |entries|
  {
    match Step(entries, at, skip >= 0)
    case None => None
    case Some(f) =>
      if skip < 0 then Some(if f + skip >= 0 then f + skip else 0)
      else Some(if f + skip < |entries| then f + skip else |entries| - 1)
  }

  /** sd_journal_next_skip and sd_journal_previous_skip, step by step: as far as there are entries, and
      nothing when there is not even one. */
  method NextSkip(entries: seq<Bytes>, at: Location, skip: int) returns (target: Option<nat>)
    requires Within(entries, at)
    ensures target == Advance(entries, at, skip)
  {
    var down := skip >= 0;
    target := Step(entries, at, down);
    if target.None? {
      return;
    }
    ghost var f := target.value;
    var left: nat := if down then skip else -skip;
    while left > 0
      invariant target.Some? && target.value < |entries|
      invariant if down then target.value + left == f + skip else target.value - left == f + skip
    {
      var next := Step(entries, On(target.value), down);
      if next.None? {
        return;
      }
      target, left := next, left - 1;
    }
  }

  function Min(a: nat, b: nat): nat {
    if a <= b then a else b
  }

  /** What a request asks for. */
  datatype Request = Request(start: Location, skip: int, limit: Option<nat>, discrete: bool, follow: bool) {
    /** In discrete mode only the entry of the cursor is wanted. */
    predicate Wants(target: nat) {
      discrete ==> start == Seek(target, true)
    }
  }

  /** request_handler_entries: the seek, and the limit of a discrete request, which needs a cursor. */
  function Parse(cursor: Option<(nat, bool)>, skip: int, limit: Option<nat>, discrete: bool, follow: bool):
    (q: Option<Request>)
    ensures q.None? <==> discrete && cursor.None?
    ensures q.Some? ==> (q.value.start.Tail? <==> cursor.None? && skip < 0) && (discrete ==> q.value.limit == Some(1))
  {
    if discrete && cursor.None? then None
    else
      var start := match cursor
                   case Some(c) => Seek(c.0, c.1)
                   case None => if skip >= 0 then Head else Tail;
      Some(Request(start, skip, if discrete then Some(1) else limit, discrete, follow))
  }

  /** The entries that a request gets when it finds its first one while the journal has `seen`
      entries: from there on, at most `limit`, and in discrete mode only the one of the cursor. */
  function Listing(entries: seq<Bytes>, seen: nat, q: Request): (r: seq<Bytes>)
    requires seen <= |entries| && Within(entries[..seen], q.start)
  {
    match Advance(entries[..seen], q.start, q.skip)
    case None => []
    case Some(f) =>
      var n := if !q.discrete then |entries| - f else if q.Wants(f) then 1 else 0;
      entries[f..f + (if q.limit.Some? then Min(n, q.limit.value) else n)]
  }

  /** The entries of a request with a cursor that is still there: from the cursor's entry on, as many as
      are asked for, and in discrete mode that entry alone. */
  lemma ListingAtCursor(entries: seq<Bytes>, g: nat, limit: Option<nat>, follow: bool)
    requires g < |entries|
    ensures Listing(entries, |entries|, Parse(Some((g, true)), 0, None, false, follow).value) == entries[g..]
    ensures limit.Some? ==>
              Listing(entries, |entries|, Parse(Some((g, true)), 0, limit, false, follow).value) ==
              entries[g..Min(g + limit.value, |entries|)]
    ensures Listing(entries, |entries|, Parse(Some((g, true)), 0, limit, true, follow).value) == [entries[g]]
  {
    assert entries[..|entries|] == entries;
  }

  datatype Fetch = Data(bytes: Bytes) | EndOfStream | EndWithError | Waiting

  /** What the journal and the file system do while an entry is fetched: entries that arrive
      while the reader waits, and whether the calls succeed. */
  datatype Env = Env(arrivals: seq<seq<Bytes>>, ok: bool)

  /** The batches of arrivals one after the other. */
  function Flat(batches: seq<seq<Bytes>>): seq<Bytes> {
    if batches == [] then [] else Flat(batches[..|batches| - 1]) + batches[|batches| - 1]
  }

  lemma FlatNext(batches: seq<seq<Bytes>>, k: nat)
    requires k < |batches|
    ensures Flat(batches[..k + 1]) == Flat(batches[..k]) + batches[k]
  {
    assert batches[..k + 1][..k] == batches[..k];
  }

  /** With these entries there is nothing to go to. */
  ghost predicate InVain(entries: seq<Bytes>, at: Location, skip: int) {
    Within(entries, at) && Advance(entries, at, skip).None?
  }

  class RequestMeta {
    const q: Request

    var entries: seq<Bytes>
    var at: Location
    var nSkip: int
    var nEntries: nat
    var tmp: Bytes
    var delta: nat
    var size: nat
    /** The first entry of the stream, how many are in it so far, and how many the journal had when the
        first one was found. */
    ghost var first: nat
    ghost var count: nat
    ghost var seen: nat

    constructor (entries: seq<Bytes>, q: Request)
      requires Within(entries, q.start)
      ensures Inv() && count == 0 && delta == 0 && this.entries == entries && this.q == q
    {
      this.q, this.entries, at, nSkip := q, entries, q.start, q.skip;
      nEntries := if q.limit.Some? then q.limit.value else 0;
      tmp, delta, size, first, count, seen := [], 0, 0, 0, 0, 0;
      new;
      assert entries[..0] == [];
    }

    /** All that was serialised so far. */
    ghost function Stream(): Bytes
      requires first + count <= |entries|
      reads this
    {
      Concat(entries[first..first + count])
    }

    /** The temporary file begins with the current entry; behind it may be the rest of a longer
        one. delta counts the entries before it. */
    ghost predicate Current()
      reads this
    {
      && first + count <= |entries|
      && if count == 0 then size == 0 && delta == 0
         else
           && size == |entries[first + count - 1]| <= |tmp| && tmp[..size] == entries[first + count - 1]
           && delta == |Concat(entries[first..first + count - 1])|
    }

    /** The stream begins where the request says, in the journal as it was when it was first found. */
    ghost predicate Began()
      reads this`entries, this`first, this`seen
    {
      && seen <= |entries| && Within(entries[..seen], q.start)
      && Advance(entries[..seen], q.start, q.skip) == Some(first)
      && (!q.follow ==> seen == |entries|)
    }

    ghost predicate Inv()
      reads this
    {
      && first + count <= |entries| && Current() && Within(entries, at) && Within(entries, q.start)
      && (q.limit.Some? ==> nEntries + count == q.limit.value)
      && (if count == 0 then at == q.start && nSkip == q.skip
          else at == On(first + count - 1) && nSkip == 0 && Began())
      && (q.discrete && count > 0 ==> q.Wants(first) && count == 1)
    }

    /** The stream is complete: the limit is reached, the journal is at its end, or the next
        entry is not the one of the cursor. */
    ghost predicate AtEnd()
      reads this
    {
      && Within(entries, at)
      && ((q.limit.Some? && nEntries == 0)
          || (!q.follow && Advance(entries, at, nSkip).None?)
          || (Advance(entries, at, nSkip).Some? && !q.Wants(Advance(entries, at, nSkip).value)))
    }

    lemma StreamLength()
      requires Current()
      ensures |Stream()| == delta + size
      ensures count > 0 ==> Stream() == Concat(entries[first..first + count - 1]) + entries[first + count - 1]
    {
      if count > 0 {
        var a, e := entries[first..first + count - 1], entries[first + count - 1];
        assert entries[first..first + count] == a + [e];
        ConcatAppend(a, e);
      } else {
        assert entries[first..first + count] == [];
      }
    }

    /** sd_journal_wait: more entries may come in at the end. */
    method Arrive(more: seq<Bytes>)
      requires Inv() && q.follow
      modifies this`entries
      ensures Inv() && entries == old(entries) + more && Stream() == old(Stream())
    {
      ghost var old' := entries;
      entries := entries + more;
      assert entries[first..first + count] == old'[first..first + count];
      if count > 0 {
        assert entries[first..first + count - 1] == old'[first..first + count - 1];
        assert entries[..seen] == old'[..seen];
      }
    }

    lemma ConcatNone(es: seq<Bytes>, k: nat)
      requires k <= |es|
      ensures Concat(es[k..k]) == []
    {
    }

    /** The next entry goes to the temporary file: over the old one, from the beginning. */
    method Serialise(target: nat)
      requires Inv() && Advance(entries, at, nSkip) == Some(target) && (q.limit.Some? ==> nEntries > 0)
      requires q.Wants(target)
      modifies this`at, this`nSkip, this`nEntries, this`tmp, this`delta, this`size, this`first, this`count, this`seen
      ensures Inv() && count == old(count) + 1 && delta == old(delta) + old(size)
      ensures if old(count) == 0 then first == target && seen == |entries| else first == old(first) && seen == old(seen)
      ensures Stream() == old(Stream()) + entries[target]
    {
      hide Concat, Advance, Step, Began;
      ghost var f := NextFirst(target);
      delta := delta + size;
      if q.limit.Some? {
        nEntries := nEntries - 1;
      }
      nSkip, at := 0, On(target);
      Overwrite(entries[target]);
      if count == 0 {
        first, seen := target, |entries|;
        BeginsHere();
      }
      count := count + 1;
      StreamLength();
    }

    lemma BeginsHere()
      requires seen == |entries| && Within(entries, q.start) && Advance(entries, q.start, q.skip) == Some(first)
      ensures Began()
    {
      assert entries[..|entries|] == entries;
    }

    /** Where the stream begins once the target is in it. */
    lemma NextFirst(target: nat) returns (f: nat)
      requires Inv() && Advance(entries, at, nSkip) == Some(target)
      ensures f + count == target && f == if count == 0 then target else first
      ensures Concat(entries[f..target]) == Stream() && |Stream()| == delta + size
    {
      hide Concat;
      StreamLength();
      f := if count == 0 then target else first;
      ConcatNone(entries, target);
      ConcatNone(entries, first);
    }

    /** rewind, and output from the beginning: a longer entry before leaves its tail behind. */
    method Overwrite(text: Bytes)
      modifies this`tmp, this`size
      ensures size == |text| <= |tmp| && tmp[..size] == text
    {
      tmp := text + (if |text| < |tmp| then tmp[|text|..] else []);
      size := |text|;
    }

    /** The journal is asked for the next entry, in follow mode until there is one. No more batches of
        arrivals are waited for than have to. */
    method Await(env: Env) returns (target: Option<nat>, why: Fetch, ghost waited: nat)
      requires Inv()
      modifies this`entries
      ensures Inv() && waited <= |env.arrivals| && entries == old(entries) + Flat(env.arrivals[..waited])
      ensures forall k :: 0 <= k < waited ==> InVain(old(entries) + Flat(env.arrivals[..k]), at, nSkip)
      ensures !q.follow || old(Advance(entries, at, nSkip)).Some? ==> waited == 0
      ensures target == Advance(entries, at, nSkip) && Stream() == old(Stream())
      ensures target.None? ==>
                if !q.follow then why == EndOfStream
                else (why == EndWithError && !env.ok) || (why == Waiting && waited == |env.arrivals|)
    {
      hide Current, Advance, Stream, Began;
      InRange();
      waited, why := 0, Waiting;
      assert env.arrivals[..0] == [];
      var k := 0;
      target := NextSkip(entries, at, nSkip);
      while target.None?
        invariant Inv() && waited == k <= |env.arrivals| && target == Advance(entries, at, nSkip)
        invariant entries == old(entries) + Flat(env.arrivals[..k])
        invariant !q.follow || old(Advance(entries, at, nSkip)).Some? ==> k == 0
        invariant forall j :: 0 <= j < k ==> InVain(old(entries) + Flat(env.arrivals[..j]), at, nSkip)
        invariant Stream() == old(Stream())
        decreases |env.arrivals| - k
      {
        if !q.follow {
          return None, EndOfStream, k;
        }
        if !env.ok {
          return None, EndWithError, k;
        }
        if k == |env.arrivals| {
          return None, Waiting, k;
        }
        FlatNext(env.arrivals, k);
        Arrive(env.arrivals[k]);
        k := k + 1;
        waited := k;
        target := NextSkip(entries, at, nSkip);
      }
    }

    /** One turn of the loop: the next entry, or the reason why there is none. */
    method NextEntry(env: Env) returns (over: Option<Fetch>, ghost waited: nat)
      requires Inv()
      modifies this
      ensures Inv() && waited <= |env.arrivals| && entries == old(entries) + Flat(env.arrivals[..waited])
      ensures forall k :: 0 <= k < waited ==> InVain(old(entries) + Flat(env.arrivals[..k]), old(at), old(nSkip))
      ensures !q.follow || old(Advance(entries, at, nSkip)).Some? ==> waited == 0 && entries == old(entries)
      ensures old(entries) <= entries && (env.arrivals == [] ==> entries == old(entries))
      ensures if over.None? then count == old(count) + 1 && delta == old(delta) + old(size)
              else count == old(count) && delta == old(delta) && size == old(size) && !over.value.Data?
      ensures over.None? && old(count) == 0 ==> seen == |entries|
      ensures old(count) > 0 || over.Some? ==> first == old(first) && seen == old(seen)
      ensures over == Some(EndOfStream) ==> AtEnd()
      ensures over == Some(Waiting) ==> q.follow && waited == |env.arrivals| && InVain(entries, at, nSkip)
      ensures over == Some(EndWithError) ==> !env.ok
      ensures old(Stream()) <= Stream() && (over.Some? ==> Stream() == old(Stream()))
    {
      hide Current, Advance, Stream, Began;
      InRange();
      assert env.arrivals[..0] == [];
      if q.limit.Some? && nEntries == 0 {
        return Some(EndOfStream), 0;
      }
      var target, why;
      target, why, waited := Await(env);
      InRange();
      if target.None? {
        return Some(why), waited;
      }
      if !q.Wants(target.value) {
        return Some(EndOfStream), waited;
      }
      if !env.ok {
        return Some(EndWithError), waited;
      }
      Serialise(target.value);
      over := None;
    }

    ghost function Left(): int
      reads this
    {
      if count == 0 then |entries| + 1 else |entries| - (first + count)
    }

    /** How far the journal reached when the request found, or looks for, its first entry. */
    ghost function Seen(): nat
      reads this
    {
      if count == 0 then |entries| else seen
    }

    /** request_reader_entries. Whatever the position and the size of the buffer, the bytes are
        those of the stream at that position. The stream begins where the request says: in the
        journal as it is if there is such an entry, else as it is when one has arrived. */
    method ReadEntries(pos: nat, max: nat, envs: seq<Env>) returns (r: Fetch)
      requires Inv() && max > 0 && pos >= delta
      modifies this
      ensures Inv() && old(entries) <= entries && (!q.follow ==> entries == old(entries)) && count >= old(count)
      ensures count > 0 ==> Began()
      ensures old(count) > 0 ==> first == old(first) && seen == old(seen)
      ensures old(count) == 0 && old(Advance(entries, q.start, q.skip)).Some? ==>
                if count == 0 then entries == old(entries) else seen == |old(entries)|
      ensures r.Data? ==> pos >= delta && pos + |r.bytes| <= |Stream()| && r.bytes == Stream()[pos..pos + |r.bytes|]
      ensures r.Data? ==> 0 < |r.bytes| <= max && (|r.bytes| < max ==> pos + |r.bytes| == |Stream()|)
      ensures r == EndOfStream ==> pos >= |Stream()| && AtEnd()
      ensures r == Waiting ==> q.follow && pos >= |Stream()| && InVain(entries, at, nSkip)
      ensures old(Stream()) <= Stream()
    {
      hide Current, Advance, AtEnd, Stream, Began;
      InRange();
      var rest: nat, k := pos - delta, 0;
      while rest >= size
        invariant Inv() && rest == pos - delta && old(entries) <= entries && (!q.follow ==> entries == old(entries))
        invariant count >= old(count) && (old(count) > 0 ==> first == old(first) && seen == old(seen))
        invariant old(Stream()) <= Stream()
        invariant old(Advance(entries, q.start, q.skip)).Some? && old(count) == 0 ==>
                    if count == 0 then entries == old(entries) else seen == |old(entries)|
        decreases if k < |envs| then |envs| - k else 0, Left()
      {
        var before := size;
        var over, _ := NextEntry(if k < |envs| then envs[k] else Env([], true));
        InRange();
        if over.Some? {
          StreamLength();
          return over.value;
        }
        rest := rest - before;
        k := k + 1;
      }
      r := Data(Piece(rest, max));
      PieceOfStream(rest, max);
    }

    lemma InRange()
      requires Inv()
      ensures first + count <= |entries| && (count == 0 ==> delta == 0 && size == 0) && (count > 0 ==> Began())
    {
    }

    /** fseeko and fread. */
    function Piece(rest: nat, max: nat): (b: Bytes)
      requires Current() && rest < size && max > 0
      reads this
      ensures |b| == Min(size - rest, max)
    {
      tmp[rest..rest + Min(size - rest, max)]
    }

    lemma PieceOfStream(rest: nat, max: nat)
      requires Current() && rest < size && max > 0
      ensures var b := Piece(rest, max);
              delta + rest + |b| <= |Stream()| && b == Stream()[delta + rest..delta + rest + |b|]
      ensures |Piece(rest, max)| < max ==> delta + rest + |Piece(rest, max)| == |Stream()|
    {
      hide Concat;
      StreamLength();
      var n := |Piece(rest, max)|;
      var head, text := Concat(entries[first..first + count - 1]), entries[first + count - 1];
      SubSlice(tmp, 0, size, rest, rest + n);
      SubSlice(head + text, |head|, |head| + size, rest, rest + n);
      assert (head + text)[|head|..|head| + size] == text;
    }

    /** At the end of the stream, what was serialised is what the request asked for. A request that
        follows the journal ends at its limit or in discrete mode only. */
    lemma EndIsListing()
      requires Inv() && AtEnd()
      ensures Seen() <= |entries| && Within(entries[..Seen()], q.start) && (!q.follow ==> Seen() == |entries|)
      ensures Stream() == Concat(Listing(entries, Seen(), q))
      ensures q.follow ==> q.limit == Some(count) || q.discrete
    {
      assert entries[..|entries|] == entries;
      var listing := Listing(entries, Seen(), q);
      if count == 0 {
        assert listing == [];
        assert entries[first..first + count] == [];
      } else {
        assert listing == entries[first..first + count];
      }
    }

    /** Any series of buffer sizes at consecutive positions: the pieces make up the stream, from where
        the request says to begin. */
    method ReadAll(maxes: seq<nat>, envs: seq<seq<Env>>) returns (out: Bytes, last: Fetch)
      requires Inv() && count == 0 && |envs| == |maxes| && forall k :: 0 <= k < |maxes| ==> maxes[k] > 0
      modifies this
      ensures Inv() && out <= Stream() && old(entries) <= entries && (!q.follow ==> entries == old(entries))
      ensures count > 0 ==> Began() && (old(Advance(entries, q.start, q.skip)).Some? ==> seen == |old(entries)|)
      ensures last == EndOfStream || last == Waiting ==> out == Stream()
      ensures last == EndOfStream ==>
                && Seen() <= |entries| && Within(entries[..Seen()], q.start) && (!q.follow ==> Seen() == |entries|)
                && out == Concat(Listing(entries, Seen(), q))
                && (q.follow ==> q.limit == Some(count) || q.discrete)
      ensures last == Waiting ==> q.follow && InVain(entries, at, nSkip)
      ensures last.Data? ==> |out| >= |maxes|
    {
      hide Current, Advance, AtEnd, Stream, Listing, Began;
      out, last := [], Data([]);
      InRange();
      for k := 0 to |maxes|
        invariant Inv() && delta <= |out| && k <= |out| && out <= Stream() && old(entries) <= entries
        invariant !q.follow ==> entries == old(entries)
        invariant old(Advance(entries, q.start, q.skip)).Some? ==>
                    if count == 0 then entries == old(entries) else seen == |old(entries)|
      {
        InRange();
        var r := ReadEntries(|out|, maxes[k], envs[k]);
        InRange();
        if !r.Data? {
          if r == EndOfStream {
            EndIsListing();
          }
          return out, r;
        }
        PrefixGrows(out, r.bytes, Stream());
        out := out + r.bytes;
      }
      InRange();
    }

    lemma PrefixGrows(a: Bytes, b: Bytes, s: Bytes)
      requires a <= s && |a| + |b| <= |s| && b == s[|a|..|a| + |b|]
      ensures a + b <= s
    {
    }
  }

  /** A request for the last two entries of a journal that is empty at first, and follows it: it gets
      the last two of the first batch that arrives. */
  method TailDelivers(batch: seq<Bytes>) returns (m: RequestMeta, over: Option<Fetch>)
    requires |batch| >= 2
    ensures over.None? && m.Inv() && m.count == 1 && m.Stream() == batch[|batch| - 2]
  {
    hide Concat, RequestMeta.Current;
    var q := Parse(None, -1, None, false, true);
    m := new RequestMeta([], q.value);
    ghost var waited;
    over, waited := m.NextEntry(Env([batch], true));
    OneBatch(batch);
    m.InRange();
    assert InVain([] + [], Tail, -1);
    assert m.entries[m.first..m.first + 1] == [] + [batch[|batch| - 2]];
    ConcatAppend([], batch[|batch| - 2]);
  }

  lemma OneBatch(batch: seq<Bytes>)
    ensures Flat([batch][..1]) == batch && Flat([batch][..0]) == [] && Concat([]) == []
  {
    FlatNext([batch], 0);
  }
}
