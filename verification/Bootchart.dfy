/**
 The process tree of the boot chart: the walk that paints it, and the ten largest consumers.
 */
module Bootchart {
  import opened Wrappers

  /** The links of a process; processes are numbered. */
  datatype Ps = Ps(parent: Option<nat>, children: Option<nat>, next: Option<nat>)

  type Store = seq<Ps>

  /** No process is its own ancestor: ranks fall on the way up. */
  ghost predicate Acyclic(s: Store, rank: seq<nat>) {
    && |rank| == |s|
    && forall i :: 0 <= i < |s| && s[i].parent.Some? ==> s[i].parent.value < |s| && rank[s[i].parent.value] < rank[i]
  }

  // ---- the tree behind the links ---------------------------------------------------

  datatype Tree = Node(id: nat, kids: seq<Tree>)

  /** The links spell the tree t, below the given parent and before the given sibling. */
  ghost predicate Linked(s: Store, t: Tree, parent: Option<nat>, next: Option<nat>) {
    && t.id < |s| && s[t.id].parent == parent && s[t.id].next == next
    && s[t.id].children == FirstId(t.kids)
    && LinkedAll(s, t.kids, Some(t.id))
  }

  ghost predicate LinkedAll(s: Store, ts: seq<Tree>, parent: Option<nat>) {
    ts != [] ==> Linked(s, ts[0], parent, FirstId(ts[1..])) && LinkedAll(s, ts[1..], parent)
  }

  function FirstId(ts: seq<Tree>): Option<nat> {
    if ts == [] then None else Some(ts[0].id)
  }

  function Preorder(t: Tree): (r: seq<nat>)
    ensures r != [] && r[0] == t.id
  {
    [t.id] + PreorderAll(t.kids)
  }

  function PreorderAll(ts: seq<Tree>): (r: seq<nat>)
    ensures FirstId(ts) == if r == [] then None else Some(r[0])
  {
    if ts == [] then [] else Preorder(ts[0]) + PreorderAll(ts[1..])
  }

  // ---- the walk --------------------------------------------------------------------

  /** Where the walk goes when a subtree is finished: the next sibling, or that of the nearest
      ancestor that has one. */
  ghost function After(s: Store, rank: seq<nat>, i: nat): Option<nat>
    requires Acyclic(s, rank) && i < |s|
    decreases rank[i]
  {
    if s[i].next.Some? then s[i].next
    else if s[i].parent.Some? then After(s, rank, s[i].parent.value)
    else None
  }

  ghost function Next(s: Store, rank: seq<nat>, i: nat): Option<nat>
    requires Acyclic(s, rank) && i < |s|
  {
    if s[i].children.Some? then s[i].children else After(s, rank, i)
  }

  /** get_next_ps, for a process. */
  method GetNextPs(s: Store, i: nat, ghost rank: seq<nat>) returns (r: Option<nat>)
    requires Acyclic(s, rank) && i < |s|
    ensures r == Next(s, rank, i)
  {
    if s[i].children.Some? {
      return s[i].children;
    }
    if s[i].next.Some? {
      return s[i].next;
    }
    var ps: nat := i;
    while true
      invariant ps < |s| && s[ps].next.None? && After(s, rank, ps) == After(s, rank, i)
      decreases rank[ps]
    {
      if s[ps].parent.Some? && s[s[ps].parent.value].next.Some? {
        return s[s[ps].parent.value].next;
      }
      if s[ps].parent.None? {
        return None;
      }
      ps := s[ps].parent.value;
    }
  }

  /** order is a piece of the walk that ends before `last`. */
  ghost predicate Follows(s: Store, rank: seq<nat>, order: seq<nat>, last: Option<nat>)
    requires Acyclic(s, rank)
  {
    && (forall k :: 0 <= k < |order| ==> order[k] < |s|)
    && (forall k :: 0 <= k < |order| - 1 ==> Next(s, rank, order[k]) == Some(order[k + 1]))
    && (order != [] ==> Next(s, rank, order[|order| - 1]) == last)
  }

  lemma FollowsConcat(s: Store, rank: seq<nat>, a: seq<nat>, b: seq<nat>, last: Option<nat>)
    requires Acyclic(s, rank) && a != [] && b != [] && Follows(s, rank, a, Some(b[0])) && Follows(s, rank, b, last)
    ensures Follows(s, rank, a + b, last)
  {
    hide Next;
    var c := a + b;
    forall k | 0 <= k < |c| - 1
      ensures Next(s, rank, c[k]) == Some(c[k + 1])
    {
      if k >= |a| {
        assert c[k] == b[k - |a|] && c[k + 1] == b[k - |a| + 1];
      }
    }
  }

  /** Inside a subtree the walk is the preorder. */
  lemma {:induction false} WalkTree(s: Store, rank: seq<nat>, t: Tree, parent: Option<nat>, next: Option<nat>)
    requires Acyclic(s, rank) && Linked(s, t, parent, next)
    ensures Follows(s, rank, Preorder(t), After(s, rank, t.id))
    decreases t, 0
  {
    if t.kids == [] {
      assert Preorder(t) == [t.id];
    } else {
      WalkForest(s, rank, t.kids, t.id);
      FollowsConcat(s, rank, [t.id], PreorderAll(t.kids), After(s, rank, t.id));
    }
  }

  lemma {:induction false} WalkForest(s: Store, rank: seq<nat>, ts: seq<Tree>, parent: nat)
    requires Acyclic(s, rank) && parent < |s| && ts != [] && LinkedAll(s, ts, Some(parent))
    ensures Follows(s, rank, PreorderAll(ts), After(s, rank, parent))
    decreases ts, 1
  {
    WalkTree(s, rank, ts[0], Some(parent), FirstId(ts[1..]));
    if |ts| == 1 {
      assert PreorderAll(ts[1..]) == [];
      assert PreorderAll(ts) == Preorder(ts[0]);
    } else {
      WalkForest(s, rank, ts[1..], parent);
      FollowsConcat(s, rank, Preorder(ts[0]), PreorderAll(ts[1..]), After(s, rank, parent));
    }
  }

  /** A walk that comes to an end meets no process twice. */
  lemma {:induction false} WalkIsDistinct(s: Store, rank: seq<nat>, order: seq<nat>, i: nat, j: nat)
    requires Acyclic(s, rank) && Follows(s, rank, order, None) && i < j < |order|
    ensures order[i] != order[j]
    decreases |order| - j
  {
    hide Next;
    assert Next(s, rank, order[i]) == Some(order[i + 1]);
    assert Next(s, rank, order[j]) == if j + 1 < |order| then Some(order[j + 1]) else None;
    if j + 1 < |order| {
      WalkIsDistinct(s, rank, order, i + 1, j + 1);
    }
  }

  /** The loop over all processes: from the first one until get_next_ps returns nothing, each
      linked process once, parents before children and siblings in order. */
  method Walk(s: Store, first: Option<nat>, ghost t: Tree, ghost rank: seq<nat>) returns (visited: seq<nat>)
    requires Acyclic(s, rank) && (first.Some? ==> t.id == first.value && Linked(s, t, None, None))
    ensures visited == if first.Some? then Preorder(t) else []
    ensures forall i, j :: 0 <= i < j < |visited| ==> visited[i] != visited[j]
  {
    ghost var order := if first.Some? then Preorder(t) else [];
    if first.Some? {
      WalkTree(s, rank, t, None, None);
      assert After(s, rank, t.id) == None;
    }
    visited := [];
    var ps := first;
    while ps.Some?
      invariant |visited| <= |order| && visited == order[..|visited|]
      invariant ps == if |visited| < |order| then Some(order[|visited|]) else None
      decreases |order| - |visited|
    {
      visited := visited + [ps.value];
      ps := GetNextPs(s, ps.value, rank);
    }
    forall i, j | 0 <= i < j < |visited|
      ensures visited[i] != visited[j]
    {
      WalkIsDistinct(s, rank, order, i, j);
    }
  }

  // ---- the top ten -----------------------------------------------------------------

  const TEN: nat := 10

  /** A place in the list; an empty one counts as zero. */
  datatype Slot = Empty | Used(id: nat)

  type Totals = nat -> real

  function Amount(total: Totals, x: Slot): real {
    match x
    case Empty => 0.0
    case Used(i) => total(i)
  }

  /** The first place that holds less than x, or the length of the list. */
  function Rank(total: Totals, top: seq<Slot>, x: nat): (n: nat)
    ensures n <= |top| && (forall k :: 0 <= k < n ==> total(x) <= Amount(total, top[k]))
    ensures n < |top| ==> total(x) > Amount(total, top[n])
  {
    if top == [] || total(x) > Amount(total, top[0]) then 0 else 1 + Rank(total, top[1..], x)
  }

  /** x in its place, and the last one out. */
  function Inserted(total: Totals, top: seq<Slot>, x: nat): (r: seq<Slot>)
    ensures |r| == |top|
  {
    var n := Rank(total, top, x);
    if n == |top| then top else top[..n] + [Used(x)] + top[n..|top| - 1]
  }

  /** The cascade insert, in place. */
  method CascadeInsert(total: Totals, top: array<Slot>, ps: nat)
    requires top.Length == TEN
    modifies top
    ensures top[..] == Inserted(total, old(top[..]), ps)
  {
    ghost var before := top[..];
    var n := 0;
    while n < TEN
      invariant n <= TEN && top[..] == before
      invariant forall k :: 0 <= k < n ==> total(ps) <= Amount(total, before[k])
    {
      if total(ps) <= Amount(total, top[n]) {
        n := n + 1;
        continue;
      }
      RankIs(total, before, ps, n);
      Cascade(top, n);
      top[n] := Used(ps);
      assert top[..] == before[..n] + [Used(ps)] + before[n..TEN - 1];
      return;
    }
    RankIs(total, before, ps, TEN);
  }

  lemma RankIs(total: Totals, top: seq<Slot>, x: nat, n: nat)
    requires n <= |top| && (forall k :: 0 <= k < n ==> total(x) <= Amount(total, top[k]))
    requires n < |top| ==> total(x) > Amount(total, top[n])
    ensures Rank(total, top, x) == n
  {
  }

  /** Everything from place n on moves down by one. */
  method Cascade(top: array<Slot>, n: nat)
    requires n < top.Length
    modifies top
    ensures forall k :: 0 <= k <= n ==> top[k] == old(top[k])
    ensures forall k :: n < k < top.Length ==> top[k] == old(top[k - 1])
  {
    var m := top.Length - 1;
    while m > n
      invariant n <= m < top.Length
      invariant forall k :: 0 <= k <= m ==> top[k] == old(top[k])
      invariant forall k :: m < k < top.Length ==> top[k] == old(top[k - 1])
    {
      top[m] := top[m - 1];
      m := m - 1;
    }
  }

  // ---- the reference: a stable sort ------------------------------------------------

  /** x behind everything that is at least as large. */
  function Place(total: Totals, l: seq<nat>, x: nat): (r: seq<nat>)
    ensures |r| == |l| + 1
  {
    if l == [] || total(x) > total(l[0]) then [x] + l else [l[0]] + Place(total, l[1..], x)
  }

  /** The processes with a positive amount, largest first, ties in the order of the walk. */
  function Ranking(total: Totals, visited: seq<nat>): seq<nat> {
    if visited == [] then []
    else
      var n := |visited| - 1;
      var l := Ranking(total, visited[..n]);
      if total(visited[n]) > 0.0 then Place(total, l, visited[n]) else l
  }

  ghost predicate Descending(total: Totals, l: seq<nat>) {
    forall i, j :: 0 <= i < j < |l| ==> total(l[i]) >= total(l[j])
  }

  /** The elements with one given amount, in order. */
  ghost function WithAmount(total: Totals, l: seq<nat>, v: real): seq<nat> {
    if l == [] then []
    else (if total(l[0]) == v then [l[0]] else []) + WithAmount(total, l[1..], v)
  }

  lemma {:induction false} WithAmountConcat(total: Totals, a: seq<nat>, b: seq<nat>, v: real)
    ensures WithAmount(total, a + b, v) == WithAmount(total, a, v) + WithAmount(total, b, v)
  {
    if a == [] {
      assert a + b == b;
    } else {
      assert (a + b)[1..] == a[1..] + b;
      WithAmountConcat(total, a[1..], b, v);
    }
  }

  lemma {:induction false} PlaceDescends(total: Totals, l: seq<nat>, x: nat)
    requires Descending(total, l)
    ensures Descending(total, Place(total, l, x))
    ensures forall y :: y in Place(total, l, x) <==> y == x || y in l
  {
    if l != [] && !(total(x) > total(l[0])) {
      PlaceDescends(total, l[1..], x);
      assert l == [l[0]] + l[1..];
      var r := Place(total, l[1..], x);
      forall j | 0 <= j < |r|
        ensures total(l[0]) >= total(r[j])
      {
        assert r[j] in r;
      }
    }
  }

  /** Placing is stable: among equals the newcomer is last. */
  lemma {:induction false} PlaceIsStable(total: Totals, l: seq<nat>, x: nat, v: real)
    requires Descending(total, l)
    ensures WithAmount(total, Place(total, l, x), v) == WithAmount(total, l, v) + (if total(x) == v then [x] else [])
  {
    if l == [] || total(x) > total(l[0]) {
      if total(x) == v {
        NoneThatLarge(total, l, v);
      }
      assert ([x] + l)[1..] == l;
    } else {
      PlaceIsStable(total, l[1..], x, v);
      assert ([l[0]] + Place(total, l[1..], x))[1..] == Place(total, l[1..], x);
    }
  }

  lemma {:induction false} NoneThatLarge(total: Totals, l: seq<nat>, v: real)
    requires forall y :: y in l ==> total(y) < v
    ensures WithAmount(total, l, v) == []
  {
    if l != [] {
      NoneThatLarge(total, l[1..], v);
    }
  }

  /** The ranking is the stable descending sort of the positive amounts. */
  lemma {:induction false} RankingIsStableSort(total: Totals, visited: seq<nat>, v: real)
    ensures Descending(total, Ranking(total, visited))
    ensures forall y :: y in Ranking(total, visited) <==> y in visited && total(y) > 0.0
    ensures v > 0.0 ==> WithAmount(total, Ranking(total, visited), v) == WithAmount(total, visited, v)
  {
    if visited != [] {
      var n := |visited| - 1;
      var l, x := Ranking(total, visited[..n]), visited[n];
      RankingIsStableSort(total, visited[..n], v);
      assert visited == visited[..n] + [x];
      WithAmountConcat(total, visited[..n], [x], v);
      assert WithAmount(total, [x], v) == if total(x) == v then [x] else [];
      PlaceDescends(total, l, x);
      PlaceIsStable(total, l, x, v);
    }
  }

  // ---- the list refines the sort ---------------------------------------------------

  /** The first ten of a ranking, and empty places behind it. */
  function Padded(l: seq<nat>): (top: seq<Slot>)
    ensures |top| == TEN && forall k :: 0 <= k < TEN ==> top[k] == if k < |l| then Used(l[k]) else Empty
  {
    seq(TEN, k => if 0 <= k < |l| then Used(l[k]) else Empty)
  }

  /** Where x goes in a ranking. */
  function Spot(total: Totals, l: seq<nat>, x: nat): (p: nat)
    ensures p <= |l| && (forall k :: 0 <= k < p ==> total(x) <= total(l[k])) && (p < |l| ==> total(x) > total(l[p]))
  {
    if l == [] || total(x) > total(l[0]) then 0 else 1 + Spot(total, l[1..], x)
  }

  lemma {:induction false} PlaceAtSpot(total: Totals, l: seq<nat>, x: nat)
    ensures var p := Spot(total, l, x); Place(total, l, x) == l[..p] + [x] + l[p..]
  {
    if l == [] || total(x) > total(l[0]) {
      assert l[..0] + [x] + l[0..] == [x] + l;
    } else {
      PlaceAtSpot(total, l[1..], x);
      var p := Spot(total, l[1..], x);
      assert [l[0]] + (l[1..][..p] + [x] + l[1..][p..]) == l[..p + 1] + [x] + l[p + 1..];
    }
  }

  lemma PadInsert(l: seq<nat>, x: nat, p: nat)
    requires p <= |l|
    ensures var m := l[..p] + [x] + l[p..];
            Padded(m) == if p < TEN then Padded(l)[..p] + [Used(x)] + Padded(l)[p..TEN - 1] else Padded(l)
  {
    hide Padded;
    var m, top := l[..p] + [x] + l[p..], Padded(l);
    var r := if p < TEN then top[..p] + [Used(x)] + top[p..TEN - 1] else top;
    assert |m| == |l| + 1;
    forall k | 0 <= k < TEN
      ensures Padded(m)[k] == r[k]
    {
      if k < p {
        assert k < |l| ==> m[k] == l[k];
      } else if k > p {
        assert k - 1 < |l| ==> m[k] == l[k - 1];
        assert r[k] == top[k - 1];
      }
    }
  }

  lemma InsertRefinesPlace(total: Totals, l: seq<nat>, x: nat)
    requires forall y :: y in l ==> total(y) > 0.0
    ensures Inserted(total, Padded(l), x) == Padded(if total(x) > 0.0 then Place(total, l, x) else l)
  {
    hide Rank, Padded, Place, Spot;
    var top := Padded(l);
    assert forall k :: 0 <= k < TEN && k < |l| ==> l[k] in l && top[k] == Used(l[k]);
    if total(x) <= 0.0 {
      RankIs(total, top, x, TEN);
    } else {
      var p := Spot(total, l, x);
      PlaceAtSpot(total, l, x);
      PadInsert(l, x, p);
      RankIs(total, top, x, if p < TEN then p else TEN);
    }
  }

  /** svg_top_ten_cpu and svg_top_ten_pss: the list is a stable sort, cut after ten. */
  method TopTen(total: Totals, visited: seq<nat>) returns (top: array<Slot>)
    ensures fresh(top) && top[..] == Padded(Ranking(total, visited))
  {
    top := new Slot[TEN](_ => Empty);
    assert top[..] == Padded([]);
    assert visited[..0] == [];
    for k := 0 to |visited|
      invariant top[..] == Padded(Ranking(total, visited[..k]))
    {
      RankingIsStableSort(total, visited[..k], 0.0);
      InsertRefinesPlace(total, Ranking(total, visited[..k]), visited[k]);
      CascadeInsert(total, top, visited[k]);
      assert visited[..k + 1][..k] == visited[..k];
    }
    assert visited[..|visited|] == visited;
  }
}
