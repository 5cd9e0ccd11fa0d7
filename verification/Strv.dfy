/** String vectors: dropping duplicates and sorting, as used for the member lists of groups. */
module Strv {

  /** strcmp. */
  predicate Less(a: string, b: string) {
    if b == "" then false
    else if a == "" then true
    else if a[0] != b[0] then a[0] < b[0]
    else Less(a[1..], b[1..])
  }

  /** The first position at which two strings differ decides; a string is less than one that goes on. */
  lemma {:induction false} LessAt(a: string, b: string, k: nat)
    requires k <= |a| && k <= |b| && a[..k] == b[..k]
    ensures k < |a| && k < |b| && a[k] != b[k] ==> (Less(a, b) <==> a[k] < b[k])
    ensures k == |a| ==> (Less(a, b) <==> k < |b|)
    ensures k == |b| ==> !Less(a, b)
    decreases k
  {
    if k > 0 {
      assert a[0] == a[..k][0] == b[..k][0] == b[0];
      assert a[1..][..k - 1] == a[..k][1..] && b[1..][..k - 1] == b[..k][1..];
      LessAt(a[1..], b[1..], k - 1);
    }
  }

  lemma {:induction false} LessTotal(a: string, b: string)
    ensures a == b || Less(a, b) || Less(b, a)
    ensures !(Less(a, b) && Less(b, a))
  {
    if a != "" && b != "" && a[0] == b[0] {
      LessTotal(a[1..], b[1..]);
      if a[1..] == b[1..] {
        assert a == [a[0]] + a[1..] && b == [b[0]] + b[1..];
      }
    }
  }

  lemma {:induction false} LessTransitive(a: string, b: string, c: string)
    requires Less(a, b) && Less(b, c)
    ensures Less(a, c)
  {
    if a != "" && a[0] == b[0] == c[0] {
      LessTransitive(a[1..], b[1..], c[1..]);
    }
  }

  /** strv_remove. */
  function Without(l: seq<string>, x: string): (r: seq<string>)
    ensures |r| <= |l| && x !in r && forall y :: y != x ==> (y in r <==> y in l)
  {
    if l == [] then [] else if l[0] == x then Without(l[1..], x) else [l[0]] + Without(l[1..], x)
  }

  ghost predicate Distinct(l: seq<string>) {
    forall i, j :: 0 <= i < j < |l| ==> l[i] != l[j]
  }

  /** strv_uniq: the first of equal strings stays. */
  function Uniq(l: seq<string>): (r: seq<string>)
    ensures Distinct(r) && forall y :: y in r <==> y in l
    decreases |l|
  {
    if l == [] then [] else
      var rest := Uniq(Without(l[1..], l[0]));
      assert l[0] !in rest;
      assert l == [l[0]] + l[1..];
      [l[0]] + rest
  }

  ghost predicate Ascending(l: seq<string>) {
    forall i, j :: 0 <= i < j < |l| ==> Less(l[i], l[j])
  }

  function Insert(x: string, l: seq<string>): (r: seq<string>)
    ensures forall y :: y in r <==> y == x || y in l
  {
    if l == [] then [x]
    else if Less(x, l[0]) then [x] + l
    else
      assert l == [l[0]] + l[1..];
      [l[0]] + Insert(x, l[1..])
  }

  lemma {:induction false} InsertAscends(x: string, l: seq<string>)
    requires Ascending(l) && x !in l
    ensures Ascending(Insert(x, l))
  {
    if l != [] {
      LessTotal(x, l[0]);
      assert l == [l[0]] + l[1..];
      if Less(x, l[0]) {
        forall j | 0 < j < |l|
          ensures Less(x, l[j])
        {
          LessTransitive(x, l[0], l[j]);
        }
      } else {
        InsertAscends(x, l[1..]);
        var t := Insert(x, l[1..]);
        forall j | 0 <= j < |t|
          ensures Less(l[0], t[j])
        {
          assert t[j] in t;
        }
      }
    }
  }

  /** strv_sort. */
  function Sort(l: seq<string>): (r: seq<string>)
    ensures forall y :: y in r <==> y in l
  {
    if l == [] then []
    else
      assert l == [l[0]] + l[1..];
      Insert(l[0], Sort(l[1..]))
  }

  lemma {:induction false} SortAscends(l: seq<string>)
    requires Distinct(l)
    ensures Ascending(Sort(l))
  {
    if l != [] {
      SortAscends(l[1..]);
      InsertAscends(l[0], Sort(l[1..]));
    }
  }

  /** The member list of a group with the configured members merged in: nothing is lost, nothing
      else gets in, and the list is rewritten only if someone was missing. */
  method MergeMembers(mem: seq<string>, extra: seq<string>) returns (l: seq<string>, added: bool)
    ensures added <==> exists x :: x in extra && x !in mem
    ensures forall y :: y in l <==> y in mem || y in extra
    ensures if added then Ascending(l) else l == mem
  {
    l, added := mem, false;
    for i := 0 to |extra|
      invariant forall y :: y in l <==> y in mem || y in extra[..i]
      invariant added <==> exists x :: x in extra[..i] && x !in mem
      invariant !added ==> l == mem
    {
      assert extra[..i + 1] == extra[..i] + [extra[i]];
      if extra[i] !in l {
        l, added := l + [extra[i]], true;
        assert extra[i] in extra[..i + 1];
      }
    }
    assert extra[..|extra|] == extra;
    if added {
      SortAscends(Uniq(l));
      l := Sort(Uniq(l));
    }
  }
}
