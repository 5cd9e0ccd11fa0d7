/** Ranges of user ids: the pool that both new user ids and new group ids come from. */
module UidRanges {
  import opened Wrappers

  const UID_INVALID: nat := 0xffff_ffff

  datatype Range = Range(start: nat, nr: nat)

  /** Sorted, coalesced, and below the invalid id. */
  predicate Valid(p: seq<Range>) {
    && (forall i :: 0 <= i < |p| ==> p[i].nr > 0 && p[i].start + p[i].nr <= UID_INVALID)
    && (forall i, j :: 0 <= i < j < |p| ==> p[i].start + p[i].nr <= p[j].start)
  }

  predicate Member(p: seq<Range>, uid: nat) {
    exists i :: 0 <= i < |p| && p[i].start <= uid < p[i].start + p[i].nr
  }

  /** The first id that is looked at: one below, and in 32 bits the one below 0 is the top. */
  function Candidate(uid: nat): nat {
    if uid == 0 then UID_INVALID else uid - 1
  }

  /** The candidate is the decrement of a 32-bit number. */
  lemma CandidateWraps(uid: nat)
    requires uid <= UID_INVALID
    ensures (Candidate(uid) + 1) % 0x1_0000_0000 == uid && Candidate(uid) < 0x1_0000_0000
  {
  }

  method NextLower(p: seq<Range>, uid: nat) returns (r: Option<nat>)
    requires Valid(p) && uid <= UID_INVALID
    ensures r.Some? ==> Member(p, r.value) && r.value <= Candidate(uid) && r.value < UID_INVALID
    ensures r.Some? ==> forall m: nat | Member(p, m) :: m <= r.value || m > Candidate(uid)
    ensures r.None? ==> forall m: nat | Member(p, m) :: m > Candidate(uid)
  {
    var candidate := Candidate(uid);
    var closest: nat := UID_INVALID;
    var i := 0;
    while i < |p|
      invariant i <= |p|
      invariant closest == UID_INVALID || (Member(p, closest) && closest < candidate && closest < UID_INVALID)
      invariant closest == UID_INVALID ==> forall k :: 0 <= k < i ==> p[k].start > candidate
      invariant closest < UID_INVALID ==>
                  forall k :: 0 <= k < i ==> p[k].start > candidate || p[k].start + p[k].nr - 1 <= closest
    {
      var end := p[i].start + p[i].nr - 1;
      if p[i].start <= candidate <= end {
        return Some(candidate);
      }
      if end < candidate {
        closest := end;
      }
      i := i + 1;
    }
    r := if closest == UID_INVALID then None else Some(closest);
  }

  method Contains(p: seq<Range>, uid: nat) returns (found: bool)
    ensures found == Member(p, uid)
  {
    for i := 0 to |p|
      invariant forall k :: 0 <= k < i ==> !(p[k].start <= uid < p[k].start + p[k].nr)
    {
      if p[i].start <= uid < p[i].start + p[i].nr {
        return true;
      }
    }
    return false;
  }
}
