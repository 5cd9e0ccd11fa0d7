/** import_verify: the digest of the image has to be listed, under the name of the image, in the file of
    checksums, and that file may have to be signed. */
module ImportVerify {
  import opened Wrappers
  import opened Bytes
  import opened ImportJobs
  import opened ImportRaw

  const EBADMSG := -74
  const FILENAME_MAX := 4096
  const SPACE: Byte := 32
  const STAR: Byte := 42
  const SLASH: Byte := 47
  const DOT: Byte := 46

  predicate FileNameIsValid(fn: Bytes) {
    fn != [] && SLASH !in fn && fn != [DOT] && fn != [DOT, DOT] && |fn| <= FILENAME_MAX
  }

  /** memmem. */
  function Find(hay: Bytes, needle: Bytes): (r: Option<nat>)
    ensures r.Some? ==> OccursAt(hay, needle, r.value)
    ensures forall j | 0 <= j && (r.Some? ==> j < r.value) :: !OccursAt(hay, needle, j)
  {
    if |hay| < |needle| then None
    else if hay[..|needle|] == needle then Some(0)
    else
      var r := Find(hay[1..], needle);
      OccursLater(hay, needle);
      if r.Some? then Some(r.value + 1) else None
  }

  predicate OccursAt(hay: Bytes, needle: Bytes, j: nat) {
    j + |needle| <= |hay| && hay[j..j + |needle|] == needle
  }

  lemma OccursLater(hay: Bytes, needle: Bytes)
    requires hay != []
    ensures forall j: nat | j > 0 :: OccursAt(hay, needle, j) <==> OccursAt(hay[1..], needle, j - 1)
  {
    forall j: nat | j > 0
      ensures OccursAt(hay, needle, j) <==> OccursAt(hay[1..], needle, j - 1)
    {
      if j + |needle| <= |hay| {
        SubSlice(hay, 1, |hay|, j - 1, j - 1 + |needle|);
        assert hay[1..] == hay[1..|hay|];
      }
    }
  }

  /** The first occurrence of the line has to be where a line begins. */
  predicate Accepts(sums: Bytes, line: Bytes) {
    var p := Find(sums, line);
    p.Some? && (p.value == 0 || sums[p.value - 1] == NEWLINE)
  }

  function Verify(fn: Bytes, gpg: (Bytes, Bytes) -> int, digest: Bytes, sums: Bytes, signature: Option<Bytes>): int {
    if sums == [] then EBADMSG
    else if !FileNameIsValid(fn) then EBADMSG
    else if !Accepts(sums, digest + [SPACE, STAR] + fn + [NEWLINE]) then EBADMSG
    else
      match signature
      case None => 0
      case Some(s) =>
        if s == [] then EBADMSG
        else
          var r := gpg(s, sums);
          if r > 0 then EBADMSG else r
  }

  function Verifier(fn: Bytes, gpg: (Bytes, Bytes) -> int): (Option<Bytes>, Option<Bytes>, Option<Bytes>) -> int {
    (digest: Option<Bytes>, sums: Option<Bytes>, signature: Option<Bytes>) =>
      if sums.None? || digest.None? then 0 else Verify(fn, gpg, digest.value, sums.value, signature)
  }

  // ---- what is accepted ------------------------------------------------------------

  ghost predicate EndsWith(line: Bytes, t: Bytes) {
    |t| <= |line| && line[|line| - |t|..] == t
  }

  /** The first whole line of a file that ends in t. */
  ghost function FirstEnding(sums: Bytes, t: Bytes): Option<Bytes> {
    var k := IndexOf(sums, NEWLINE);
    if k == |sums| then None
    else if EndsWith(sums[..k], t) then Some(sums[..k])
    else FirstEnding(sums[k + 1..], t)
  }

  /** A text without newline is accepted exactly when the first line that ends in it is the text itself.
      A file that lists it behind a longer line with that end is refused. */
  lemma {:induction false} AcceptsIff(sums: Bytes, t: Bytes)
    requires NEWLINE !in t
    ensures Accepts(sums, t + [NEWLINE]) <==> FirstEnding(sums, t) == Some(t)
    decreases |sums|
  {
    var line, k := t + [NEWLINE], IndexOf(sums, NEWLINE);
    if k == |sums| {
      NoLine(sums, t);
    } else if EndsWith(sums[..k], t) {
      EndsFirstLine(sums, t);
    } else {
      SkipsFirstLine(sums, t);
      AcceptsIff(sums[k + 1..], t);
    }
  }

  /** What an occurrence of a line means byte by byte. */
  lemma OccursBytes(sums: Bytes, t: Bytes, j: nat)
    requires NEWLINE !in t && OccursAt(sums, t + [NEWLINE], j)
    ensures sums[j + |t|] == NEWLINE && sums[j..j + |t|] == t
    ensures forall x :: j <= x < j + |t| ==> sums[x] != NEWLINE
  {
    var line := t + [NEWLINE];
    assert sums[j..j + |line|][|t|] == NEWLINE;
    assert sums[j..j + |t|] == sums[j..j + |line|][..|t|] == t;
    forall x | j <= x < j + |t|
      ensures sums[x] != NEWLINE
    {
      assert sums[x] == sums[j..j + |t|][x - j];
    }
  }

  lemma OccursFrom(sums: Bytes, t: Bytes, j: nat)
    requires j + |t| < |sums| && sums[j..j + |t|] == t && sums[j + |t|] == NEWLINE
    ensures OccursAt(sums, t + [NEWLINE], j)
  {
    assert sums[j..j + |t| + 1] == sums[j..j + |t|] + [sums[j + |t|]];
  }

  lemma NoneBefore(s: Bytes, b: Byte)
    ensures forall x :: 0 <= x < IndexOf(s, b) ==> s[x] != b
  {
    var k := IndexOf(s, b);
    forall x | 0 <= x < k
      ensures s[x] != b
    {
      assert s[x] in s[..k];
    }
  }

  lemma NoLine(sums: Bytes, t: Bytes)
    requires NEWLINE !in t && NEWLINE !in sums
    ensures Find(sums, t + [NEWLINE]).None?
  {
    var p := Find(sums, t + [NEWLINE]);
    if p.Some? {
      OccursBytes(sums, t, p.value);
      assert false;
    }
  }

  /** The line occurs at the end of the first line or behind it. */
  lemma OccursInLines(sums: Bytes, t: Bytes, j: nat)
    requires NEWLINE !in t && NEWLINE in sums && OccursAt(sums, t + [NEWLINE], j)
    ensures var k := IndexOf(sums, NEWLINE); j + |t| == k || j > k
  {
    OccursBytes(sums, t, j);
    NoneBefore(sums, NEWLINE);
    assert sums[IndexOf(sums, NEWLINE)] == NEWLINE;
  }

  lemma EndsFirstLine(sums: Bytes, t: Bytes)
    requires NEWLINE !in t && NEWLINE in sums && EndsWith(sums[..IndexOf(sums, NEWLINE)], t)
    ensures Accepts(sums, t + [NEWLINE]) <==> sums[..IndexOf(sums, NEWLINE)] == t
  {
    hide Find, IndexOf;
    var k := IndexOf(sums, NEWLINE);
    var j := k - |t|;
    assert sums[j..k] == sums[..k][j..] == t;
    OccursFrom(sums, t, j);
    var p := Find(sums, t + [NEWLINE]);
    OccursInLines(sums, t, p.value);
    assert p == Some(j);
    NoneBefore(sums, NEWLINE);
    assert j == 0 ==> sums[0..k] == sums[..k];
  }

  /** Behind a first line that does not end in the text, occurrences are those in the rest. */
  lemma OccursBehind(sums: Bytes, t: Bytes, k: nat, j: nat)
    requires k < |sums| && sums[k] == NEWLINE
    ensures OccursAt(sums, t, k + 1 + j) <==> OccursAt(sums[k + 1..], t, j)
  {
    if k + 1 + j + |t| <= |sums| {
      assert sums[k + 1 + j..k + 1 + j + |t|] == sums[k + 1..][j..j + |t|];
    }
  }

  lemma SkipsFirstLine(sums: Bytes, t: Bytes)
    requires NEWLINE !in t && NEWLINE in sums && !EndsWith(sums[..IndexOf(sums, NEWLINE)], t)
    ensures Accepts(sums, t + [NEWLINE]) <==> Accepts(sums[IndexOf(sums, NEWLINE) + 1..], t + [NEWLINE])
  {
    hide Find, IndexOf;
    var line, k := t + [NEWLINE], IndexOf(sums, NEWLINE);
    var rest := sums[k + 1..];
    var p, q := Find(sums, line), Find(rest, line);
    if p.Some? {
      OccursBehindFirst(sums, t, p.value);
      OccursBehind(sums, line, k, p.value - k - 1);
    }
    if q.Some? {
      OccursBehind(sums, line, k, q.value);
      assert p == Some(k + 1 + q.value);
      if q.value > 0 {
        assert rest[q.value - 1] == sums[k + q.value];
      }
    }
  }

  lemma OccursAtEnd(sums: Bytes, t: Bytes, j: nat)
    requires NEWLINE !in t && OccursAt(sums, t + [NEWLINE], j)
    ensures EndsWith(sums[..j + |t|], t)
  {
    OccursBytes(sums, t, j);
    assert sums[..j + |t|][j..] == sums[j..j + |t|];
  }

  lemma OccursBehindFirst(sums: Bytes, t: Bytes, j: nat)
    requires NEWLINE !in t && NEWLINE in sums && !EndsWith(sums[..IndexOf(sums, NEWLINE)], t)
    requires OccursAt(sums, t + [NEWLINE], j)
    ensures j > IndexOf(sums, NEWLINE)
  {
    OccursInLines(sums, t, j);
    if j + |t| == IndexOf(sums, NEWLINE) {
      OccursAtEnd(sums, t, j);
      assert false;
    }
  }

  /** The whole answer. */
  lemma VerifyIff(fn: Bytes, gpg: (Bytes, Bytes) -> int, digest: Bytes, sums: Bytes, signature: Option<Bytes>)
    requires NEWLINE !in digest + [SPACE, STAR] + fn
    ensures Verify(fn, gpg, digest, sums, signature) >= 0 <==>
            && fn != [] && SLASH !in fn && fn != [DOT] && fn != [DOT, DOT] && |fn| <= FILENAME_MAX
            && FirstEnding(sums, digest + [SPACE, STAR] + fn) == Some(digest + [SPACE, STAR] + fn)
            && (signature.Some? ==> signature.value != [] && gpg(signature.value, sums) == 0)
  {
    hide Accepts, Find;
    AcceptsIff(sums, digest + [SPACE, STAR] + fn);
  }

  /** A listed image is refused: an earlier line ends in its line. */
  lemma ListedAndRefused(digest: Bytes, fn: Bytes)
    requires NEWLINE !in digest + [SPACE, STAR] + fn
    ensures var t := digest + [SPACE, STAR] + fn;
            !Accepts([SPACE] + t + [NEWLINE] + t + [NEWLINE], t + [NEWLINE])
  {
    var t := digest + [SPACE, STAR] + fn;
    var sums := [SPACE] + t + [NEWLINE] + t + [NEWLINE];
    assert sums[..|t| + 1] == [SPACE] + t && NEWLINE !in [SPACE] + t && sums[|t| + 1] == NEWLINE;
    IndexOfUnique(sums, NEWLINE, |t| + 1);
    assert EndsWith([SPACE] + t, t);
    AcceptsIff(sums, t);
  }

  /** In every state of an import with this verifier: what is published was listed with the digest of the
      received bytes, in a file that was received and, if asked for, is signed; and what is not listed, or
      not signed, is not published. */
  lemma PublishedIsListed(i: RawImport, fn: Bytes, gpg: (Bytes, Bytes) -> int)
    requires i.Inv() && i.verifier == Verifier(fn, gpg)
    requires NEWLINE !in i.raw.digest(i.raw.received) + [SPACE, STAR] + fn
    ensures i.published != [] && i.verify != NoVerify ==>
              && i.checksum != null
              && FirstEnding(i.checksum.payload, i.raw.digest(i.raw.received) + [SPACE, STAR] + fn) ==
                 Some(i.raw.digest(i.raw.received) + [SPACE, STAR] + fn)
    ensures i.published != [] && i.verify == BySignature ==>
              i.checksum != null && i.signature != null && gpg(i.signature.payload, i.checksum.payload) == 0
    ensures i.verify == ByChecksum && i.crash == Alive && i.IsDone() && !i.raw.etagExists ==>
              && i.checksum != null
              && (FirstEnding(i.checksum.payload, i.raw.digest(i.raw.received) + [SPACE, STAR] + fn) !=
                  Some(i.raw.digest(i.raw.received) + [SPACE, STAR] + fn) ==>
                    i.published == [] && i.outcomes == [EBADMSG])
  {
    hide RawImport.Inv, Accepts, Find, FirstEnding;
    i.Consequences();
    var digest := i.raw.digest(i.raw.received);
    if i.checksum != null {
      VerifyIff(fn, gpg, digest, i.checksum.payload, None);
      AcceptsIff(i.checksum.payload, digest + [SPACE, STAR] + fn);
      if i.signature != null {
        VerifyIff(fn, gpg, digest, i.checksum.payload, Some(i.signature.payload));
      }
    }
  }
}
