/** Decimal printing (USEC_FMT) and the C-library number reader behind safe_atollu. */
module Numbers {
  import opened Bytes

  const MINUS: Byte := 45
  const PLUS: Byte := 43
  const ZERO: Byte := 48

  function Decimal(n: nat): (s: Bytes)
    ensures |s| > 0
    ensures forall i :: 0 <= i < |s| ==> ZERO <= s[i] < ZERO + 10
  {
    if n < 10 then [ZERO + n] else Decimal(n / 10) + [ZERO + n % 10]
  }

  datatype Atollu = Value(n: nat) | Einval | Erange

  predicate IsSpace(b: Byte) {
    9 <= b <= 13 || b == 32
  }

  /** The value of a digit character, or 36 for anything else. */
  function DigitOf(b: Byte): (d: nat)
    ensures d <= 36
  {
    if ZERO <= b < ZERO + 10 then b - ZERO
    else if 97 <= b <= 122 then b - 87
    else if 65 <= b <= 90 then b - 55
    else 36
  }

  function SkipSpaces(s: Bytes): (r: Bytes)
    ensures |r| <= |s|
  {
    if s != [] && IsSpace(s[0]) then SkipSpaces(s[1..]) else s
  }

  /** Number of leading digits of s in the given base. */
  function DigitRun(s: Bytes, base: nat): (k: nat)
    ensures k <= |s|
  {
    if s != [] && DigitOf(s[0]) < base then 1 + DigitRun(s[1..], base) else 0
  }

  function DigitsValue(s: Bytes, base: nat): nat {
    if s == [] then 0
    else DigitsValue(s[..|s| - 1], base) * base + DigitOf(s[|s| - 1])
  }

  /** Base detection of strtoull with base 0: "0x" needs a hex digit after it, "0" means octal. */
  function DetectBase(s: Bytes): (nat, Bytes) {
    if |s| >= 3 && s[0] == ZERO && (s[1] == 120 || s[1] == 88) && DigitOf(s[2]) < 16 then (16, s[2..])
    else if |s| >= 1 && s[0] == ZERO then (8, s)
    else (10, s)
  }

  /** safe_atollu: strtoull(s, &x, 0) of the C string in s, rejecting an empty number,
      trailing characters and overflow. A minus sign negates modulo 2^64. */
  function SafeAtollu(text: Bytes): Atollu {
    var s := SkipSpaces(text[..IndexOf(text, 0)]);
    var negative := s != [] && s[0] == MINUS;
    var unsigned := if s != [] && (s[0] == MINUS || s[0] == PLUS) then s[1..] else s;
    var (base, digits) := DetectBase(unsigned);
    var k := DigitRun(digits, base);
    var v := DigitsValue(digits[..k], base);
    if k > 0 && v >= TWO_64 then Erange
    else if k == 0 || k < |digits| then Einval
    else Value(if negative then (TWO_64 - v) % TWO_64 else v)
  }

  lemma {:induction false} DigitsValueOfDecimal(n: nat)
    ensures DigitsValue(Decimal(n), 10) == n
  {
    if n < 10 {
      assert Decimal(n)[..0] == [];
    } else {
      DigitsValueOfDecimal(n / 10);
      assert Decimal(n)[..|Decimal(n)| - 1] == Decimal(n / 10);
    }
  }

  lemma {:induction false} DigitRunOfDigits(s: Bytes)
    requires forall i :: 0 <= i < |s| ==> ZERO <= s[i] < ZERO + 10
    ensures DigitRun(s, 10) == |s|
  {
    if s != [] {
      DigitRunOfDigits(s[1..]);
    }
  }

  lemma {:induction false} DecimalHasNoLeadingZero(n: nat)
    requires n > 0
    ensures Decimal(n)[0] != ZERO
  {
    if n >= 10 {
      DecimalHasNoLeadingZero(n / 10);
    }
  }

  /** The reader undoes the printer on every 64-bit value. */
  lemma SafeAtolluOfDecimal(n: nat)
    requires n < TWO_64
    ensures SafeAtollu(Decimal(n)) == Value(n)
  {
    var s := Decimal(n);
    assert 0 !in s;
    assert s[..IndexOf(s, 0)] == s;
    assert !IsSpace(s[0]) && s[0] != MINUS && s[0] != PLUS;
    assert SkipSpaces(s) == s;
    if n == 0 {
      assert s == [ZERO];
      assert DigitRun(s, 8) == 1 + DigitRun(s[1..], 8);
      assert s[..1] == s && s[..0] == [];
      assert DigitsValue(s, 8) == DigitsValue([], 8) * 8 + 0;
    } else {
      DecimalHasNoLeadingZero(n);
      DigitRunOfDigits(s);
      DigitsValueOfDecimal(n);
      assert s[..|s|] == s;
    }
  }

  /** A value above 64 bits is out of range. */
  lemma SafeAtolluTooLarge(n: nat)
    requires n >= TWO_64
    ensures SafeAtollu(Decimal(n)) == Erange
  {
    var s := Decimal(n);
    assert 0 !in s;
    assert s[..IndexOf(s, 0)] == s;
    assert SkipSpaces(s) == s;
    DecimalHasNoLeadingZero(n);
    DigitRunOfDigits(s);
    DigitsValueOfDecimal(n);
    assert s[..|s|] == s;
  }

  /** A minus sign negates modulo 2^64, a plus sign does nothing. */
  lemma SafeAtolluSigned(sign: Byte, n: nat)
    requires 0 < n < TWO_64 && (sign == 45 || sign == 43)
    ensures SafeAtollu([sign] + Decimal(n)) == Value(if sign == 45 then TWO_64 - n else n)
  {
    var s, text := Decimal(n), [sign] + Decimal(n);
    assert 0 !in s && text[0] == sign && text[1..] == s && s[..|s|] == s;
    assert text[..IndexOf(text, 0)] == text;
    DecimalHasNoLeadingZero(n);
    DigitRunOfDigits(s);
    DigitsValueOfDecimal(n);
    hide DigitsValue, DigitRun, Decimal;
  }

  /** Something else behind the number is an error. */
  lemma SafeAtolluTrailing(n: nat, b: Byte)
    requires 0 < n < TWO_64 && b != 0 && DigitOf(b) >= 10
    ensures SafeAtollu(Decimal(n) + [b]) == Einval
  {
    var s, text := Decimal(n), Decimal(n) + [b];
    assert 0 !in text;
    assert text[..IndexOf(text, 0)] == text;
    assert text[0] == s[0];
    assert SkipSpaces(text) == text;
    DecimalHasNoLeadingZero(n);
    DigitRunStops(s, b);
    DigitsValueOfDecimal(n);
    assert text[..|s|] == s;
  }

  lemma {:induction false} DigitRunStops(s: Bytes, b: Byte)
    requires (forall i :: 0 <= i < |s| ==> ZERO <= s[i] < ZERO + 10) && DigitOf(b) >= 10
    ensures DigitRun(s + [b], 10) == |s|
  {
    if s != [] {
      DigitRunStops(s[1..], b);
      assert (s + [b])[1..] == s[1..] + [b];
    }
  }

  /** A leading space does not matter, and nothing is no number. */
  lemma SafeAtolluSpace(b: Byte, s: Bytes)
    requires b == 32 || 9 <= b <= 13
    ensures SafeAtollu([b] + s) == SafeAtollu(s) && SafeAtollu([]) == Einval
  {
    hide DigitRun, DigitsValue;
    var text, n := [b] + s, IndexOf(s, 0);
    assert text[1..] == s;
    assert IndexOf(text, 0) == n + 1;
    hide IndexOf;
    assert text[..n + 1] == [b] + s[..n] && ([b] + s[..n])[1..] == s[..n];
  }

  /** The digits that are understood. */
  lemma DigitOfCharacter(d: nat)
    requires d < 16
    ensures DigitOf("0123456789abcdef"[d] as int) == DigitOf("0123456789ABCDEF"[d] as int) == d
  {
  }

  /** Digits behind "0x" or "0X" are hexadecimal, behind "0" octal. */
  lemma SafeAtolluHex(x: Byte, h: Bytes)
    requires h != [] && (forall i :: 0 <= i < |h| ==> DigitOf(h[i]) < 16) && DigitsValue(h, 16) < TWO_64
    requires x == 120 || x == 88
    ensures SafeAtollu([48, x] + h) == Value(DigitsValue(h, 16))
  {
    hide DigitsValue, DigitRun;
    var text := [48, x] + h;
    assert 0 !in h && text[0] == 48 && text[1] == x && text[2] == h[0];
    assert text[2..] == h && h[..|h|] == h;
    assert text[..IndexOf(text, 0)] == text;
    assert DetectBase(text) == (16, h);
    RunOfDigits(h, 16);
    hide IndexOf, DetectBase;
  }

  lemma SafeAtolluOctal(h: Bytes)
    requires h != [] && h[0] == 48 && (forall i :: 0 <= i < |h| ==> DigitOf(h[i]) < 8) && DigitsValue(h, 8) < TWO_64
    ensures SafeAtollu(h) == Value(DigitsValue(h, 8))
  {
    hide DigitsValue, DigitRun;
    assert 0 !in h && h[..|h|] == h;
    assert h[..IndexOf(h, 0)] == h;
    assert |h| > 1 ==> DigitOf(h[1]) < 8;
    RunOfDigits(h, 8);
    hide IndexOf;
  }

  lemma {:induction false} RunOfDigits(h: Bytes, base: nat)
    requires forall i :: 0 <= i < |h| ==> DigitOf(h[i]) < base
    ensures DigitRun(h, base) == |h|
  {
    if h != [] {
      RunOfDigits(h[1..], base);
    }
  }

  /** The value of digits, most significant first. */
  lemma {:induction false} DigitsValueAt(s: Bytes, base: nat, k: nat)
    requires k < |s|
    ensures DigitsValue(s, base) == DigitsValue(s[..k], base) * Power(base, |s| - k) + DigitsValue(s[k..], base)
  {
    var n := |s| - 1;
    assert s[..n][..k] == s[..k] && s[k..][..n - k] == s[..n][k..] && s[k..][n - k] == s[n];
    if k < n {
      DigitsValueAt(s[..n], base, k);
      Distribute(DigitsValue(s[..k], base), Power(base, n - k), DigitsValue(s[..n][k..], base), base);
    } else {
      assert s[k..][..0] == [] && Power(base, 1) == base * Power(base, 0);
    }
  }

  function Power(base: nat, k: nat): nat {
    if k == 0 then 1 else base * Power(base, k - 1)
  }

  lemma Distribute(a: nat, p: nat, b: nat, c: nat)
    ensures (a * p + b) * c == a * (c * p) + b * c
  {
  }
}
