/** Integer text in both directions: `strconv.ParseInt(s, 16, 16)` as the
    decoder calls it, and the decimal rendering of `fmt.Sprintf("%d", n)`. */
module Strconv {
  import opened Hex

  predicate IsDecimalDigit(c: char) {
    '0' <= c <= '9'
  }

  function DigitChar(d: nat): (c: char)
    requires d < 10
    ensures IsDecimalDigit(c)
  {
    ('0' as int + d) as char
  }

  /** Decimal text of a natural number: no sign, no leading zero. */
  function FormatNat(n: nat): (s: string)
    ensures |s| >= 1
    ensures forall i :: 0 <= i < |s| ==> IsDecimalDigit(s[i])
  {
    if n < 10 then [DigitChar(n)] else FormatNat(n / 10) + [DigitChar(n % 10)]
  }

  /** `fmt.Sprintf("%d", i)`. */
  function FormatInt(i: int): string {
    if i < 0 then "-" + FormatNat(-i) else FormatNat(i)
  }

  function DecimalDigitValue(c: char): (d: nat)
    requires IsDecimalDigit(c)
    ensures d < 10
  {
    c as int - '0' as int
  }

  /** The number a string of decimal digits denotes (the inverse of `FormatNat`). */
  function DecimalValue(s: string): nat
    requires forall i :: 0 <= i < |s| ==> IsDecimalDigit(s[i])
  {
    if s == [] then 0
    else DecimalValue(s[..|s| - 1]) * 10 + DecimalDigitValue(s[|s| - 1])
  }

  lemma {:induction false} DecimalValueOfFormatNat(n: nat)
    ensures DecimalValue(FormatNat(n)) == n
  {
    if n >= 10 {
      var s := FormatNat(n);
      assert s[..|s| - 1] == FormatNat(n / 10);
      DecimalValueOfFormatNat(n / 10);
    }
  }

  /** Distinct numbers have distinct decimal texts. */
  lemma FormatNatInjective(a: nat, b: nat)
    ensures FormatNat(a) == FormatNat(b) ==> a == b
  {
    DecimalValueOfFormatNat(a);
    DecimalValueOfFormatNat(b);
  }

  /** Only zero is written with a leading `0`. */
  lemma {:induction false} FormatNatLeadingZero(n: nat)
    ensures FormatNat(n)[0] == '0' <==> n == 0
  {
    if n >= 10 {
      FormatNatLeadingZero(n / 10);
      assert FormatNat(n)[0] == FormatNat(n / 10)[0];
    }
  }

  /* ---------------- strconv.ParseInt(s, 16, 16) ---------------- */

  const MaxUint64: nat := 0xFFFF_FFFF_FFFF_FFFF
  /** The smallest n with n * 16 > MaxUint64, at which ParseUint stops with a range error. */
  const Cutoff: nat := MaxUint64 / 16 + 1

  /** Outcome of `strconv.ParseUint(s, 16, 64)`. */
  datatype UintParse = Value(n: nat) | SyntaxError | RangeError

  /** The digit loop of ParseUint: each character is first checked to be a
      digit (else a syntax error), then the accumulator against the cutoff
      (else a range error, without looking at the rest of the string). */
  function ScanHex(s: string, n: nat): (r: UintParse)
    requires n <= MaxUint64
    ensures r.Value? ==> r.n <= MaxUint64
    decreases |s|
  {
    if s == [] then Value(n)
    else if !IsHexDigit(s[0]) then SyntaxError
    else if n >= Cutoff then RangeError
    else
      var n1 := n * 16 + DigitValue(s[0]);
      if n1 > MaxUint64 then RangeError else ScanHex(s[1..], n1)
  }

  function ParseUintHex(s: string): (r: UintParse)
    ensures r.Value? ==> r.n <= MaxUint64
  {
    if s == [] then SyntaxError else ScanHex(s, 0)
  }

  /** The value `strconv.ParseInt(s, 16, 16)` returns, its error discarded:
      an optional sign, then hex digits; 0 on a syntax error; out-of-range
      magnitudes saturate to 0x7FFF or -0x8000. */
  function ParseHexInt16(s: string): (r: int)
    ensures -0x8000 <= r <= 0x7FFF
  {
    if s == [] then 0
    else
      var neg := s[0] == '-';
      var digits := if s[0] == '+' || s[0] == '-' then s[1..] else s;
      match ParseUintHex(digits)
      case SyntaxError => 0
      case RangeError => if neg then -0x8000 else 0x7FFF
      case Value(un) =>
        if !neg && un >= 0x8000 then 0x7FFF
        else if neg && un > 0x8000 then -0x8000
        else if neg then -(un as int)
        else un
  }

  /* ---------------- the value of a string of hex digits ---------------- */

  predicate AllHex(s: string) {
    forall i :: 0 <= i < |s| ==> IsHexDigit(s[i])
  }

  function Pow16(k: nat): (p: nat)
    ensures p >= 1
  {
    if k == 0 then 1 else 16 * Pow16(k - 1)
  }

  /** Big-endian value of a string of hex digits. */
  function HexValue(s: string): nat
    requires AllHex(s)
  {
    if s == [] then 0 else DigitValue(s[0]) * Pow16(|s| - 1) + HexValue(s[1..])
  }

  lemma {:induction false} HexValueBound(s: string)
    requires AllHex(s)
    ensures HexValue(s) < Pow16(|s|)
  {
    if s != [] {
      HexValueBound(s[1..]);
      var d, p := DigitValue(s[0]), Pow16(|s| - 1);
      MulMonotone(d, 15, p);
      assert HexValue(s) == d * p + HexValue(s[1..]);
      assert Pow16(|s|) == 16 * p;
    }
  }

  lemma {:induction false} Pow16Monotone(j: nat, k: nat)
    requires j <= k
    ensures Pow16(j) <= Pow16(k)
    decreases k
  {
    if j < k {
      Pow16Monotone(j, k - 1);
    }
  }

  lemma MulAtLeast(a: nat, b: nat)
    requires b >= 1
    ensures a * b >= a
  {
  }

  lemma MulMonotone(a: nat, b: nat, p: nat)
    requires a <= b
    ensures a * p <= b * p
  {
  }

  lemma Distribute(n: nat, d: nat, p: nat)
    ensures (n * 16 + d) * p == n * (16 * p) + d * p
    ensures (n + 1) * (16 * p) == ((n + 1) * 16) * p
  {
  }

  lemma Pow16Cutoff()
    ensures Pow16(15) == Cutoff
  {
    assert Pow16(1) == 0x10;
    assert Pow16(2) == 0x100;
    assert Pow16(3) == 0x1000;
    assert Pow16(4) == 0x10000;
    assert Pow16(5) == 0x100000;
    assert Pow16(6) == 0x1000000;
    assert Pow16(7) == 0x10000000;
    assert Pow16(8) == 0x100000000;
    assert Pow16(9) == 0x1000000000;
    assert Pow16(10) == 0x10000000000;
    assert Pow16(11) == 0x100000000000;
    assert Pow16(12) == 0x1000000000000;
    assert Pow16(13) == 0x10000000000000;
    assert Pow16(14) == 0x100000000000000;
    assert Pow16(15) == 0x1000000000000000;
  }

  /** One step of the digit loop when neither check stops it. */
  lemma ScanHexStep(s: string, n: nat)
    requires s != [] && IsHexDigit(s[0]) && n < Cutoff && n * 16 + DigitValue(s[0]) <= MaxUint64
    ensures ScanHex(s, n) == ScanHex(s[1..], n * 16 + DigitValue(s[0]))
  {
  }

  /** A character that is not a digit stops the loop with a syntax error. */
  lemma ScanHexNotDigit(s: string, n: nat)
    requires s != [] && !IsHexDigit(s[0]) && n <= MaxUint64
    ensures ScanHex(s, n) == SyntaxError
  {
  }

  /** Without overflow, the digit loop computes the big-endian value. */
  lemma {:induction false} ScanHexValue(s: string, n: nat)
    requires AllHex(s)
    requires (n + 1) * Pow16(|s|) <= Cutoff
    ensures ScanHex(s, n) == Value(n * Pow16(|s|) + HexValue(s))
    decreases |s|
  {
    if s != [] {
      var d, p := DigitValue(s[0]), Pow16(|s| - 1);
      assert Pow16(|s|) == 16 * p;
      MulAtLeast(n + 1, Pow16(|s|));
      var n1 := n * 16 + d;
      MulMonotone(n1 + 1, (n + 1) * 16, p);
      Distribute(n, d, p);
      ScanHexStep(s, n);
      ScanHexValue(s[1..], n1);
    }
  }

  /** A value of at most k digits, extended by one digit, has at most k + 1
      digits, and stays below the cutoff while k + 1 <= 15. */
  lemma NextBelow(n: nat, d: nat, k: nat)
    requires n < Pow16(k) && d < 16 && k + 1 <= 15
    ensures n * 16 + d < Pow16(k + 1) && n * 16 + d < Cutoff
  {
    assert Pow16(k + 1) == 16 * Pow16(k);
    Pow16Cutoff();
    Pow16Monotone(k + 1, 15);
  }

  /** A character that is not a hex digit, reached before any overflow, is
      a syntax error. */
  lemma {:induction false} ScanHexSyntax(s: string, n: nat, k: nat, i: nat)
    requires n < Pow16(k) && n < Cutoff && k + |s| <= 16
    requires i < |s| && !IsHexDigit(s[i])
    ensures ScanHex(s, n) == SyntaxError
    decreases |s|
  {
    if IsHexDigit(s[0]) {
      assert i >= 1 && s[1..][i - 1] == s[i];
      var d := DigitValue(s[0]);
      NextBelow(n, d, k);
      ScanHexStep(s, n);
      ScanHexSyntax(s[1..], n * 16 + d, k + 1, i - 1);
    } else {
      ScanHexNotDigit(s, n);
    }
  }

  /** Up to 15 hex digits parse to their value. */
  lemma ParseUintHexValue(s: string)
    requires s != [] && |s| <= 15 && AllHex(s)
    ensures ParseUintHex(s) == Value(HexValue(s))
  {
    Pow16Monotone(|s|, 15);
    Pow16Cutoff();
    assert (0 + 1) * Pow16(|s|) == Pow16(|s|) <= Cutoff;
    ScanHexValue(s, 0);
    assert 0 * Pow16(|s|) + HexValue(s) == HexValue(s);
  }

  /** A port field of four hex digits below 0x8000 renders as its value. */
  lemma PortBelowSignBit(s: string)
    requires |s| == 4 && AllHex(s) && HexValue(s) < 0x8000
    ensures FormatInt(ParseHexInt16(s)) == FormatNat(HexValue(s))
  {
    ParseUintHexValue(s);
  }

  /** A port field of four hex digits at or above 0x8000 saturates: the
      signed 16-bit parse reports a range error and returns 0x7FFF. */
  lemma PortSaturates(s: string)
    requires |s| == 4 && AllHex(s) && HexValue(s) >= 0x8000
    ensures ParseHexInt16(s) == 0x7FFF
    ensures FormatInt(ParseHexInt16(s)) == "32767"
  {
    ParseUintHexValue(s);
    Decimal32767();
  }

  /** Any four-digit port field denotes an unsigned 16-bit number, and the
      signed parse returns it when it is below 0x8000 and 0x7FFF otherwise. */
  lemma PortValue(s: string)
    requires |s| == 4 && AllHex(s)
    ensures HexValue(s) < 0x10000
    ensures ParseHexInt16(s) == if HexValue(s) < 0x8000 then HexValue(s) else 0x7FFF
  {
    HexValueBound(s);
    assert Pow16(4) == 0x10000;
    ParseUintHexValue(s);
  }

  lemma Decimal32767()
    ensures FormatNat(32767) == "32767"
  {
    assert FormatNat(32) == "32";
    assert FormatNat(327) == FormatNat(32) + "7";
    assert FormatNat(3276) == FormatNat(327) + "6";
    assert FormatNat(32767) == FormatNat(3276) + "7";
  }

  /** A field that is empty, or holds a non-hex character within its first
      16 (and is not signed), parses to 0 and renders as "0". */
  lemma PortSyntaxError(s: string)
    requires s == [] || (|s| <= 16 && s[0] != '+' && s[0] != '-'
                         && exists i :: 0 <= i < |s| && !IsHexDigit(s[i]))
    ensures ParseHexInt16(s) == 0
    ensures FormatInt(ParseHexInt16(s)) == "0"
  {
    if s != [] {
      var i :| 0 <= i < |s| && !IsHexDigit(s[i]);
      ScanHexSyntax(s, 0, 0, i);
    }
  }
}
