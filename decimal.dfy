/**
 * `strconv.ParseInt(s, 10, 64)` as the verifier uses it on the timestamp header
 * (api/translation.go:144-148): an optional `+` or `-`, then one or more ASCII
 * decimal digits (leading zeros allowed), whose value must fit in an int64.
 * Every other input is an error. `FormatInt` (`strconv.FormatInt(n, 10)`) is its
 * reference inverse.
 */
module Decimal {
  import opened Wrappers
  import opened Bytes
  import opened Int64

  const Plus: byte := 0x2B
  const Minus: byte := 0x2D
  const Zero: byte := 0x30

  predicate IsDigit(c: byte) { Zero <= c <= 0x39 }

  predicate AllDigits(s: seq<byte>) { forall i :: 0 <= i < |s| ==> IsDigit(s[i]) }

  /** The value of a string of decimal digits, most significant first. */
  function DigitsValue(s: seq<byte>): nat
    requires AllDigits(s)
  {
    if s == [] then 0 else 10 * DigitsValue(s[..|s| - 1]) + (s[|s| - 1] - Zero)
  }

  /** The digits after an optional sign. */
  function Magnitude(s: seq<byte>): (m: seq<byte>)
    requires |s| > 0
    ensures m == s || m == s[1..]
  {
    if s[0] == Plus || s[0] == Minus then s[1..] else s
  }

  /** `strconv.ParseInt(s, 10, 64)`; `None` stands for both of its errors (syntax and range). */
  function ParseInt(s: seq<byte>): (r: Option<int64>)
    ensures r.Some? ==> |s| > 0 && AllDigits(s[1..]) && (IsDigit(s[0]) || s[0] == Plus || s[0] == Minus)
    ensures r.Some? ==> (r.value < 0 ==> s[0] == Minus)
  {
    if |s| == 0 then None
    else
      var digits := Magnitude(s);
      if |digits| == 0 || !AllDigits(digits) then None
      else
        var v: int := if s[0] == Minus then 0 - DigitsValue(digits) as int else DigitsValue(digits);
        if MinInt64 <= v <= MaxInt64 then Some(v) else None
  }

  /** The decimal digits of `n` without leading zeros (`"0"` for zero). */
  function FormatNat(n: nat): (s: seq<byte>)
    ensures |s| > 0 && AllDigits(s)
    ensures |s| > 1 ==> s[0] != Zero
  {
    if n < 10 then [Zero + n] else FormatNat(n / 10) + [Zero + n % 10]
  }

  /** `strconv.FormatInt(n, 10)`. */
  function FormatInt(n: int64): (s: seq<byte>)
    ensures |s| > 0
  {
    if n < 0 then [Minus] + FormatNat(-(n as int)) else FormatNat(n)
  }

  lemma {:induction false} DigitsValueOfFormat(n: nat)
    ensures DigitsValue(FormatNat(n)) == n
  {
    if n >= 10 {
      var s := FormatNat(n);
      assert s[..|s| - 1] == FormatNat(n / 10);
      DigitsValueOfFormat(n / 10);
    }
  }

  /** Every int64 survives formatting and parsing. */
  lemma ParseFormat(n: int64)
    ensures ParseInt(FormatInt(n)) == Some(n)
  {
    if n < 0 {
      DigitsValueOfFormat(-(n as int));
      assert Magnitude(FormatInt(n)) == FormatNat(-(n as int));
    } else {
      DigitsValueOfFormat(n);
    }
  }

  /** A leading zero does not change the value: `"05"` and `"5"` denote the same number. */
  lemma {:induction false} LeadingZeroIgnored(s: seq<byte>)
    requires AllDigits(s)
    ensures AllDigits([Zero] + s) && DigitsValue([Zero] + s) == DigitsValue(s)
  {
    if s != [] {
      assert ([Zero] + s)[..|s|] == [Zero] + s[..|s| - 1];
      LeadingZeroIgnored(s[..|s| - 1]);
    }
  }

  /** `k` zero digits. */
  function Zeros(k: nat): (z: seq<byte>)
    ensures |z| == k && AllDigits(z)
  {
    seq(k, i => Zero)
  }

  lemma {:induction false} ZerosIgnored(k: nat, d: seq<byte>)
    requires AllDigits(d)
    ensures AllDigits(Zeros(k) + d) && DigitsValue(Zeros(k) + d) == DigitsValue(d)
  {
    if k > 0 {
      ZerosIgnored(k - 1, d);
      assert Zeros(k) + d == [Zero] + (Zeros(k - 1) + d);
      LeadingZeroIgnored(Zeros(k - 1) + d);
    } else {
      assert Zeros(k) + d == d;
    }
  }

  /** Every non-empty digit string is zeros followed by the canonical digits of its value. */
  lemma {:induction false} ZerosThenCanonical(d: seq<byte>)
    requires |d| > 0 && AllDigits(d)
    ensures |FormatNat(DigitsValue(d))| <= |d|
    ensures d == Zeros(|d| - |FormatNat(DigitsValue(d))|) + FormatNat(DigitsValue(d))
  {
    var init, c := d[..|d| - 1], d[|d| - 1];
    assert d == init + [c];
    if init == [] {
      assert d == Zeros(0) + FormatNat(DigitsValue(d));
    } else {
      ZerosThenCanonical(init);
      var v := DigitsValue(init);
      var j := |init| - |FormatNat(v)|;
      if v == 0 {
        assert DigitsValue(d) == c - Zero;
        assert d == Zeros(j + 1) + [c];
      } else {
        assert DigitsValue(d) / 10 == v && DigitsValue(d) % 10 == c - Zero;
        assert FormatNat(DigitsValue(d)) == FormatNat(v) + [c];
        assert d == Zeros(j) + FormatNat(v) + [c];
      }
    }
  }

  /** The sign a numeral starts with: `[]`, `"+"` or `"-"`. */
  function SignOf(s: seq<byte>): (sign: seq<byte>)
    ensures sign == [] || sign == [Plus] || sign == [Minus]
    ensures sign <= s
  {
    if |s| > 0 && (s[0] == Plus || s[0] == Minus) then s[..1] else []
  }

  /**
   * `s` is a decimal numeral of `v`: an optional `+` (or `-`, when `v <= 0`), any
   * number of zeros, then the canonical digits of the magnitude of `v`.
   */
  predicate IsNumeralOf(s: seq<byte>, v: int)
  {
    var sign := SignOf(s);
    var rest := s[|sign|..];
    var canonical := FormatNat(if v < 0 then -v else v);
    && |canonical| <= |rest|
    && rest == Zeros(|rest| - |canonical|) + canonical
    && (sign == [Minus] ==> v <= 0)
    && (v < 0 ==> sign == [Minus])
  }

  /** What `ParseInt` accepts is a numeral of the value it yields. */
  lemma ParsedIsNumeral(s: seq<byte>)
    requires ParseInt(s).Some?
    ensures IsNumeralOf(s, ParseInt(s).value)
  {
    var v := ParseInt(s).value;
    var rest := s[|SignOf(s)|..];
    assert rest == Magnitude(s);
    ZerosThenCanonical(rest);
    assert FormatNat(if v < 0 then -(v as int) else v) == FormatNat(DigitsValue(rest));
  }

  /** Every numeral of an int64 value parses to that value. */
  lemma NumeralParses(s: seq<byte>, v: int64)
    requires IsNumeralOf(s, v)
    ensures ParseInt(s) == Some(v)
  {
    var sign := SignOf(s);
    var rest := s[|sign|..];
    var m: nat := if v < 0 then -(v as int) else v;
    var k := |rest| - |FormatNat(m)|;
    assert rest == Zeros(k) + FormatNat(m);
    ZerosIgnored(k, FormatNat(m));
    DigitsValueOfFormat(m);
    assert |s| > 0;
    assert rest == Magnitude(s);
    assert AllDigits(rest) && DigitsValue(rest) == m;
  }

  /** `ParseInt` accepts exactly the numerals of int64 values, and yields their value. */
  lemma ParseIntIff(s: seq<byte>, v: int64)
    ensures ParseInt(s) == Some(v) <==> IsNumeralOf(s, v)
  {
    if ParseInt(s) == Some(v) {
      ParsedIsNumeral(s);
    }
    if IsNumeralOf(s, v) {
      NumeralParses(s, v);
    }
  }

  /** A well-formed numeral whose value does not fit an int64 is a range error. */
  lemma ParseIntOutOfRange(sign: seq<byte>, k: nat, m: nat)
    requires sign == [] || sign == [Plus] || sign == [Minus]
    requires var v: int := if sign == [Minus] then -(m as int) else m; v < MinInt64 || v > MaxInt64
    ensures ParseInt(sign + Zeros(k) + FormatNat(m)) == None
  {
    var s := sign + Zeros(k) + FormatNat(m);
    assert Magnitude(s) == Zeros(k) + FormatNat(m);
    ZerosIgnored(k, FormatNat(m));
    DigitsValueOfFormat(m);
  }

  /** An explicit `+` does not change the value: `"+5"` and `"5"` both parse to 5. */
  lemma PlusSignIgnored(digits: seq<byte>)
    requires |digits| > 0 && IsDigit(digits[0])
    ensures ParseInt([Plus] + digits) == ParseInt(digits)
  {
    assert Magnitude([Plus] + digits) == digits;
  }

  /** The empty header (what `Header.Get` returns for a missing header) is rejected. */
  lemma ParseEmpty()
    ensures ParseInt([]) == None
  {
  }

  /** A lone sign is rejected. */
  lemma ParseLoneSign(c: byte)
    requires c == Plus || c == Minus
    ensures ParseInt([c]) == None
  {
  }

  /** A byte that is not a digit anywhere after the optional sign is a syntax error. */
  lemma ParseNonDigit(s: seq<byte>, i: nat)
    requires 0 < i < |s| && !IsDigit(s[i])
    ensures ParseInt(s) == None
  {
  }

  /** The timestamp `"not-a-number"` is rejected. */
  lemma ParseNotANumber()
    ensures ParseInt(Ascii("not-a-number")) == None
  {
    var s := Ascii("not-a-number");
    assert !IsDigit(s[1]);
  }

  /** The extremes: MinInt64 parses, one beyond either end does not. */
  lemma ParseRangeEdges()
    ensures ParseInt([Minus] + FormatNat(0x8000_0000_0000_0000)) == Some(MinInt64)
    ensures ParseInt(FormatNat(0x8000_0000_0000_0000)) == None
    ensures ParseInt([Minus] + FormatNat(0x8000_0000_0000_0001)) == None
  {
    DigitsValueOfFormat(0x8000_0000_0000_0000);
    DigitsValueOfFormat(0x8000_0000_0000_0001);
    assert Magnitude([Minus] + FormatNat(0x8000_0000_0000_0000)) == FormatNat(0x8000_0000_0000_0000);
    assert Magnitude([Minus] + FormatNat(0x8000_0000_0000_0001)) == FormatNat(0x8000_0000_0000_0001);
  }
}
