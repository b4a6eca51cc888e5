/** JSON number literals (section 6 of RFC 8259) and the decimal integers the claims use. */
module Number {
  import opened Common
  import opened Double

  predicate IsDigit(c: char) { '0' <= c <= '9' }

  predicate IsNumberChar(c: char) {
    IsDigit(c) || c == '-' || c == '+' || c == '.' || c == 'e' || c == 'E'
  }

  predicate AllDigits(s: string) { forall i :: 0 <= i < |s| ==> IsDigit(s[i]) }

  function SkipDigits(s: string): (r: string)
    ensures |r| <= |s|
  {
    if s != [] && IsDigit(s[0]) then SkipDigits(s[1..]) else s
  }

  predicate IsExponent(s: string) {
    s == [] ||
    ((s[0] == 'e' || s[0] == 'E') &&
     var t := if |s| > 1 && (s[1] == '+' || s[1] == '-') then s[2..] else s[1..];
     t != [] && AllDigits(t))
  }

  predicate IsFraction(s: string) {
    if s != [] && s[0] == '.' then
      var t := SkipDigits(s[1..]);
      |t| < |s| - 1 && IsExponent(t)
    else IsExponent(s)
  }

  predicate IsUnsigned(s: string) {
    s != [] && (if s[0] == '0' then IsFraction(s[1..]) else IsDigit(s[0]) && IsFraction(SkipDigits(s)))
  }

  predicate IsNumber(s: string) {
    && (forall i :: 0 <= i < |s| ==> IsNumberChar(s[i]))
    && s != [] && IsUnsigned(if s[0] == '-' then s[1..] else s)
  }

  type Literal = s: string | IsNumber(s) witness "0"

  // ----- integers -----

  function Digit(d: int): (c: char)
    requires 0 <= d < 10
    ensures IsDigit(c)
  {
    ('0' as int + d) as char
  }

  /** strconv.FormatInt in base ten, for a non-negative number. */
  function FormatNat(n: nat): (s: string)
    ensures s != [] && AllDigits(s)
  {
    if n < 10 then [Digit(n)] else FormatNat(n / 10) + [Digit(n % 10)]
  }

  function FormatInt(n: int): (s: string)
    ensures IsNumber(s)
  {
    FormatNatIsUnsigned(if n < 0 then -n else n);
    if n < 0 then ['-'] + FormatNat(-n) else FormatNat(n)
  }

  function ParseNat(s: string): nat
    requires AllDigits(s)
  {
    if s == [] then 0 else ParseNat(s[..|s| - 1]) * 10 + (s[|s| - 1] as int - '0' as int)
  }

  function Pow10(k: nat): (p: nat)
    ensures p > 0
  {
    if k == 0 then 1 else 10 * Pow10(k - 1)
  }

  /** A literal taken apart: the value is mantissa times ten to the power of scale. */
  datatype Scientific = Scientific(mantissa: int, scale: int)

  function DigitsPart(s: string): (d: string)
    ensures AllDigits(d)
    ensures d + SkipDigits(s) == s
  {
    if s != [] && IsDigit(s[0]) then [s[0]] + DigitsPart(s[1..]) else []
  }

  function ExponentValue(s: string): int
    requires IsExponent(s)
  {
    if s == [] then 0
    else if |s| > 1 && s[1] == '-' then 0 - ParseNat(s[2..])
    else if |s| > 1 && s[1] == '+' then ParseNat(s[2..])
    else ParseNat(s[1..])
  }

  function UnsignedValue(s: string): Scientific
    requires IsUnsigned(s)
  {
    var whole := if s[0] == '0' then [s[0]] else DigitsPart(s);
    var rest := if s[0] == '0' then s[1..] else SkipDigits(s);
    if rest != [] && rest[0] == '.' then
      var frac := DigitsPart(rest[1..]);
      Scientific(ParseNat(whole + frac), ExponentValue(SkipDigits(rest[1..])) - |frac|)
    else
      Scientific(ParseNat(whole), ExponentValue(rest))
  }

  function LiteralValue(s: Literal): Scientific {
    if s[0] == '-' then
      var v := UnsignedValue(s[1..]);
      Scientific(-v.mantissa, v.scale)
    else UnsignedValue(s)
  }

  /** The number a literal stands for. */
  function RealOf(s: Literal): real {
    var v := LiteralValue(s);
    if v.scale >= 0 then (v.mantissa * Pow10(v.scale)) as real else v.mantissa as real / Pow10(-v.scale) as real
  }

  /** A literal strconv.ParseFloat has a double for. */
  predicate Finite(s: Literal) { InRange(RealOf(s)) }

  lemma {:induction false} SkipAllDigits(s: string)
    requires AllDigits(s)
    ensures SkipDigits(s) == [] && DigitsPart(s) == s
  {
    if s != [] {
      SkipAllDigits(s[1..]);
    }
  }

  lemma {:induction false} LeadingDigit(n: nat)
    ensures FormatNat(n)[0] == '0' <==> n == 0
    ensures n == 0 ==> FormatNat(n) == "0"
  {
    if n >= 10 {
      LeadingDigit(n / 10);
    }
  }

  lemma FormatNatIsUnsigned(n: nat)
    ensures IsUnsigned(FormatNat(n))
  {
    LeadingDigit(n);
    SkipAllDigits(FormatNat(n));
  }

  lemma {:induction false} ParseFormatNat(n: nat)
    ensures ParseNat(FormatNat(n)) == n
  {
    if n >= 10 {
      var s := FormatNat(n);
      assert s[..|s| - 1] == FormatNat(n / 10);
      ParseFormatNat(n / 10);
    } else {
      assert FormatNat(n)[..0] == [];
    }
  }

  lemma LiteralOfInt(n: int)
    ensures LiteralValue(FormatInt(n)) == Scientific(n, 0)
  {
    var m := if n < 0 then -n else n;
    var s := FormatNat(m);
    FormatNatIsUnsigned(m);
    LeadingDigit(m);
    SkipAllDigits(s);
    ParseFormatNat(m);
    if m == 0 {
      assert [s[0]] == s;
    }
    assert UnsignedValue(s) == Scientific(m, 0);
    if n < 0 {
      assert (['-'] + s)[1..] == s;
    }
  }

  /** A formatted integer stands for itself, and is written in digits alone, with a minus sign only when negative. */
  lemma RealOfFormatInt(n: int)
    ensures RealOf(FormatInt(n)) == n as real
    ensures if n < 0 then FormatInt(n)[0] == '-' && AllDigits(FormatInt(n)[1..]) else AllDigits(FormatInt(n))
  {
    assert if n < 0 then FormatInt(n)[0] == '-' && AllDigits(FormatInt(n)[1..]) else AllDigits(FormatInt(n));
    hide FormatInt, LiteralValue;
    LiteralOfInt(n);
    assert Pow10(0) == 1;
  }

  predicate IsInt64(n: int) { -0x8000_0000_0000_0000 <= n < 0x8000_0000_0000_0000 }

  /** An integer a Go int64 can hold is always in range. */
  lemma FiniteFormatInt(n: int)
    requires IsInt64(n)
    ensures Finite(FormatInt(n))
  {
    hide FormatInt, RealOf, InRange;
    RealOfFormatInt(n);
    Int64InRange(n);
  }

  // ----- beyond doubles -----

  lemma {:induction false} Pow10AtLeast(k: nat)
    ensures Pow10(k) >= Pow2(3 * k)
  {
    if k > 0 {
      Pow10AtLeast(k - 1);
      assert Pow2(3 * k) == 8 * Pow2(3 * (k - 1)) by {
        assert Pow2(3 * k) == 2 * Pow2(3 * k - 1) && Pow2(3 * k - 1) == 2 * Pow2(3 * k - 2);
      }
    }
  }

  lemma TenBeyondTwo(k: nat, a: nat, b: nat)
    requires a + b <= 3 * k
    ensures Pow10(k) > Pow2(a) * (Pow2(b) - 1)
  {
    hide Pow10, Pow2;
    Pow10AtLeast(k);
    Pow2Grows(a + b, 3 * k);
    Pow2Sum(a, b);
    OneFactorLess(Pow2(a), Pow2(b));
  }

  lemma OneFactorLess(p: nat, q: nat)
    requires p > 0
    ensures p * (q - 1) < p * q
  {
  }

  lemma TenBeyondLimit(k: nat)
    requires k >= 342
    ensures !InRange(Pow10(k) as real)
  {
    hide Pow10, Pow2, InRange;
    TenBeyondTwo(k, 970, 54);
    TwoTo53();
    InRangeExactly(Pow10(k) as real);
  }

  /** A number no double can hold. */
  lemma BeyondDoubles()
    ensures IsNumber("1e400") && !Finite("1e400")
  {
    hide Pow10, InRange, IsNumber, LiteralValue;
    Literal400();
    TenBeyondLimit(400);
  }

  lemma Literal400()
    ensures IsNumber("1e400") && LiteralValue("1e400") == Scientific(1, 400)
  {
    var s, e := "1e400", "e400";
    Exponent400();
    Split400();
    hide IsExponent, ExponentValue, ParseNat, SkipDigits, DigitsPart;
    assert s[0] == '1' && e[0] == 'e';
  }

  lemma Split400()
    ensures SkipDigits("1e400") == "e400" && DigitsPart("1e400") == "1"
  {
    assert "1e400"[1..] == "e400";
    assert SkipDigits("e400") == "e400" && DigitsPart("e400") == [];
  }

  lemma Exponent400()
    ensures IsExponent("e400") && ExponentValue("e400") == 400 && ParseNat("1") == 1
  {
    assert "e400"[1..] == "400";
    assert "400"[..2] == "40" && "40"[..1] == "4" && "4"[..0] == "" && "1"[..0] == "";
    assert ParseNat("4") == 4;
    assert ParseNat("40") == 40;
  }
}
