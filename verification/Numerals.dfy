/** The number literals of section 6 of RFC 8259, part by part: which texts they are, and what each stands for. */
module Numerals {
  import opened Common
  import opened Number

  datatype Exponent = Exponent(mark: char, sign: string, digits: string)

  datatype Numeral = Numeral(negative: bool, whole: string, fraction: Option<string>, exponent: Option<Exponent>)

  predicate Digits(s: string) { s != [] && AllDigits(s) }

  predicate WellSpelt(n: Numeral) {
    && Digits(n.whole) && (n.whole[0] == '0' ==> n.whole == "0")
    && (n.fraction.Some? ==> Digits(n.fraction.value))
    && (n.exponent.Some? ==>
          n.exponent.value.mark in {'e', 'E'} && n.exponent.value.sign in {"", "+", "-"}
          && Digits(n.exponent.value.digits))
  }

  function Spelt(n: Numeral): string {
    (if n.negative then "-" else "") + (n.whole + (SpeltFraction(n.fraction) + SpeltExponent(n.exponent)))
  }

  function SpeltFraction(f: Option<string>): string { if f.None? then "" else ['.'] + f.value }

  function SpeltExponent(e: Option<Exponent>): string {
    if e.None? then "" else [e.value.mark] + (e.value.sign + e.value.digits)
  }

  // ----- what a literal stands for -----

  /** Products and inverses by name, so that proofs can treat them as symbols. */
  function Times(a: real, b: real): real { a * b }

  function Inverse(a: real): (r: real)
    requires a > 0.0
    ensures r > 0.0
  {
    1.0 / a
  }

  /** Ten to an integer power. */
  function Ten(k: int): (r: real)
    ensures r > 0.0
  {
    if k >= 0 then Pow10(k) as real else Inverse(Pow10(-k) as real)
  }

  /** The exponent's power of ten, by which the number before it is multiplied or divided. */
  function PowerOf(e: Option<Exponent>): real
    requires e.Some? ==> AllDigits(e.value.digits)
  {
    if e.None? then 1.0
    else if e.value.sign == "-" then 1.0 / Pow10(ParseNat(e.value.digits)) as real
    else Pow10(ParseNat(e.value.digits)) as real
  }

  function FractionOf(f: Option<string>): real
    requires f.Some? ==> AllDigits(f.value)
  {
    if f.None? then 0.0 else ParseNat(f.value) as real / Pow10(|f.value|) as real
  }

  function ValueOf(n: Numeral): real
    requires WellSpelt(n)
  {
    var magnitude := Times(ParseNat(n.whole) as real + FractionOf(n.fraction), PowerOf(n.exponent));
    if n.negative then -magnitude else magnitude
  }

  lemma {:induction false} Pow10Sum(a: nat, b: nat)
    ensures Pow10(a + b) == Pow10(a) * Pow10(b)
  {
    if b > 0 {
      Pow10Sum(a, b - 1);
      assert Pow10(a + b) == 10 * Pow10(a + (b - 1));
    }
  }

  /** The digits of two runs side by side. */
  lemma {:induction false} ParseNatConcat(a: string, b: string)
    requires AllDigits(a) && AllDigits(b)
    ensures AllDigits(a + b) && ParseNat(a + b) == ParseNat(a) * Pow10(|b|) + ParseNat(b)
  {
    if b == [] {
      assert a + b == a;
    } else {
      var init := b[..|b| - 1];
      ParseNatConcat(a, init);
      assert (a + b)[..|a + b| - 1] == a + init;
      Distribute(ParseNat(a), Pow10(|init|), ParseNat(init));
    }
  }

  lemma Distribute(a: nat, p: nat, b: nat)
    ensures (a * p + b) * 10 == a * (10 * p) + b * 10
  {
  }

  // ----- the two directions, part by part -----

  lemma {:induction false} DigitsThen(a: string, rest: string)
    requires AllDigits(a) && (rest == [] || !IsDigit(rest[0]))
    ensures SkipDigits(a + rest) == rest && DigitsPart(a + rest) == a
  {
    if a == [] {
      assert a + rest == rest;
    } else {
      assert (a + rest)[1..] == a[1..] + rest;
      DigitsThen(a[1..], rest);
      assert a == [a[0]] + a[1..];
    }
  }

  predicate GoodExponent(e: Option<Exponent>) {
    e.Some? ==> e.value.mark in {'e', 'E'} && e.value.sign in {"", "+", "-"} && Digits(e.value.digits)
  }

  function Signed(e: Option<Exponent>): int
    requires GoodExponent(e)
  {
    if e.None? then 0
    else if e.value.sign == "-" then -(ParseNat(e.value.digits) as int)
    else ParseNat(e.value.digits)
  }

  lemma ExponentSpelt(e: Option<Exponent>)
    requires GoodExponent(e)
    ensures var s := SpeltExponent(e); IsExponent(s) && ExponentValue(s) == Signed(e)
    ensures var s := SpeltExponent(e); s == [] || (!IsDigit(s[0]) && s[0] != '.')
    ensures forall i :: 0 <= i < |SpeltExponent(e)| ==> IsNumberChar(SpeltExponent(e)[i])
  {
    if e.Some? {
      if e.value.sign == "" {
        BareExponent(e.value.mark, e.value.digits);
      } else {
        SignedExponent(e.value.mark, e.value.sign[0], e.value.digits);
      }
      hide ParseNat, IsExponent, ExponentValue, AllDigits;
      ExponentText(e.value);
    }
  }

  lemma ExponentText(e: Exponent)
    requires e.sign in {"", "+", "-"}
    ensures [e.mark] + (e.sign + e.digits)
         == if e.sign == "" then [e.mark] + e.digits else [e.mark, e.sign[0]] + e.digits
  {
  }

  lemma BareExponent(mark: char, d: string)
    requires mark in {'e', 'E'} && Digits(d)
    ensures var s := [mark] + d;
            && IsExponent(s) && ExponentValue(s) == ParseNat(d)
            && forall i :: 0 <= i < |s| ==> IsNumberChar(s[i])
  {
    hide ParseNat;
    assert ([mark] + d)[1..] == d;
    assert IsDigit(d[0]);
  }

  lemma SignedExponent(mark: char, sign: char, d: string)
    requires mark in {'e', 'E'} && sign in {'+', '-'} && Digits(d)
    ensures var s := [mark, sign] + d;
            && IsExponent(s) && ExponentValue(s) == (if sign == '-' then 0 - ParseNat(d) else ParseNat(d))
            && forall i :: 0 <= i < |s| ==> IsNumberChar(s[i])
  {
    hide ParseNat;
    assert ([mark, sign] + d)[2..] == d;
  }

  lemma ExponentParts(s: string) returns (e: Option<Exponent>)
    requires IsExponent(s)
    ensures GoodExponent(e) && SpeltExponent(e) == s
  {
    if s == [] {
      e := None;
    } else if |s| > 1 && (s[1] == '+' || s[1] == '-') {
      e := Some(Exponent(s[0], [s[1]], s[2..]));
      assert s == [s[0]] + ([s[1]] + s[2..]);
    } else {
      e := Some(Exponent(s[0], "", s[1..]));
      assert s == [s[0]] + ("" + s[1..]);
    }
  }

  predicate GoodFraction(f: Option<string>) { f.Some? ==> Digits(f.value) }

  lemma FractionThen(d: string, t: string)
    requires Digits(d) && IsExponent(t) && (t == [] || !IsDigit(t[0]))
    ensures var s := ['.'] + (d + t);
            s[1..] == d + t && IsFraction(s) && DigitsPart(d + t) == d && SkipDigits(d + t) == t
  {
    hide IsExponent, SkipDigits, DigitsPart;
    DigitsThen(d, t);
  }

  lemma Concat3(a: string, b: string, c: string)
    ensures (a + b) + c == a + (b + c)
  {
  }

  lemma FractionParts(s: string) returns (f: Option<string>, e: Option<Exponent>)
    requires IsFraction(s)
    ensures GoodFraction(f) && GoodExponent(e) && SpeltFraction(f) + SpeltExponent(e) == s
  {
    hide IsExponent;
    if s != [] && s[0] == '.' {
      var d, t := DigitsPart(s[1..]), SkipDigits(s[1..]);
      f := Some(d);
      e := ExponentParts(t);
      assert s == ['.'] + s[1..];
    } else {
      f := None;
      e := ExponentParts(s);
    }
  }

  /** The digits and the scale UnsignedValue takes from a whole part and what follows it. */
  lemma WholeThen(whole: string, tail: string)
    requires Digits(whole) && (whole[0] == '0' ==> whole == "0")
    requires IsFraction(tail) && (tail == [] || !IsDigit(tail[0]))
    ensures IsUnsigned(whole + tail)
    ensures tail != [] && tail[0] == '.' ==>
              var d := DigitsPart(tail[1..]);
              AllDigits(whole + d)
              && UnsignedValue(whole + tail)
                 == Scientific(ParseNat(whole + d), ExponentValue(SkipDigits(tail[1..])) - |d|)
    ensures tail == [] || tail[0] != '.' ==>
              IsExponent(tail) && UnsignedValue(whole + tail) == Scientific(ParseNat(whole), ExponentValue(tail))
  {
    var s := whole + tail;
    DigitsThen(whole, tail);
    hide IsExponent, ParseNat, ExponentValue, DigitsPart, SkipDigits, AllDigits;
    assert s[0] == whole[0] && IsDigit(s[0]) by { FirstDigit(whole); }
    if whole[0] == '0' {
      assert s[1..] == tail && [s[0]] == whole;
    }
  }

  lemma FirstDigit(s: string)
    requires Digits(s)
    ensures IsDigit(s[0])
  {
  }

  lemma WholeAndFraction(whole: string, d: string, t: string)
    requires Digits(whole) && (whole[0] == '0' ==> whole == "0")
    requires Digits(d) && IsExponent(t) && (t == [] || !IsDigit(t[0]))
    ensures var s := whole + (['.'] + (d + t));
            IsUnsigned(s) && AllDigits(whole + d)
            && UnsignedValue(s) == Scientific(ParseNat(whole + d), ExponentValue(t) - |d|)
  {
    FractionThen(d, t);
    WholeThen(whole, ['.'] + (d + t));
    hide *;
  }

  lemma WholeAlone(whole: string, t: string)
    requires Digits(whole) && (whole[0] == '0' ==> whole == "0")
    requires IsExponent(t) && (t == [] || (!IsDigit(t[0]) && t[0] != '.'))
    ensures IsUnsigned(whole + t) && UnsignedValue(whole + t) == Scientific(ParseNat(whole), ExponentValue(t))
  {
    hide IsExponent, ParseNat, ExponentValue, UnsignedValue, IsUnsigned;
    WholeThen(whole, t);
  }

  // ----- whole literals -----

  /** The texts that are numbers, and no others. */
  lemma NumbersSpelt(s: string)
    ensures IsNumber(s) <==> exists n :: WellSpelt(n) && Spelt(n) == s
  {
    if IsNumber(s) {
      var n := NumberParts(s);
    }
    if n :| WellSpelt(n) && Spelt(n) == s {
      SpeltIsNumber(n);
    }
  }

  lemma NumberParts(s: string) returns (n: Numeral)
    requires IsNumber(s)
    ensures WellSpelt(n) && Spelt(n) == s
  {
    var u := if s[0] == '-' then s[1..] else s;
    var whole, rest := if u[0] == '0' then [u[0]] else DigitsPart(u), if u[0] == '0' then u[1..] else SkipDigits(u);
    assert whole + rest == u;
    var f, e := FractionParts(rest);
    n := Numeral(s[0] == '-', whole, f, e);
    assert s == (if n.negative then "-" else "") + u;
  }

  function SpeltUnsigned(n: Numeral): string { n.whole + (SpeltFraction(n.fraction) + SpeltExponent(n.exponent)) }

  lemma UnsignedChars(n: Numeral)
    requires WellSpelt(n)
    ensures forall i :: 0 <= i < |SpeltUnsigned(n)| ==> IsNumberChar(SpeltUnsigned(n)[i])
    ensures SpeltUnsigned(n) != [] && SpeltUnsigned(n)[0] != '-'
  {
    ExponentSpelt(n.exponent);
    hide SpeltExponent;
    assert SpeltUnsigned(n)[0] == n.whole[0];
    assert forall i :: 0 <= i < |SpeltFraction(n.fraction)| ==> IsNumberChar(SpeltFraction(n.fraction)[i]);
  }

  function MoreDigits(f: Option<string>): string { if f.None? then "" else f.value }

  lemma UnsignedSpelt(n: Numeral)
    requires WellSpelt(n)
    ensures AllDigits(n.whole + MoreDigits(n.fraction)) && IsUnsigned(SpeltUnsigned(n))
    ensures UnsignedValue(SpeltUnsigned(n))
         == Scientific(ParseNat(n.whole + MoreDigits(n.fraction)), Signed(n.exponent) - |MoreDigits(n.fraction)|)
  {
    hide IsExponent, SpeltExponent, ParseNat, ExponentValue, UnsignedValue, IsUnsigned, Signed;
    UnsignedText(n);
    ExponentSpelt(n.exponent);
    if n.fraction.Some? {
      WholeAndFraction(n.whole, n.fraction.value, SpeltExponent(n.exponent));
    } else {
      WholeAlone(n.whole, SpeltExponent(n.exponent));
    }
    hide SpeltUnsigned, AllDigits;
  }

  lemma UnsignedText(n: Numeral)
    ensures var t := SpeltExponent(n.exponent);
            SpeltUnsigned(n)
            == n.whole + (if n.fraction.None? then t else ['.'] + (n.fraction.value + t))
    ensures n.whole + "" == n.whole
  {
    var t := SpeltExponent(n.exponent);
    hide SpeltExponent;
    if n.fraction.Some? {
      Concat3(['.'], n.fraction.value, t);
    } else {
      assert SpeltFraction(n.fraction) + t == t;
    }
  }

  lemma SpeltIsNumber(n: Numeral)
    requires WellSpelt(n)
    ensures IsNumber(Spelt(n)) && IsUnsigned(SpeltUnsigned(n))
    ensures LiteralValue(Spelt(n))
         == var v := UnsignedValue(SpeltUnsigned(n));
            Scientific(if n.negative then -v.mantissa else v.mantissa, v.scale)
  {
    hide SpeltUnsigned, IsUnsigned, UnsignedValue, Spelt, LiteralValue, IsNumber, ParseNat, AllDigits;
    hide SpeltExponent, SpeltFraction, Signed, MoreDigits;
    UnsignedChars(n);
    UnsignedSpelt(n);
    SignedLiteral(SpeltUnsigned(n), n.negative);
    SpeltSigned(n);
  }

  lemma SignedLiteral(u: string, negative: bool)
    requires u != [] && (forall i :: 0 <= i < |u| ==> IsNumberChar(u[i])) && IsUnsigned(u) && u[0] != '-'
    ensures var s := if negative then ['-'] + u else u;
            var v := UnsignedValue(u);
            IsNumber(s) && LiteralValue(s) == Scientific(if negative then -v.mantissa else v.mantissa, v.scale)
  {
    hide IsUnsigned, UnsignedValue;
    assert (['-'] + u)[1..] == u;
  }

  lemma SpeltSigned(n: Numeral)
    ensures Spelt(n) == if n.negative then ['-'] + SpeltUnsigned(n) else SpeltUnsigned(n)
  {
    hide SpeltExponent, SpeltFraction;
    var u := SpeltUnsigned(n);
    assert "" + u == u && "-" == ['-'];
  }

  // ----- arithmetic -----

  lemma PowZero()
    ensures Pow10(0) == 1
  {
  }

  lemma PowProduct(a: nat, b: nat)
    ensures Pow10(a + b) as real == Times(Pow10(a) as real, Pow10(b) as real)
  {
    Pow10Sum(a, b);
    RealProduct(Pow10(a), Pow10(b));
  }

  lemma RealProduct(p: nat, q: nat)
    ensures (p * q) as real == p as real * q as real
  {
  }

  lemma InverseProduct(p: real, q: real)
    requires p > 0.0 && q > 0.0 && Times(p, q) > 0.0
    ensures Inverse(Times(p, q)) == Times(Inverse(p), Inverse(q))
  {
  }

  lemma Cancel(p: real, q: real)
    requires q > 0.0
    ensures Times(Times(p, q), Inverse(q)) == p
  {
  }

  lemma CancelInverse(p: real, q: real)
    requires p > 0.0 && q > 0.0 && Times(p, q) > 0.0
    ensures Times(q, Inverse(Times(p, q))) == Inverse(p)
  {
  }

  lemma Commute(a: real, b: real)
    ensures Times(a, b) == Times(b, a)
  {
  }

  lemma Associate(a: real, b: real, c: real)
    ensures Times(Times(a, b), c) == Times(a, Times(b, c))
  {
    assert (a * b) * c == a * (b * c);
  }

  lemma Distributes(a: real, b: real, q: real)
    ensures Times(a + b, q) == Times(a, q) + Times(b, q) && Times(-a, q) == -Times(a, q)
  {
  }

  lemma TenSum(a: int, b: int)
    ensures Ten(a + b) == Times(Ten(a), Ten(b))
  {
    hide Pow10, Times, Inverse;
    if a >= 0 && b >= 0 {
      PowProduct(a, b);
    } else if a < 0 && b < 0 {
      PowProduct(-a, -b);
      InverseProduct(Pow10(-a) as real, Pow10(-b) as real);
    } else if a >= 0 {
      TenDifference(a, -b);
    } else {
      TenDifference(b, -a);
      Commute(Ten(a), Ten(b));
    }
  }

  lemma TenDifference(a: nat, c: nat)
    requires c > 0
    ensures Ten(a - c) == Times(Pow10(a) as real, Inverse(Pow10(c) as real))
  {
    hide Times, Inverse, Pow10, Ten;
    if a >= c {
      QuotientUp(a - c, c);
      TenUp(a - c);
    } else {
      QuotientDown(c - a, a);
      TenDown(c - a);
    }
  }

  lemma TenUp(k: nat)
    ensures Ten(k) == Pow10(k) as real
  {
  }

  lemma QuotientUp(d: nat, c: nat)
    ensures Times(Pow10(d + c) as real, Inverse(Pow10(c) as real)) == Pow10(d) as real
  {
    hide Pow10, Times, Inverse;
    PowProduct(d, c);
    Cancel(Pow10(d) as real, Pow10(c) as real);
  }

  lemma QuotientDown(d: nat, a: nat)
    ensures Times(Pow10(a) as real, Inverse(Pow10(d + a) as real)) == Inverse(Pow10(d) as real)
  {
    hide Pow10, Times, Inverse;
    PowProduct(d, a);
    CancelInverse(Pow10(d) as real, Pow10(a) as real);
  }

  lemma RealOfScientific(s: Literal)
    ensures RealOf(s) == Times(LiteralValue(s).mantissa as real, Ten(LiteralValue(s).scale))
  {
    var v := LiteralValue(s);
    hide LiteralValue, Pow10;
    if v.scale >= 0 {
      IntProduct(v.mantissa, Pow10(v.scale));
    } else {
      Divided(v.mantissa as real, Pow10(-v.scale) as real);
    }
  }

  lemma IntProduct(m: int, p: nat)
    ensures (m * p) as real == Times(m as real, p as real)
  {
  }

  lemma Divided(m: real, p: real)
    requires p > 0.0
    ensures m / p == Times(m, Inverse(p))
  {
  }

  lemma PowerIsTen(e: Option<Exponent>)
    requires GoodExponent(e)
    ensures PowerOf(e) == Ten(Signed(e))
  {
    hide ParseNat;
    PowZero();
  }

  /** The inverse power, also for none. */
  lemma TenDown(k: nat)
    ensures Ten(0 - k) == Inverse(Pow10(k) as real)
  {
    PowZero();
    hide Pow10;
  }

  lemma FractionIs(f: Option<string>)
    requires GoodFraction(f)
    ensures var more := MoreDigits(f);
            AllDigits(more) && FractionOf(f) == Times(ParseNat(more) as real, Ten(0 - |more|))
  {
    TenDown(|MoreDigits(f)|);
    if f.Some? {
      hide Pow10, ParseNat, Ten;
      Divided(ParseNat(f.value) as real, Pow10(|f.value|) as real);
    }
  }

  /** The digits before and after the point, over the power of ten of the latter. */
  lemma DigitsAndScale(whole: string, f: Option<string>)
    requires AllDigits(whole) && GoodFraction(f)
    ensures AllDigits(whole + MoreDigits(f))
    ensures Times(ParseNat(whole + MoreDigits(f)) as real, Ten(0 - |MoreDigits(f)|))
         == ParseNat(whole) as real + FractionOf(f)
  {
    var more := MoreDigits(f);
    ParseNatConcat(whole, more);
    TenDown(|more|);
    FractionIs(f);
    SplitScale(ParseNat(whole), Pow10(|more|), ParseNat(more));
    hide Ten, ParseNat, Pow10, FractionOf, MoreDigits, AllDigits, Times, Inverse;
  }

  lemma SplitScale(w: nat, p: nat, f: nat)
    requires p > 0
    ensures Times((w * p + f) as real, Inverse(p as real)) == w as real + Times(f as real, Inverse(p as real))
  {
    RealProduct(w, p);
    hide Times, Inverse;
    assert (w * p) as real == Times(w as real, p as real) by { IntProduct(w, p); }
    Cancel(w as real, p as real);
    Distributes((w * p) as real, f as real, Inverse(p as real));
  }

  /** Every literal stands for its sign, digits, fraction and exponent. */
  lemma RealOfSpelt(n: Numeral)
    requires WellSpelt(n)
    ensures IsNumber(Spelt(n)) && RealOf(Spelt(n)) == ValueOf(n)
  {
    hide UnsignedValue, LiteralValue, IsUnsigned, Spelt, SpeltUnsigned, ParseNat, Ten, PowerOf, FractionOf, Signed;
    hide RealOf, MoreDigits, IsNumber, AllDigits, Times;
    SpeltIsNumber(n);
    UnsignedSpelt(n);
    RealOfScientific(Spelt(n));
    MagnitudeSpelt(n);
    var v := UnsignedValue(SpeltUnsigned(n));
    Distributes(v.mantissa as real, 0.0, Ten(v.scale));
  }

  lemma MagnitudeSpelt(n: Numeral)
    requires WellSpelt(n)
    ensures var more := MoreDigits(n.fraction);
            && AllDigits(n.whole + more)
            && Times(ParseNat(n.whole + more) as real, Ten(Signed(n.exponent) - |more|))
               == Times(ParseNat(n.whole) as real + FractionOf(n.fraction), PowerOf(n.exponent))
  {
    hide Times, Ten, Signed, MoreDigits, ParseNat, FractionOf, PowerOf, AllDigits;
    DigitsAndScale(n.whole, n.fraction);
    PowerIsTen(n.exponent);
    var more, e := MoreDigits(n.fraction), Signed(n.exponent);
    TenSum(0 - |more|, e);
    Associate(ParseNat(n.whole + more) as real, Ten(0 - |more|), Ten(e));
  }
}
