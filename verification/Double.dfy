/**
 IEEE 754 double precision, as strconv.ParseFloat reads a decimal: rounded to
 the nearest double, ties to even. A double is a real number here, counted in
 units of 2^-1074, the least positive one.
 */
module Double {
  import opened Common

  const TWO_53: nat := 0x20_0000_0000_0000

  /** How many units make one. */
  function Units(): (u: real)
    ensures u > 0.0
  {
    Pow2(1074) as real
  }

  function HalfEven(y: real): (n: nat)
    requires y >= 0.0
  {
    var n := y.Floor;
    var rest := y - n as real;
    if rest < 0.5 || (rest == 0.5 && n % 2 == 0) then n else n + 1
  }

  /** A count of units rounded to 53 significant bits. */
  function RoundUnits(y: real): nat
    requires y >= 0.0
    decreases y.Floor
  {
    if y < TWO_53 as real then HalfEven(y) else 2 * RoundUnits(y / 2.0)
  }

  function Magnitude(x: real): (a: real)
    ensures a >= 0.0
  {
    if x < 0.0 then -x else x
  }

  function InUnits(a: real): (y: real)
    requires a >= 0.0
    ensures y >= 0.0
  {
    ProductPositive(a, Units());
    a * Units()
  }

  function RoundMagnitude(a: real): (r: real)
    requires a >= 0.0
    ensures r >= 0.0
  {
    RoundUnits(InUnits(a)) as real / Units()
  }

  function Round(x: real): real {
    if x < 0.0 then -RoundMagnitude(-x) else RoundMagnitude(x)
  }

  /** ParseFloat has a double for x: rounding does not reach 2^1024. */
  predicate InRange(x: real) { Magnitude(Round(x)) < Pow2(1024) as real }

  lemma ProductPositive(a: real, b: real)
    requires a >= 0.0 && b > 0.0
    ensures a * b >= 0.0
  {
  }

  // ----- doubles -----

  /** m times two to the power of e. */
  function Scaled(m: int, e: int): real {
    if e >= 0 then (m * Pow2(e)) as real else m as real / Pow2(-e) as real
  }

  /** Section 3.3 of IEEE 754-2008: 53 significant bits and exponents of binary64. */
  ghost predicate IsDouble(x: real) {
    exists m, e :: 0 - TWO_53 < m < TWO_53 && -1074 <= e <= 971 && x == Scaled(m, e)
  }

  /** A number of units with at most 53 significant bits. */
  predicate FewBits(n: nat) { n < TWO_53 || (n % 2 == 0 && FewBits(n / 2)) }

  lemma HalfEvenBounds(y: real)
    requires y >= 0.0
    ensures HalfEven(y) as real - 0.5 <= y <= HalfEven(y) as real + 0.5
  {
    var n := y.Floor;
    assert n as real <= y < n as real + 1.0;
    assert HalfEven(y) == n || HalfEven(y) == n + 1;
    assert (n + 1) as real == n as real + 1.0;
  }

  lemma HalfEvenNearest(y: real, d: int)
    requires y >= 0.0
    ensures Magnitude(y - HalfEven(y) as real) <= Magnitude(y - d as real)
  {
    HalfEvenBounds(y);
    hide HalfEven;
    var n := HalfEven(y);
    if d > n {
      assert d as real >= n as real + 1.0;
    } else if d < n {
      assert d as real <= n as real - 1.0;
    }
  }

  lemma {:induction false} RoundedFewBits(y: real)
    requires y >= 0.0
    ensures FewBits(RoundUnits(y))
    decreases y.Floor
  {
    if y >= TWO_53 as real {
      RoundedFewBits(y / 2.0);
    } else {
      HalfEvenBounds(y);
      AtMost53(HalfEven(y));
    }
  }

  lemma AtMost53(n: nat)
    requires n <= TWO_53
    ensures FewBits(n)
  {
    assert TWO_53 / 2 < TWO_53 && FewBits(TWO_53 / 2);
  }

  /** No count with so few bits is nearer. */
  lemma {:induction false} RoundedNearest(y: real, d: nat)
    requires y >= 0.0 && FewBits(d)
    ensures Magnitude(y - RoundUnits(y) as real) <= Magnitude(y - d as real)
    decreases y.Floor
  {
    if y < TWO_53 as real {
      HalfEvenNearest(y, d);
    } else if d < TWO_53 {
      assert FewBits(TWO_53 / 2);
      RoundedNearest(y / 2.0, TWO_53 / 2);
    } else {
      RoundedNearest(y / 2.0, d / 2);
    }
  }

  /** The last of 53 bits is zero. */
  predicate EvenPlace(n: nat) { n % 2 == 0 && (n < TWO_53 || EvenPlace(n / 2)) }

  /** When another count is as near, the one chosen is even in its last place. */
  lemma {:induction false} TiesToEven(y: real, d: nat)
    requires y >= 0.0 && FewBits(d) && d != RoundUnits(y)
    requires Magnitude(y - RoundUnits(y) as real) == Magnitude(y - d as real)
    ensures EvenPlace(RoundUnits(y))
    decreases y.Floor
  {
    if y < TWO_53 as real {
      EvenTie(y, d);
    } else if d < TWO_53 {
      AtMost53(TWO_53);
      RoundedNearest(y, TWO_53);
    } else {
      hide HalfEven;
      TiesToEven(y / 2.0, d / 2);
    }
  }

  lemma EvenTie(y: real, d: nat)
    requires 0.0 <= y < TWO_53 as real && d != HalfEven(y)
    requires Magnitude(y - HalfEven(y) as real) == Magnitude(y - d as real)
    ensures EvenPlace(HalfEven(y))
  {
    HalfEvenBounds(y);
    assert HalfEven(y) % 2 == 0;
    assert TWO_53 / 2 < TWO_53 && EvenPlace(TWO_53 / 2);
  }

  lemma RoundUnitsFixes(n: nat)
    ensures RoundUnits(n as real) == n <==> FewBits(n)
  {
    RoundedFewBits(n as real);
    if FewBits(n) {
      RoundedNearest(n as real, n);
    }
  }

  // ----- counts of units and the range -----

  lemma {:induction false} ShiftFewBits(m: nat, k: nat)
    requires m < TWO_53
    ensures FewBits(m * Pow2(k))
  {
    if k > 0 {
      ShiftFewBits(m, k - 1);
      assert m * Pow2(k) == 2 * (m * Pow2(k - 1));
    } else {
      assert m * Pow2(0) == m;
    }
  }

  /** A count with few bits, taken apart with the least exponent. */
  lemma {:induction false} FewBitsShift(n: nat) returns (m: nat, k: nat)
    requires FewBits(n)
    ensures m < TWO_53 && n == m * Pow2(k)
    ensures k > 0 ==> TWO_53 / 2 <= m
  {
    if n < TWO_53 {
      m, k := n, 0;
      assert Pow2(0) == 1;
    } else {
      m, k := FewBitsShift(n / 2);
      assert n == m * Pow2(k + 1) by { assert Pow2(k + 1) == 2 * Pow2(k); }
      k := k + 1;
    }
  }

  /** Where rounding reaches the next power of two: half a unit in the last place below it. */
  lemma {:induction false} RoundsUp(y: real, k: nat)
    requires y >= 0.0
    ensures RoundUnits(y) >= TWO_53 * Pow2(k) <==> 2.0 * y >= ((2 * TWO_53 - 1) * Pow2(k)) as real
    decreases k
  {
    if k > 0 {
      assert Pow2(k) == 2 * Pow2(k - 1);
      if y >= TWO_53 as real {
        RoundsUp(y / 2.0, k - 1);
        RoundsUpStep(RoundUnits(y / 2.0), y, Pow2(k - 1));
      } else {
        HalfEvenBounds(y);
        BelowDouble(Pow2(k - 1));
      }
    } else if y >= TWO_53 as real {
      AtMost53(TWO_53);
      RoundedNearest(y, TWO_53);
    } else {
      LastHalf(y);
    }
  }

  lemma RoundsUpStep(n: nat, y: real, p: nat)
    ensures 2 * n >= TWO_53 * (2 * p) <==> n >= TWO_53 * p
    ensures 2.0 * y >= ((2 * TWO_53 - 1) * (2 * p)) as real <==> 2.0 * (y / 2.0) >= ((2 * TWO_53 - 1) * p) as real
  {
  }

  lemma BelowDouble(p: nat)
    requires p > 0
    ensures TWO_53 < TWO_53 * (2 * p) && 2 * TWO_53 <= (2 * TWO_53 - 1) * (2 * p)
  {
  }

  lemma LastHalf(y: real)
    requires 0.0 <= y < TWO_53 as real
    ensures HalfEven(y) >= TWO_53 <==> 2.0 * y >= (2 * TWO_53 - 1) as real
  {
    HalfEvenBounds(y);
    if 2.0 * y >= (2 * TWO_53 - 1) as real {
      assert y.Floor == TWO_53 - 1;
    }
  }

  // ----- rounding real numbers -----

  lemma QuotientTimes(n: real, u: real)
    requires u > 0.0
    ensures n / u * u == n && n * u / u == n
  {
  }

  lemma Factors(p: nat, u: nat)
    ensures p as real * u as real == (p * u) as real
  {
  }

  lemma Ordered(a: real, b: real, u: real)
    requires u > 0.0
    ensures a < b <==> a * u < b * u
  {
  }

  lemma RoundOfMagnitude(x: real)
    ensures Magnitude(Round(x)) == RoundMagnitude(Magnitude(x))
    ensures Round(x) == if x < 0.0 then -RoundMagnitude(Magnitude(x)) else RoundMagnitude(Magnitude(x))
  {
    hide RoundMagnitude;
  }

  /** The limit of the range: halfway between the greatest double and 2^1024. */
  lemma InRangeExactly(x: real)
    ensures InRange(x) <==> Magnitude(x) < (Pow2(970) * (2 * TWO_53 - 1)) as real
  {
    TwoTo53();
    hide Pow2, RoundUnits, InUnits;
    var a := Magnitude(x);
    RoundOfMagnitude(x);
    UnitsTimes(a);
    RangeScaled(a, InUnits(a), 1024, 1074, 2045);
  }

  lemma UnitsTimes(a: real)
    requires a >= 0.0
    ensures InUnits(a) == a * Pow2(1074) as real
  {
    hide Pow2;
  }

  /** The same with the exponents as variables: rounding stays below 2^a exactly below (2^54 - 1) * 2^(a - 54). */
  lemma RangeScaled(x: real, y: real, a: nat, t: nat, k: nat)
    requires x >= 0.0 && a >= 54 && k + 53 == a + t && Pow2(53) == TWO_53
    requires y >= 0.0 && y == x * Pow2(t) as real
    ensures RoundUnits(y) as real / Pow2(t) as real < Pow2(a) as real
       <==> x < (Pow2(a - 54) * (2 * TWO_53 - 1)) as real
  {
    hide RoundUnits, Pow2;
    RoundsUp(y, k);
    PowersOfRange(a, t, k);
    RangeChain(RoundUnits(y), y, x, Pow2(k), Pow2(a), Pow2(t), Pow2(a - 54), TWO_53, 2 * TWO_53 - 1);
  }

  lemma PowersOfRange(a: nat, t: nat, k: nat)
    requires a >= 54 && k + 53 == a + t && Pow2(53) == TWO_53
    ensures Pow2(a) * Pow2(t) == TWO_53 * Pow2(k) && Pow2(k) == 2 * (Pow2(a - 54) * Pow2(t))
  {
    assert Pow2(k) == 2 * Pow2(k - 1);
    hide Pow2;
    Pow2Sum(53, k);
    Pow2Sum(a, t);
    Pow2Sum(a - 54, t);
  }

  lemma RangeChain(n: nat, y: real, x: real, pk: nat, pa: nat, pt: nat, pl: nat, m: nat, c: nat)
    requires n >= m * pk <==> 2.0 * y >= (c * pk) as real
    requires pt > 0 && pa * pt == m * pk && pk == 2 * (pl * pt) && y == x * pt as real
    ensures n as real / pt as real < pa as real <==> x < (pl * c) as real
  {
    BelowPower(n, pa, pt);
    BelowLimit(x, y, pl, pt, c);
  }

  lemma BelowPower(n: nat, p: nat, u: nat)
    requires u > 0
    ensures n as real / u as real < p as real <==> n < p * u
  {
    QuotientTimes(n as real, u as real);
    Ordered(n as real / u as real, p as real, u as real);
    Factors(p, u);
  }

  lemma BelowLimit(x: real, y: real, p: nat, u: nat, c: nat)
    requires u > 0 && y == x * u as real
    ensures 2.0 * y >= (c * (2 * (p * u))) as real <==> x >= (p * c) as real
  {
    Ordered(x, (p * c) as real, u as real);
    Factors(p * c, u);
    assert c * (2 * (p * u)) == 2 * ((p * c) * u);
  }

  lemma TwoTo53()
    ensures Pow2(53) == TWO_53 && Pow2(54) == 2 * TWO_53
  {
    assert Pow2(9) == 512;
    assert Pow2(18) == 512 * 512;
    assert Pow2(27) == 512 * Pow2(18);
    assert Pow2(36) == 512 * Pow2(27);
    assert Pow2(45) == 512 * Pow2(36);
    assert Pow2(54) == 512 * Pow2(45);
  }

  // ----- which numbers rounding keeps -----

  lemma ScaledInUnits(m: int, e: int, t: nat)
    requires e + t >= 0
    ensures Scaled(m, e) * Pow2(t) as real == (m * Pow2(e + t)) as real
  {
    hide Pow2;
    if e >= 0 {
      Pow2Sum(e, t);
      ScaledUp(m, Pow2(e), Pow2(t));
    } else {
      Pow2Sum(-e, e + t);
      ScaledDown(m, Pow2(-e), Pow2(e + t));
    }
  }

  lemma ScaledUp(m: int, p: nat, u: nat)
    ensures (m * p) as real * u as real == (m * (p * u)) as real
  {
    assert (m * p) * u == m * (p * u);
    assert (m * p) as real * u as real == ((m * p) * u) as real;
  }

  lemma ScaledDown(m: int, p: nat, q: nat)
    requires p > 0
    ensures m as real / p as real * (p * q) as real == (m * q) as real
  {
    var r := m as real / p as real;
    assert r * p as real == m as real;
    assert (p * q) as real == p as real * q as real;
    assert r * (p as real * q as real) == (r * p as real) * q as real;
    assert m as real * q as real == (m * q) as real;
  }

  /** A double is a count of units with few bits, with its sign. */
  lemma DoubleInUnits(x: real) returns (n: nat)
    requires IsDouble(x)
    ensures FewBits(n) && InUnits(Magnitude(x)) == n as real
  {
    hide Pow2, FewBits;
    var m, e :| 0 - TWO_53 < m < TWO_53 && -1074 <= e <= 971 && x == Scaled(m, e);
    hide Scaled, Magnitude, InUnits, IsDouble;
    ScaledMagnitude(m, e);
    n := MagnitudeInUnits(if m < 0 then -m else m, e);
  }

  lemma MagnitudeInUnits(a: nat, e: int) returns (n: nat)
    requires a < TWO_53 && -1074 <= e && Scaled(a, e) >= 0.0
    ensures FewBits(n) && InUnits(Scaled(a, e)) == n as real
  {
    hide Pow2, FewBits, Scaled, InUnits;
    ShiftFewBits(a, e + 1074);
    ScaledInUnits(a, e, 1074);
    UnitsTimes(Scaled(a, e));
    n := a * Pow2(e + 1074);
  }

  lemma ScaledMagnitude(m: int, e: int)
    ensures Magnitude(Scaled(m, e)) == Scaled(if m < 0 then -m else m, e)
    ensures Scaled(-m, e) == -Scaled(m, e)
  {
    hide Pow2;
    if e >= 0 {
      var p := Pow2(e);
      assert (-m) * p == -(m * p) && (m >= 0 ==> m * p >= 0) && (m < 0 ==> m * p < 0);
    } else {
      var p := Pow2(-e) as real;
      SignOfQuotient(m as real, p);
      assert (-m) as real == -(m as real);
    }
  }

  lemma SignOfQuotient(a: real, p: real)
    requires p > 0.0
    ensures (a >= 0.0 ==> a / p >= 0.0) && (a < 0.0 ==> a / p < 0.0) && (-a) / p == -(a / p)
  {
  }

  lemma DoubleFixed(x: real)
    requires IsDouble(x)
    ensures Round(x) == x
  {
    hide IsDouble, FewBits, RoundUnits, Units, InUnits;
    var n := DoubleInUnits(x);
    RoundUnitsFixes(n);
    UnitsProduct(Magnitude(x));
    QuotientTimes(Magnitude(x), Units());
  }

  lemma RoundIsDouble(x: real)
    requires InRange(x)
    ensures IsDouble(Round(x))
  {
    hide FewBits, RoundUnits, Pow2;
    hide Round, RoundMagnitude, Scaled, IsDouble;
    RoundOfMagnitude(x);
    var m, e := RoundedScaled(Magnitude(x));
    SignedDouble(x, m, e);
  }

  lemma SignedDouble(x: real, m: nat, e: int)
    requires m < TWO_53 && -1074 <= e <= 971 && RoundMagnitude(Magnitude(x)) == Scaled(m, e)
    ensures IsDouble(Round(x))
  {
    hide RoundMagnitude, Scaled;
    RoundOfMagnitude(x);
    ScaledMagnitude(m, e);
    if x < 0.0 {
      var negative: int := -(m as int);
      assert Round(x) == Scaled(negative, e);
    } else {
      assert Round(x) == Scaled(m, e);
    }
  }

  lemma RoundedScaled(a: real) returns (m: nat, e: int)
    requires a >= 0.0 && RoundMagnitude(a) < Pow2(1024) as real
    ensures m < TWO_53 && -1074 <= e <= 971 && RoundMagnitude(a) == Scaled(m, e)
  {
    hide FewBits, RoundUnits, Pow2, Scaled, InUnits;
    var n := RoundUnits(InUnits(a));
    RoundedFewBits(InUnits(a));
    var k;
    m, k := FewBitsShift(n);
    BelowPower(n, Pow2(1024), Pow2(1074));
    TwoTo53();
    Pow2Sum(1024, 1074);
    ExponentBound(m, k, n, 2045);
    e := (k as int) - 1074;
    ScaledInUnits(m, e, 1074);
    QuotientTimes(Scaled(m, e), Units());
  }

  lemma ExponentBound(m: nat, k: nat, n: nat, total: nat)
    requires n == m * Pow2(k) && n < Pow2(53 + total) && Pow2(53) == TWO_53
    requires k > 0 ==> TWO_53 / 2 <= m
    ensures k <= total
  {
    Pow2Sum(53, total);
    if k > total {
      Pow2Grows(total + 1, k);
      assert Pow2(total + 1) == 2 * Pow2(total);
      hide Pow2;
      ProductsClash(m, Pow2(k), Pow2(53 + total), TWO_53, Pow2(total));
    }
  }

  lemma ProductsClash(m: nat, q: nat, n: nat, c: nat, p: nat)
    requires n == c * p && c <= 2 * m && 2 * p <= q
    ensures m * q >= n
  {
    ProductGrows(c, 2 * m, p, p);
    ProductGrows(m, m, 2 * p, q);
    assert 2 * m * p == m * (2 * p);
  }

  lemma ProductGrows(a: nat, b: nat, c: nat, d: nat)
    requires a <= b && c <= d
    ensures a * c <= b * d
  {
  }

  /** Within the range, rounding keeps exactly the doubles. */
  lemma RoundFixesExactly(x: real)
    requires InRange(x)
    ensures Round(x) == x <==> IsDouble(x)
  {
    hide IsDouble, Round, InRange;
    RoundIsDouble(x);
    if IsDouble(x) {
      DoubleFixed(x);
    }
  }

  /** No double is nearer than the one rounding gives. */
  lemma RoundNearest(x: real, d: real)
    requires IsDouble(d)
    ensures Magnitude(x - Round(x)) <= Magnitude(x - d)
  {
    hide IsDouble, RoundMagnitude;
    NearestMagnitude(Magnitude(x), d);
  }

  lemma NearestMagnitude(a: real, d: real)
    requires a >= 0.0 && IsDouble(d)
    ensures Magnitude(a - RoundMagnitude(a)) <= Magnitude(a - Magnitude(d))
  {
    hide IsDouble, FewBits, RoundUnits, Units, Magnitude, InUnits;
    var n := DoubleInUnits(d);
    RoundedNearest(InUnits(a), n);
    UnitsProduct(a);
    UnitsProduct(Magnitude(d));
    NearerUnits(a, InUnits(a), RoundUnits(InUnits(a)), n, Magnitude(d), Units());
  }

  lemma UnitsProduct(a: real)
    requires a >= 0.0
    ensures InUnits(a) == a * Units()
  {
    hide Units;
  }

  lemma NearerUnits(a: real, y: real, r: nat, n: nat, d: real, u: real)
    requires u > 0.0 && y == a * u && d * u == n as real
    requires Magnitude(y - r as real) <= Magnitude(y - n as real)
    ensures Magnitude(a - r as real / u) <= Magnitude(a - d)
  {
    hide Magnitude;
    QuotientTimes(r as real, u);
    var b := r as real / u;
    assert a * u - b * u == a * u - r as real && a * u - d * u == a * u - n as real;
    Nearer(a, b, d, u);
  }

  lemma Nearer(a: real, b: real, c: real, u: real)
    requires u > 0.0 && Magnitude(a * u - b * u) <= Magnitude(a * u - c * u)
    ensures Magnitude(a - b) <= Magnitude(a - c)
  {
    hide Magnitude;
    ScaledDifference(a, b, u);
    ScaledDifference(a, c, u);
    Ordered(Magnitude(a - c), Magnitude(a - b), u);
  }

  lemma ScaledDifference(a: real, b: real, u: real)
    requires u > 0.0
    ensures Magnitude(a * u - b * u) == Magnitude(a - b) * u
  {
    var d := a - b;
    assert a * u - b * u == d * u;
    Ordered(d, 0.0, u);
  }

  /** Rounding never passes a double. */
  lemma RoundStays(x: real, d: real)
    requires IsDouble(d)
    ensures x >= d ==> Round(x) >= d
    ensures x <= d ==> Round(x) <= d
  {
    hide IsDouble, Round;
    RoundNearest(x, d);
  }

  // ----- integers -----

  predicate IsSmall(n: int) { -0x20_0000_0000_0000 <= n <= 0x20_0000_0000_0000 }

  /** Whole numbers up to 2^53 are doubles. */
  lemma SmallIntegers(n: int)
    requires IsSmall(n)
    ensures IsDouble(n as real) && Round(n as real) == n as real
  {
    assert Pow2(0) == 1 && Pow2(1) == 2;
    if n == TWO_53 {
      assert n as real == Scaled(n / 2, 1);
    } else if n == 0 - TWO_53 {
      assert n as real == Scaled(n / 2, 1);
    } else {
      assert n as real == Scaled(n, 0);
    }
    DoubleFixed(n as real);
  }

  function Shifted(y: real, j: nat): real { if j == 0 then y else 2.0 * Shifted(y, j - 1) }

  lemma {:induction false} ShiftedIsProduct(y: real, j: nat)
    ensures Shifted(y, j) == y * Pow2(j) as real
  {
    if j > 0 {
      ShiftedIsProduct(y, j - 1);
      var p := Pow2(j - 1);
      assert (2 * p) as real == 2.0 * p as real;
      assert y * (2.0 * p as real) == 2.0 * (y * p as real);
    }
  }

  /** A 64-bit integer stays within its power of two, and far from the limit. */
  lemma Int64InRange(n: int)
    requires -0x8000_0000_0000_0000 <= n < 0x8000_0000_0000_0000
    ensures InRange(n as real)
  {
    var d := Scaled(1, 63);
    SixtyThree();
    assert d == Pow2(63) as real;
    ScaledMagnitude(1, 63);
    assert IsDouble(d);
    assert IsDouble(-d) by { assert -d == Scaled(-1, 63); }
    hide Pow2, Round;
    RoundStays(n as real, d);
    RoundStays(n as real, -d);
    Pow2Grows(64, 1024);
  }

  lemma SixtyThree()
    ensures Pow2(63) == 0x8000_0000_0000_0000 && Pow2(64) == 2 * Pow2(63)
  {
    TwoTo53();
    assert Pow2(63) == 512 * Pow2(54);
  }

  /** From 2^52 on, counting units or ones makes no difference. */
  lemma {:induction false} RoundShifted(y: real, j: nat)
    requires y >= (TWO_53 / 2) as real
    ensures Shifted(y, j) >= y && RoundUnits(Shifted(y, j)) == RoundUnits(y) * Pow2(j)
  {
    if j > 0 {
      RoundShifted(y, j - 1);
      assert Shifted(y, j) / 2.0 == Shifted(y, j - 1);
      Twice(RoundUnits(y), Pow2(j - 1));
    }
  }

  lemma Twice(n: nat, p: nat)
    ensures 2 * (n * p) == n * (2 * p)
  {
  }

  lemma GapUnits(x: real)
    requires x == (TWO_53 + 1) as real
    ensures RoundUnits(x) == TWO_53
  {
    assert (x / 2.0).Floor == TWO_53 / 2;
  }

  /** The least positive whole number that is no double. */
  lemma FirstGap()
    ensures Round((TWO_53 + 1) as real) == TWO_53 as real
  {
    hide RoundUnits, Pow2;
    var x := (TWO_53 + 1) as real;
    GapUnits(x);
    RoundShifted(x, 1074);
    ShiftedIsProduct(x, 1074);
    Factors(TWO_53, Pow2(1074));
    QuotientTimes(TWO_53 as real, Units());
  }
}
