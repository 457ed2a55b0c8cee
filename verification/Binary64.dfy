/** Non-negative binary64 numbers, correctly rounded: to the nearest representable value, ties to the
    even significand (section 4.3.1 of IEEE 754-2019). */
module Binary64 {

  const MIN_EXPONENT: int := -1074
  const MAX_EXPONENT: int := 971
  const TWO_53: nat := 0x20_0000_0000_0000
  const TWO_106: real := 81129638414606681695789005144064.0
  const MAX_SAFE_INTEGER: nat := TWO_53 - 1

  /** Products are named, so that equal factors give equal products. */
  function Times(a: real, b: real): real { a * b }

  function Pow2(e: int): (p: real)
    ensures p > 0.0
    decreases if e < 0 then -e else e
  {
    if e == 0 then 1.0 else if e > 0 then 2.0 * Pow2(e - 1) else Pow2(e + 1) / 2.0
  }

  lemma Doubles(e: int)
    ensures Pow2(e + 1) == 2.0 * Pow2(e)
  {
  }

  lemma TimesDoubles(a: real, b: real)
    ensures Times(a, 2.0 * b) == 2.0 * Times(a, b) == Times(2.0 * a, b)
  {
  }

  lemma {:induction false} Pow2Sum(e: int, k: nat)
    ensures Pow2(e + k) == Times(Pow2(e), Pow2(k))
    decreases k
  {
    if k == 0 {
    } else {
      Pow2Sum(e, k - 1);
      Doubles(e + k - 1);
      Doubles(k - 1);
      TimesDoubles(Pow2(e), Pow2(k - 1));
    }
  }

  lemma {:induction false} Pow2Monotone(e: int, f: int)
    requires e <= f
    ensures Pow2(e) <= Pow2(f)
    decreases f - e
  {
    if e < f {
      Pow2Monotone(e, f - 1);
      Doubles(f - 1);
    }
  }

  lemma {:induction false} Pow2Whole(k: nat)
    ensures Pow2(k).Floor as real == Pow2(k)
    decreases k
  {
    if k == 0 {
    } else {
      Pow2Whole(k - 1);
      assert Pow2(k) == (2 * Pow2(k - 1).Floor) as real;
    }
  }

  lemma Pow2Of53()
    ensures Pow2(53) == TWO_53 as real
  {
    Pow2Sum(0, 10); Pow2Sum(10, 10); Pow2Sum(20, 10); Pow2Sum(30, 10); Pow2Sum(40, 10); Pow2Sum(50, 3);
    assert Pow2(3) == 8.0;
    assert Pow2(5) == 4.0 * Pow2(3) == 32.0;
    Pow2Sum(5, 5);
    assert Pow2(10) == 1024.0;
    assert Pow2(20) == 1048576.0;
    assert Pow2(30) == 1073741824.0;
    assert Pow2(40) == 1099511627776.0;
    assert Pow2(50) == 1125899906842624.0;
    assert Pow2(53) == 9007199254740992.0;
  }

  /** A significand of at most 53 bits at an exponent within range. */
  predicate RepresentableAt(x: real, m: nat, e: int) {
    m < TWO_53 && MIN_EXPONENT <= e <= MAX_EXPONENT && x == Times(m as real, Pow2(e))
  }

  ghost predicate Representable(x: real) {
    exists m: nat, e: int {:trigger RepresentableAt(x, m, e)} :: RepresentableAt(x, m, e)
  }

  /** The range the arithmetic of safe integers stays in; all its rounding is far from overflow. */
  predicate InRange(x: real) { 0.0 <= x <= TWO_106 }

  const TOP_EXPONENT: int := 54

  lemma TopReaches(e: int)
    requires e == TOP_EXPONENT
    ensures TWO_106 < Pow2(e + 53)
  {
    Pow2Of53();
    Pow2Sum(53, 53);
    Doubles(106);
  }

  /** The least exponent, from `e` on, at which 53 bits reach beyond `x`. */
  function ExponentFrom(x: real, e: int): (r: int)
    requires InRange(x) && MIN_EXPONENT <= e <= TOP_EXPONENT
    ensures e <= r <= TOP_EXPONENT && x < Pow2(r + 53)
    ensures r > e ==> Pow2(r + 52) <= x
    decreases TOP_EXPONENT - e, x
  {
    if e == TOP_EXPONENT then TopReaches(e); e
    else if x < Pow2(e + 53) then e
    else ExponentFrom(x, e + 1)
  }

  function Exponent(x: real): (e: int)
    requires InRange(x)
    ensures MIN_EXPONENT <= e <= TOP_EXPONENT && x < Pow2(e + 53)
    ensures e > MIN_EXPONENT ==> Pow2(e + 52) <= x
  {
    ExponentFrom(x, MIN_EXPONENT)
  }

  function Distance(x: real, y: real): real { if x >= y then x - y else y - x }

  /** The nearest integer, ties to even. */
  function NearestInt(s: real): (m: nat)
    requires s >= 0.0
    ensures m == s.Floor || m == s.Floor + 1
    ensures Distance(s, m as real) <= s - s.Floor as real
    ensures Distance(s, m as real) <= (s.Floor + 1) as real - s
    ensures s - s.Floor as real == 0.5 ==> m % 2 == 0
  {
    var m := s.Floor;
    var fraction := s - m as real;
    if fraction < 0.5 || (fraction == 0.5 && m % 2 == 0) then m else m + 1
  }

  lemma Quotient(x: real, unit: real)
    requires unit > 0.0
    ensures Times(x / unit, unit) == x
    ensures x >= 0.0 ==> x / unit >= 0.0
  {
  }

  function Significand(x: real, unit: real): nat
    requires x >= 0.0 && unit > 0.0
  {
    Quotient(x, unit);
    NearestInt(x / unit)
  }

  /** The nearest multiple of a unit. */
  function RoundTo(x: real, unit: real): real
    requires x >= 0.0 && unit > 0.0
  {
    Times(Significand(x, unit) as real, unit)
  }

  function Rnd(x: real): real
    requires InRange(x)
  {
    RoundTo(x, Pow2(Exponent(x)))
  }

  // ---------------------------------------------------------------------------
  // Arithmetic in small pieces
  // ---------------------------------------------------------------------------

  lemma TimesMonotone(a: real, b: real, c: real)
    requires a <= b && c >= 0.0
    ensures Times(a, c) <= Times(b, c)
  {
  }

  lemma TimesStrict(a: real, b: real, c: real)
    requires a < b && c > 0.0
    ensures Times(a, c) < Times(b, c)
  {
  }

  lemma TimesOfDifference(a: real, b: real, c: real)
    ensures Times(a - b, c) == Times(a, c) - Times(b, c)
  {
  }

  lemma Regroup(m: real, p: real, q: real)
    ensures Times(m, Times(p, q)) == Times(Times(m, q), p)
  {
  }

  lemma NearestIntIsNearest(s: real, n: int)
    requires s >= 0.0
    ensures Distance(s, NearestInt(s) as real) <= Distance(s, n as real)
  {
    if n <= s.Floor {
      assert n as real <= s.Floor as real;
    } else {
      assert n as real >= (s.Floor + 1) as real;
    }
  }

  lemma DistanceScales(s: real, m: real, unit: real)
    requires unit > 0.0
    ensures Distance(Times(s, unit), Times(m, unit)) == Times(Distance(s, m), unit)
  {
    if s >= m {
      TimesMonotone(m, s, unit);
      TimesOfDifference(s, m, unit);
    } else {
      TimesMonotone(s, m, unit);
      TimesOfDifference(m, s, unit);
    }
  }

  lemma ScaledBelow(s: real, bound: real, unit: real)
    requires unit > 0.0 && Times(s, unit) < Times(bound, unit)
    ensures s < bound
  {
    if s >= bound { TimesMonotone(bound, s, unit); }
  }

  // ---------------------------------------------------------------------------
  // Rounding is correct
  // ---------------------------------------------------------------------------

  lemma RoundToIsNearest(x: real, unit: real, n: int)
    requires x >= 0.0 && unit > 0.0
    ensures Distance(x, RoundTo(x, unit)) <= Distance(x, Times(n as real, unit))
  {
    var s := x / unit;
    Quotient(x, unit);
    var m := NearestInt(s);
    NearestIntIsNearest(s, n);
    DistanceScales(s, m as real, unit);
    DistanceScales(s, n as real, unit);
    TimesMonotone(Distance(s, m as real), Distance(s, n as real), unit);
  }

  lemma Pow2At53(f: int)
    ensures Pow2(f + 53) == Times(TWO_53 as real, Pow2(f))
  {
    Pow2Of53();
    Pow2Sum(f, 53);
  }

  /** At the same exponent or a higher one a representable number is a multiple of the unit. */
  lemma IsMultiple(m: nat, e: int, k: nat) returns (n: int)
    ensures Times(m as real, Pow2(e + k)) == Times(n as real, Pow2(e))
  {
    Pow2Sum(e, k);
    Pow2Whole(k);
    n := m * Pow2(k).Floor;
    WholeProduct(m, Pow2(k).Floor);
    Regroup(m as real, Pow2(e), Pow2(k));
  }

  lemma WholeProduct(m: int, q: int)
    ensures (m * q) as real == Times(m as real, q as real)
  {
  }

  /** At a lower exponent it lies below every number of the higher one. */
  lemma IsBelow(m: nat, e: int, f: int)
    requires m < TWO_53 && f < e
    ensures Times(m as real, Pow2(f)) < Pow2(e + 52)
  {
    Pow2At53(f);
    Pow2Monotone(f + 53, e + 52);
    TimesStrict(m as real, TWO_53 as real, Pow2(f));
  }

  /** The rounded value is a nearest representable one. */
  lemma RndIsNearest(x: real, m: nat, f: int)
    requires InRange(x) && m < TWO_53 && MIN_EXPONENT <= f <= MAX_EXPONENT
    ensures Distance(x, Rnd(x)) <= Distance(x, Times(m as real, Pow2(f)))
  {
    var e := Exponent(x);
    var unit := Pow2(e);
    if f >= e {
      var n := IsMultiple(m, e, f - e);
      RoundToIsNearest(x, unit, n);
    } else {
      // The power of two just below is itself a multiple of the unit, and nearer.
      IsBelow(m, e, f);
      var n := IsMultiple(1, e, 52);
      assert Times(1.0, Pow2(e + 52)) == Pow2(e + 52);
      RoundToIsNearest(x, unit, n);
    }
  }

  lemma SignificandAtMost(x: real, unit: real, bound: nat)
    requires x >= 0.0 && unit > 0.0 && x < Times(bound as real, unit)
    ensures Significand(x, unit) <= bound
  {
    var s := x / unit;
    Quotient(x, unit);
    ScaledBelow(s, bound as real, unit);
  }

  /** The rounded value is itself representable. */
  lemma RndIsRepresentable(x: real)
    requires InRange(x)
    ensures Representable(Rnd(x))
  {
    var e := Exponent(x);
    var unit := Pow2(e);
    Pow2At53(e);
    SignificandAtMost(x, unit, TWO_53);
    var m := Significand(x, unit);
    if m < TWO_53 {
      assert RepresentableAt(Rnd(x), m, e);
    } else {
      var n := TWO_53 / 2;
      Doubles(e);
      TimesDoubles(n as real, unit);
      assert RepresentableAt(Rnd(x), n, e + 1);
    }
  }

  /** Representable numbers are left alone. */
  lemma RepresentableIsExact(x: real, m: nat, f: int)
    requires InRange(x) && RepresentableAt(x, m, f)
    ensures Rnd(x) == x
  {
    RndIsNearest(x, m, f);
  }

  // ---------------------------------------------------------------------------
  // Safe integers
  // ---------------------------------------------------------------------------

  predicate IsSafeInteger(x: real) {
    x.Floor as real == x && -(MAX_SAFE_INTEGER as real) <= x <= MAX_SAFE_INTEGER as real
  }

  lemma IntegerRepresentable(n: nat)
    requires n < TWO_53
    ensures RepresentableAt(n as real, n, 0)
  {
  }

  lemma SafeIntegersAreExact(n: nat)
    requires n <= MAX_SAFE_INTEGER
    ensures InRange(n as real) && Rnd(n as real) == n as real
  {
    IntegerRepresentable(n);
    RepresentableIsExact(n as real, n, 0);
  }

  lemma LargeStaysLarge(x: real)
    requires InRange(x) && x >= TWO_53 as real
    ensures Rnd(x) >= TWO_53 as real
  {
    var n := TWO_53 / 2;
    assert Pow2(1) == 2.0;
    assert Times(n as real, Pow2(1)) == TWO_53 as real;
    RndIsNearest(x, n, 1);
  }

  /** Checking the rounded result of an integer operation for safety is as good as checking the exact
      result: a safe result is exact, and an unsafe one never looks safe. */
  lemma SafetyCheckIsExact(n: nat)
    requires InRange(n as real)
    ensures IsSafeInteger(Rnd(n as real)) <==> n <= MAX_SAFE_INTEGER
    ensures n <= MAX_SAFE_INTEGER ==> Rnd(n as real) == n as real
  {
    if n <= MAX_SAFE_INTEGER { SafeIntegersAreExact(n); } else { LargeStaysLarge(n as real); }
  }

  // ---------------------------------------------------------------------------
  // Ceiling division
  // ---------------------------------------------------------------------------

  function Ceil(x: real): int { if x.Floor as real == x then x.Floor else x.Floor + 1 }

  function CeilDiv(a: nat, b: nat): (k: nat)
    requires b > 0
    ensures a <= k * b < a + b
  {
    (a + b - 1) / b
  }

  lemma CeilBetween(r: real, k: int)
    requires (k - 1) as real < r <= k as real
    ensures Ceil(r) == k
  {
    if r < k as real { assert r.Floor == k - 1; }
  }

  /** The quotient as a number q with q * b == a. */
  lemma QuotientFacts(a: nat, b: nat, k: nat) returns (q: real)
    requires b > 0 && k >= 1 && (k - 1) * b < a < k * b
    ensures q == a as real / b as real && Times(q, b as real) == a as real
    ensures (k - 1) as real < q < k as real
    ensures Times(q - (k - 1) as real, b as real) >= 1.0
  {
    q := a as real / b as real;
    Quotient(a as real, b as real);
    WholeProduct(k - 1, b);
    WholeProduct(k, b);
    TimesOfDifference(q, (k - 1) as real, b as real);
    ScaledBelow((k - 1) as real, q, b as real);
    ScaledBelow(q, k as real, b as real);
  }

  /** A quotient of safe integers lies further above the integer below it than it can be rounded. */
  lemma GapExceedsRounding(q: real, d: real, a: nat, b: nat)
    requires 0 < a < TWO_53 && 0 < b && q > 0.0 && d > 0.0
    requires Times(q, b as real) == a as real && Times(d, b as real) >= 1.0
    ensures q < Times(TWO_53 as real, d)
  {
    // a * d == q * (b * d) >= q
    TimesMonotone(1.0, Times(d, b as real), q);
    ThreeFactors(q, d, b as real);
    TimesStrict(a as real, TWO_53 as real, d);
    assert Times(1.0, q) == q;
  }

  lemma ThreeFactors(q: real, d: real, b: real)
    ensures Times(Times(d, b), q) == Times(Times(q, b), d)
  {
  }

  lemma RoundingErrorBound(x: real)
    requires InRange(x) && Exponent(x) > MIN_EXPONENT
    ensures Times(TWO_53 as real, Distance(x, Rnd(x))) <= x
  {
    var e := Exponent(x);
    var unit := Pow2(e);
    HalfUnit(x, unit);
    Pow2At53(e);
    Doubles(e + 52);
  }

  lemma HalfUnit(x: real, unit: real)
    requires x >= 0.0 && unit > 0.0
    ensures 2.0 * Distance(x, RoundTo(x, unit)) <= unit
  {
    var s := x / unit;
    Quotient(x, unit);
    var m := NearestInt(s);
    DistanceScales(s, m as real, unit);
    TimesMonotone(Distance(s, m as real), 0.5, unit);
  }

  /** A quotient that is not tiny is rounded at an exponent above the least one. */
  lemma NotSubnormal(q: real, a: nat, b: nat)
    requires InRange(q) && 0 < a && 0 < b < TWO_53 && Times(q, b as real) == a as real
    ensures Exponent(q) > MIN_EXPONENT
  {
    var e := Exponent(q);
    if e == MIN_EXPONENT {
      Pow2Monotone(e + 53, -53);
      var tiny := Pow2(-53);
      Pow2At53(-53);
      TimesStrict(q, tiny, b as real);
      TimesStrict(b as real, TWO_53 as real, tiny);
      TimesCommutes(b as real, tiny);
    }
  }

  lemma TimesCommutes(a: real, b: real)
    ensures Times(a, b) == Times(b, a)
  {
  }

  lemma RoundedStaysBetween(q: real, k: nat)
    requires InRange(q) && k >= 1 && k < TWO_53 && (k - 1) as real < q < k as real
    ensures (k - 1) as real <= Rnd(q) <= k as real
  {
    RndIsNearest(q, k - 1, 0);
    RndIsNearest(q, k, 0);
    assert Times((k - 1) as real, Pow2(0)) == (k - 1) as real;
    assert Times(k as real, Pow2(0)) == k as real;
  }

  lemma InexactCeil(a: nat, b: nat, k: nat)
    requires 0 < a < TWO_53 && 0 < b < TWO_53 && 1 <= k <= a && (k - 1) * b < a < k * b
    ensures InRange(a as real / b as real) && Ceil(Rnd(a as real / b as real)) == k
  {
    var q := QuotientFacts(a, b, k);
    var d := q - (k - 1) as real;
    RoundedStaysBetween(q, k);
    GapExceedsRounding(q, d, a, b);
    NotSubnormal(q, a, b);
    RoundingErrorBound(q);
    CeilBetween(Rnd(q), k);
  }

  lemma ExactCeil(a: nat, b: nat, k: nat)
    requires 0 < b && a == k * b && k < TWO_53
    ensures InRange(a as real / b as real) && Ceil(Rnd(a as real / b as real)) == k
  {
    WholeProduct(k, b);
    ExactQuotient(a as real, b as real, k as real);
    SafeIntegersAreExact(k);
    CeilBetween(k as real, k);
  }

  lemma ExactQuotient(a: real, b: real, k: real)
    requires b > 0.0 && a == Times(k, b)
    ensures a / b == k
  {
  }

  lemma CeilDivAtMost(a: nat, b: nat)
    requires b > 0
    ensures CeilDiv(a, b) <= a
    ensures a > 0 ==> CeilDiv(a, b) >= 1
    ensures CeilDiv(a, b) * b != a ==> (CeilDiv(a, b) - 1) * b < a < CeilDiv(a, b) * b
  {
    var k := CeilDiv(a, b);
    if k > a {
      ProductGrows(k, a + 1, b);
    }
    assert (k - 1) * b == k * b - b;
  }

  lemma ProductGrows(k: nat, n: nat, b: nat)
    requires k >= n && b >= 1
    ensures k * b >= n * b && n * b == (n - 1) * b + b && (n >= 1 ==> (n - 1) * b >= n - 1)
  {
  }

  /** For safe integers the ceiling of the rounded quotient is the exact integer ceiling: rounding can
      neither push a quotient onto the integer below it nor past the one above. */
  lemma CeilOfRoundedQuotient(a: nat, b: nat)
    requires a <= MAX_SAFE_INTEGER && 1 <= b <= MAX_SAFE_INTEGER
    ensures InRange(a as real / b as real) && Ceil(Rnd(a as real / b as real)) == CeilDiv(a, b)
  {
    CeilDivAtMost(a, b);
    var k := CeilDiv(a, b);
    if k * b == a { ExactCeil(a, b, k); } else { InexactCeil(a, b, k); }
  }

  /** The bound matters: one past 2^53 rounding reaches the integer below. */
  lemma CeilGoesWrongBeyondSafeIntegers()
    ensures var x := TWO_53 + 1; InRange(x as real) && Ceil(Rnd(x as real)) == TWO_53 && CeilDiv(x, 1) == TWO_53 + 1
  {
    var x := (TWO_53 + 1) as real;
    var e := Exponent(x);
    Pow2Of53();
    Doubles(53);
    if e <= 0 { Pow2Monotone(e + 53, 53); }
    if e >= 2 { Pow2Monotone(54, e + 52); }
    assert e == 1 && Pow2(1) == 2.0;
    assert Significand(x, 2.0) == TWO_53 / 2;
  }
}
