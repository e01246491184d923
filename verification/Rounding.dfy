/** The four rounding modes on integers: `c / d` rounded to an integer, for a positive divisor. */
module Rounding {
  import opened Integers

  datatype Mode = HALF_UP | HALF_EVEN | DOWN | UP

  function RoundedAbs(n: nat, d: nat, mode: Mode): nat
    requires d >= 1
  {
    var quotient, remainder := n / d, n % d;
    var increment := remainder != 0 &&
                     match mode
                     case UP => true
                     case HALF_UP => remainder * 2 >= d
                     case HALF_EVEN => remainder * 2 > d || (remainder * 2 == d && quotient % 2 == 1)
                     case DOWN => false;
    if increment then quotient + 1 else quotient
  }

  function Rounded(c: int, d: nat, mode: Mode): int
    requires d >= 1
  {
    if c < 0 then 0 - RoundedAbs(-c, d, mode) else RoundedAbs(c, d, mode)
  }

  /** What each mode promises of a result `q`: its error, its direction and, on a tie, the chosen neighbour. */
  ghost predicate Rounds(mode: Mode, c: int, d: nat, q: int) {
    && (c >= 0 ==> q >= 0) && (c <= 0 ==> q <= 0)
    && RoundsAbs(mode, Abs(c), d, Abs(q))
  }

  ghost predicate RoundsAbs(mode: Mode, n: nat, d: nat, q: nat) {
    Near(mode, n, d, q, q * d)
  }

  /** `product`, the value of `q` units of size `d`, is where the mode puts `n`. */
  ghost predicate Near(mode: Mode, n: nat, d: nat, q: nat, product: int) {
    match mode
    case DOWN => product <= n < product + d
    case UP => product - d < n <= product
    case HALF_UP => 2 * product - d <= 2 * n < 2 * product + d
    case HALF_EVEN => 2 * n - d <= 2 * product <= 2 * n + d && (Abs(2 * product - 2 * n) == d ==> q % 2 == 0)
  }

  lemma DivMod(n: nat, d: nat)
    requires d >= 1
    ensures n == n / d * d + n % d && 0 <= n % d < d
  {
  }

  lemma Multiples(a: nat, b: nat, d: nat)
    ensures a < b ==> a * d + d <= b * d
    ensures (a + 1) * d == a * d + d
  {
    if a < b {
      assert b * d == a * d + (b - a) * d;
      assert (b - a) * d >= d;
    }
  }

  /**
   * With `n` between `k` and `k + 1` units, only one of the two is near enough; products are passed as plain numbers.
   */
  lemma OnlyNeighbourIsNear(mode: Mode, n: nat, d: nat, k: nat, r: nat, q: nat, kd: int, qd: int)
    requires d >= 1 && n == kd + r && r < d
    requires q == k ==> qd == kd
    requires q == k + 1 ==> qd == kd + d
    requires q < k ==> qd + d <= kd
    requires q > k + 1 ==> kd + d + d <= qd
    ensures Near(mode, n, d, q, qd)
            <==> q == if r != 0 && (match mode
                                    case UP => true
                                    case HALF_UP => r * 2 >= d
                                    case HALF_EVEN => r * 2 > d || (r * 2 == d && k % 2 == 1)
                                    case DOWN => false) then k + 1 else k
  {
  }

  lemma RoundedAbsIsExact(mode: Mode, n: nat, d: nat, q: nat)
    requires d >= 1
    ensures RoundsAbs(mode, n, d, q) <==> q == RoundedAbs(n, d, mode)
  {
    DivMod(n, d);
    var k := n / d;
    Multiples(k, q, d);
    Multiples(q, k, d);
    Multiples(k + 1, q, d);
    OnlyNeighbourIsNear(mode, n, d, k, n % d, q, k * d, q * d);
  }

  /** The computed result is the one and only integer the mode's promise allows. */
  lemma RoundedIsExact(mode: Mode, c: int, d: nat, q: int)
    requires d >= 1
    ensures Rounds(mode, c, d, q) <==> q == Rounded(c, d, mode)
  {
    RoundedAbsIsExact(mode, Abs(c), d, Abs(q));
    if c == 0 {
      RoundedAbsIsExact(mode, 0, d, 0);
      assert 0 / d == 0 && 0 % d == 0;
    }
  }

  lemma RoundedIsOdd(mode: Mode, c: int, d: nat)
    requires d >= 1
    ensures Rounded(-c, d, mode) == -Rounded(c, d, mode)
  {
    assert 0 / d == 0 && 0 % d == 0;
  }

  lemma QuotientMonotone(m: nat, n: nat, d: nat)
    requires d >= 1 && m <= n
    ensures m / d <= n / d
    ensures m / d == n / d ==> m % d <= n % d
  {
    DivMod(m, d);
    DivMod(n, d);
    Multiples(n / d, m / d, d);
  }

  lemma RoundedIsMonotone(mode: Mode, b: int, c: int, d: nat)
    requires d >= 1 && b <= c
    ensures Rounded(b, d, mode) <= Rounded(c, d, mode)
  {
    if b >= 0 {
      QuotientMonotone(b, c, d);
    } else if c < 0 {
      QuotientMonotone(-c, -b, d);
    }
  }

  /** Rounding an exact multiple changes nothing. */
  lemma MultipleIsFixed(mode: Mode, q: int, d: nat)
    requires d >= 1
    ensures Rounded(q * d, d, mode) == q
  {
    var k := Abs(q);
    DivModIsUnique(k * d, d, k, 0);
    if q < 0 {
      assert q * d == -(k * d);
      assert k * d >= 1 by { Multiples(0, k, d); }
    }
  }

  lemma ScaledDivMod(n: nat, d: nat, k: nat)
    requires d >= 1 && k >= 1
    ensures d * k >= 1 && (n * k) / (d * k) == n / d && (n * k) % (d * k) == n % d * k
  {
    DivMod(n, d);
    var q, r := n / d, n % d;
    assert n * k == q * (d * k) + r * k by {
      assert (q * d + r) * k == q * d * k + r * k;
    }
    assert 0 <= r * k < d * k by { Multiples(r, d, k); }
    DivModIsUnique(n * k, d * k, q, r * k);
  }

  lemma DivModIsUnique(n: nat, d: nat, q: nat, r: nat)
    requires d >= 1 && n == q * d + r && r < d
    ensures n / d == q && n % d == r
  {
    DivMod(n, d);
    Multiples(q, n / d, d);
    Multiples(n / d, q, d);
  }

  /** The result depends on the quotient only, not on the scale it is written at. */
  lemma ScaleDoesNotMatter(mode: Mode, c: int, d: nat, k: nat)
    requires d >= 1 && k >= 1
    ensures d * k >= 1 && Rounded(c * k, d * k, mode) == Rounded(c, d, mode)
  {
    hide RoundedAbs;
    RoundedAbsOfScaled(mode, Abs(c), d, k);
    SignOfScaled(c, k);
  }

  lemma SignOfScaled(c: int, k: nat)
    requires k >= 1
    ensures Abs(c * k) == Abs(c) * k && (c * k < 0 <==> c < 0)
  {
    if c < 0 { assert -(c * k) == (-c) * k; }
  }

  lemma RoundedAbsOfScaled(mode: Mode, n: nat, d: nat, k: nat)
    requires d >= 1 && k >= 1
    ensures d * k >= 1 && RoundedAbs(n * k, d * k, mode) == RoundedAbs(n, d, mode)
  {
    ScaledDivMod(n, d, k);
    var r := n % d;
    assert r * k == 0 <==> r == 0;
    assert r * k * 2 == (r * 2) * k;
    Multiples(r * 2, d, k);
    Multiples(d, r * 2, k);
  }

  /** Truncating twice, to coarser and coarser units, is truncating once; the same holds away from zero. */
  lemma DirectedModesCompose(mode: Mode, c: int, d: nat, e: nat)
    requires d >= 1 && e >= 1 && (mode == DOWN || mode == UP)
    ensures d * e >= 1 && Rounded(Rounded(c, d, mode), e, mode) == Rounded(c, d * e, mode)
  {
    assert d * e >= 1;
    var first := Rounded(c, d, mode);
    var second := Rounded(first, e, mode);
    RoundedIsExact(mode, c, d, first);
    RoundedIsExact(mode, first, e, second);
    ComposedBounds(mode, Abs(c), d, e, Abs(first), Abs(second));
    RoundedIsExact(mode, c, d * e, second);
  }

  lemma ComposedBounds(mode: Mode, n: nat, d: nat, e: nat, p: nat, q: nat)
    requires d >= 1 && e >= 1 && (mode == DOWN || mode == UP)
    requires RoundsAbs(mode, n, d, p) && RoundsAbs(mode, p, e, q)
    ensures RoundsAbs(mode, n, d * e, q)
  {
    Multiples(0, q, e);
    if mode == DOWN {
      ComposedFloor(n, d, e, p, q * e);
    } else {
      ComposedCeiling(n, d, e, p, q * e);
    }
    Associates(q, d, e);
  }

  lemma Associates(q: nat, d: nat, e: nat)
    ensures q * (d * e) == (q * e) * d
  {
  }

  lemma ComposedFloor(n: nat, d: nat, e: nat, p: nat, m: nat)
    requires d >= 1 && p * d <= n < p * d + d && m <= p < m + e
    ensures m * d <= n < m * d + d * e
  {
    Multiples(p, m + e, d);
    Distributes(m, e, d);
    Multiples(m, p, d);
  }

  lemma ComposedCeiling(n: nat, d: nat, e: nat, p: nat, m: nat)
    requires d >= 1 && e >= 1 && p * d - d < n <= p * d && m - e < p <= m && (m == 0 || m >= e)
    ensures m * d - d * e < n <= m * d
  {
    Multiples(p, m, d);
    if m == 0 {
      assert d * e >= 1;
    } else {
      Multiples(m - e, p, d);
      Distributes(m - e, e, d);
    }
  }

  lemma Distributes(a: nat, b: nat, d: nat)
    ensures (a + b) * d == a * d + d * b
  {
  }

  // ---- Rounding to the nearest twice ----

  /**
   * Rounding `n` to units of `d` first carries it across the midpoint between two units of `d * e`, or onto it: `n` is
   * within half a small unit below the midpoint, or for HALF_EVEN on the side that the tie would not choose.
   */
  predicate CrossesMidpoint(mode: Mode, n: nat, d: nat, e: nat)
    requires d * e >= 1
  {
    var twice, odd := 2 * (n % (d * e)), n / (d * e) % 2 == 1;
    match mode
    case DOWN => false
    case UP => false
    case HALF_UP => e % 2 == 0 && d * e - d <= twice < d * e
    case HALF_EVEN =>
      if e % 2 == 1 then e % 4 == 3 && twice == d * e
      else if odd then d * e - d < twice < d * e || (e % 4 == 0 && twice == d * e - d)
      else d * e < twice < d * e + d || (e % 4 == 0 && twice == d * e + d)
  }

  /** Whether rounding to the nearest goes up from `quotient`, `twice` being double the remainder. */
  predicate GoesUp(mode: Mode, quotient: int, twice: int, unit: int) {
    if mode == HALF_UP then twice >= unit else twice > unit || (twice == unit && quotient % 2 == 1)
  }

  /** CrossesMidpoint in plain numbers: `y` is how far double the remainder is above the unit of `d * e`. */
  predicate Crosses(mode: Mode, q: nat, y: int, d: nat, e: nat) {
    if mode == HALF_UP then e % 2 == 0 && 0 - d <= y < 0
    else if e % 2 == 1 then e % 4 == 3 && y == 0
    else if q % 2 == 1 then 0 - d < y < 0 || (e % 4 == 0 && y == 0 - d)
    else 0 < y < d || (e % 4 == 0 && y == d)
  }

  lemma CrossesMeans(mode: Mode, n: nat, d: nat, e: nat, q: nat, y: int)
    requires (mode == HALF_UP || mode == HALF_EVEN) && d * e >= 1
    requires q == n / (d * e) && 2 * (n % (d * e)) == d * e + y
    ensures CrossesMidpoint(mode, n, d, e) <==> Crosses(mode, q, y, d, e)
  {
  }

  /**
   * The two roundings, with `r` and `s` the digits below the unit of `d * e`: `x` is how far twice `r` is above `e`,
   * and `xd` that many units of `d`. Only sums of given products are compared.
   */
  lemma MidpointArithmetic(mode: Mode, q: nat, r: nat, s: nat, d: nat, e: nat, qe: nat, x: int, xd: int)
    requires (mode == HALF_UP || mode == HALF_EVEN) && d >= 1 && e >= 1 && r < e && s < d && x == 2 * r - e
    requires qe % 2 == if e % 2 == 0 then 0 else q % 2
    requires (x == 0 ==> xd == 0) && (x == -1 ==> xd == 0 - d) && (x == -2 ==> xd == -2 * d)
    requires (x >= 1 ==> xd >= d) && (x >= 2 ==> xd >= 2 * d) && (x <= -3 ==> xd <= -3 * d)
    ensures var inc := if GoesUp(mode, qe + r, 2 * s, d) then 1 else 0;
            GoesUp(mode, q, 2 * (r + inc), e) == GoesUp(mode, q, xd + 2 * s, 0) <==> !Crosses(mode, q, xd + 2 * s, d, e)
  {
    var inc := if GoesUp(mode, qe + r, 2 * s, d) then 1 else 0;
    assert 2 * (r + inc) - e == x + 2 * inc;
    if mode == HALF_EVEN { TieParity(qe, r, if e % 2 == 0 then 0 else q, e, x); }
  }

  /** Which way the first tie goes where it matters, with `x` at most two units off the midpoint. */
  lemma TieParity(qe: nat, r: nat, parity: nat, e: nat, x: int)
    requires x == 2 * r - e && qe % 2 == parity % 2
    ensures (qe + r) % 2 == (parity + r) % 2
    ensures (e % 2 == 0 <==> x % 2 == 0)
    ensures x == 0 ==> r % 2 == if e % 4 == 0 then 0 else 1
    ensures x == -2 ==> r % 2 == if e % 4 == 0 then 1 else 0
    ensures x == -1 ==> r % 2 == if e % 4 == 3 then 1 else 0
  {
  }

  lemma ParityOfProduct(q: nat, e: nat)
    ensures q * e % 2 == if e % 2 == 0 then 0 else q % 2
  {
    var half := e / 2;
    ProductOfSum(q, half, e % 2);
    DoubleAndRest(q * half, if e % 2 == 0 then 0 else q);
  }

  lemma ProductOfSum(q: nat, half: nat, odd: nat)
    requires odd <= 1
    ensures q * (2 * half + odd) == 2 * (q * half) + if odd == 0 then 0 else q
  {
    assert 2 * half + odd == half + half + odd;
    Distributed(q, half + half, odd);
    Distributed(q, half, half);
  }

  lemma Distributed(q: nat, a: nat, b: nat)
    ensures q * (a + b) == q * a + q * b
  {
  }

  lemma DoubleAndRest(p: nat, rest: nat)
    ensures (2 * p + rest) % 2 == rest % 2
  {
  }

  lemma UnitsOfDifference(x: int, d: nat)
    requires d >= 1
    ensures (x == 0 ==> x * d == 0) && (x == -1 ==> x * d == 0 - d) && (x == -2 ==> x * d == -2 * d)
    ensures (x >= 1 ==> x * d >= d) && (x >= 2 ==> x * d >= 2 * d) && (x <= -3 ==> x * d <= -3 * d)
  {
    if x >= 2 { assert (x - 2) * d >= 0; }
    if x <= -3 { assert (-3 - x) * d >= 0; }
  }

  /** `n` is `q` units and a rest that may be a whole unit. */
  predicate IsParts(n: nat, unit: nat, q: nat, rest: nat) {
    rest <= unit && n == q * unit + rest
  }

  /** A carry out of the remainder is one more unit, with nothing left. */
  lemma RoundedFromParts(mode: Mode, n: nat, unit: nat, q: nat, rest: nat)
    requires (mode == HALF_UP || mode == HALF_EVEN) && unit >= 1 && IsParts(n, unit, q, rest)
    ensures RoundedAbs(n, unit, mode) == if GoesUp(mode, q, 2 * rest, unit) then q + 1 else q
  {
    if rest < unit {
      DivModIsUnique(n, unit, q, rest);
    } else {
      Multiples(q, q + 1, unit);
      DivModIsUnique(n, unit, q + 1, 0);
    }
  }

  lemma PartsOfBoth(n: nat, d: nat, e: nat) returns (q: nat, r: nat, s: nat)
    requires d >= 1 && e >= 1
    ensures d * e >= 1 && q == n / (d * e) && r < e && s < d && n % (d * e) == r * d + s
    ensures IsParts(n, d * e, q, r * d + s) && IsParts(n, d, q * e + r, s)
  {
    assert d * e >= 1;
    q := n / (d * e);
    var rest := n % (d * e);
    DivMod(n, d * e);
    DivMod(rest, d);
    r, s := rest / d, rest % d;
    if r >= e { Multiples(e, r + 1, d); }
    Distributes(q * e, r, d);
    Associates(q, d, e);
  }

  /** The increment of the first rounding may fill the rest of the second. */
  lemma CarriedParts(q: nat, r: nat, inc: nat, e: nat)
    requires r < e && inc <= 1
    ensures IsParts(q * e + r + inc, e, q, r + inc)
  {
  }

  lemma NearestComposesExactly(mode: Mode, n: nat, d: nat, e: nat)
    requires d >= 1 && e >= 1 && (mode == HALF_UP || mode == HALF_EVEN)
    ensures d * e >= 1
    ensures RoundedAbs(RoundedAbs(n, d, mode), e, mode) == RoundedAbs(n, d * e, mode) <==>
            !CrossesMidpoint(mode, n, d, e)
  {
    hide RoundedAbs, GoesUp, CrossesMidpoint, Crosses, IsParts;
    var q, r, s := PartsOfBoth(n, d, e);
    var k, y := q * e + r, (2 * r - e) * d + 2 * s;
    var inc := if GoesUp(mode, k, 2 * s, d) then 1 else 0;
    CarriedParts(q, r, inc, e);
    RoundedFromParts(mode, n, d, k, s);
    RoundedFromParts(mode, k + inc, e, q, r + inc);
    RoundedFromParts(mode, n, d * e, q, r * d + s);
    TwiceTheRest(mode, q, r, s, d, e);
    CrossesMeans(mode, n, d, e, q, y);
    SecondStep(mode, q, r, s, d, e);
  }

  lemma SecondStep(mode: Mode, q: nat, r: nat, s: nat, d: nat, e: nat)
    requires (mode == HALF_UP || mode == HALF_EVEN) && r < e && s < d
    ensures var inc := if GoesUp(mode, q * e + r, 2 * s, d) then 1 else 0;
            var y := (2 * r - e) * d + 2 * s;
            GoesUp(mode, q, 2 * (r + inc), e) == GoesUp(mode, q, y, 0) <==> !Crosses(mode, q, y, d, e)
  {
    hide GoesUp, Crosses;
    ParityOfProduct(q, e);
    UnitsOfDifference(2 * r - e, d);
    MidpointArithmetic(mode, q, r, s, d, e, q * e, 2 * r - e, (2 * r - e) * d);
  }

  lemma TwiceTheRest(mode: Mode, q: nat, r: nat, s: nat, d: nat, e: nat)
    ensures var y := (2 * r - e) * d + 2 * s;
            2 * (r * d + s) == d * e + y && GoesUp(mode, q, 2 * (r * d + s), d * e) == GoesUp(mode, q, y, 0)
  {
    assert (2 * r - e) * d == 2 * (r * d) - d * e;
  }

  /**
   * For every mode: rounding to a finer unit first makes no difference if and only if it does not cross the midpoint.
   */
  lemma ComposesExactly(mode: Mode, c: int, d: nat, e: nat)
    requires d >= 1 && e >= 1
    ensures d * e >= 1
    ensures Rounded(Rounded(c, d, mode), e, mode) == Rounded(c, d * e, mode) <==> !CrossesMidpoint(mode, Abs(c), d, e)
  {
    if mode == DOWN || mode == UP {
      DirectedModesCompose(mode, c, d, e);
    } else {
      hide RoundedAbs, CrossesMidpoint;
      NearestComposesExactly(mode, Abs(c), d, e);
      RoundedAbsOfZero(d, mode);
      RoundedAbsOfZero(e, mode);
    }
  }

  lemma RoundedAbsOfZero(d: nat, mode: Mode)
    requires d >= 1
    ensures RoundedAbs(0, d, mode) == 0
  {
    assert 0 / d == 0 && 0 % d == 0;
  }

  /**
   * 45 to the nearest ten and then to the nearest hundred is 100; with ties to even 149 is 200, by way of 150.
   */
  lemma NearestCanMiss()
    ensures CrossesMidpoint(HALF_UP, 45, 10, 10) && CrossesMidpoint(HALF_EVEN, 149, 10, 10)
    ensures Rounded(Rounded(45, 10, HALF_UP), 10, HALF_UP) == 1 && Rounded(45, 100, HALF_UP) == 0
    ensures Rounded(Rounded(149, 10, HALF_EVEN), 10, HALF_EVEN) == 2 && Rounded(149, 100, HALF_EVEN) == 1
  {
  }
}
