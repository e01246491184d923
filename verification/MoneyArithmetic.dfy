/** Money amounts as decimal strings with a currency. */
module MoneyArithmetic {
  import opened Maybe
  import opened Decimal
  import opened Integers
  import Rounding

  datatype Money = Money(amount: string, currency: string)

  datatype MoneyError = CurrencyMismatch | InvalidAmount(error: DecimalError) | BadTargetScale

  const DEFAULT_MAX_SCALE := 18

  function Parse(m: Money): Result<DecimalParts, DecimalError> {
    ParseDecimal(m.amount, DEFAULT_MAX_SCALE, true)
  }

  function Max(a: nat, b: nat): nat { if a < b then b else a }

  /** The coefficient a parsed amount has at a scale that is not coarser than its own. */
  function At(p: DecimalParts, scale: nat): int
    requires p.scale <= scale
  {
    p.coefficient * Pow10(scale - p.scale)
  }

  function Exact(coefficient: int, scale: nat): DecimalParts {
    DecimalParts(coefficient, scale, Printed(coefficient, scale))
  }

  /** The exact sum at the finer of the two scales. */
  function Sum(a: DecimalParts, b: DecimalParts): DecimalParts {
    var scale := Max(a.scale, b.scale);
    Exact(At(a, scale) + At(b, scale), scale)
  }

  function Order(a: DecimalParts, b: DecimalParts): int {
    var scale := Max(a.scale, b.scale);
    var x, y := At(a, scale), At(b, scale);
    if x < y then -1 else if x > y then 1 else 0
  }

  function AddMoney(left: Money, right: Money): Result<Money, MoneyError> {
    if left.currency != right.currency then Err(CurrencyMismatch)
    else
      var a, b := Parse(left), Parse(right);
      if a.Err? then Err(InvalidAmount(a.error))
      else if b.Err? then Err(InvalidAmount(b.error))
      else Ok(Money(Sum(a.value, b.value).normalized, left.currency))
  }

  function CompareMoney(left: Money, right: Money): Result<int, MoneyError> {
    if left.currency != right.currency then Err(CurrencyMismatch)
    else
      var a, b := Parse(left), Parse(right);
      if a.Err? then Err(InvalidAmount(a.error))
      else if b.Err? then Err(InvalidAmount(b.error))
      else Ok(Order(a.value, b.value))
  }

  /** The coefficient at `targetScale`: exact when no digit is lost, rounded otherwise. */
  function RoundTo(coefficient: int, scale: nat, targetScale: nat, mode: Rounding.Mode): int {
    if scale <= targetScale then coefficient * Pow10(targetScale - scale)
    else Rounding.Rounded(coefficient, Pow10(scale - targetScale), mode)
  }

  function RoundMoney(value: Money, targetScale: int, mode: Rounding.Mode): Result<Money, MoneyError> {
    if targetScale < 0 || targetScale > 18 then Err(BadTargetScale)
    else
      var p := Parse(value);
      if p.Err? then Err(InvalidAmount(p.error))
      else Ok(Money(Printed(RoundTo(p.value.coefficient, p.value.scale, targetScale, mode), targetScale),
        value.currency))
  }

  // ---- Addition ----

  lemma AtDeeper(p: DecimalParts, scale: nat, deeper: nat)
    requires p.scale <= scale <= deeper
    ensures At(p, deeper) == At(p, scale) * Pow10(deeper - scale)
  {
    Pow10Adds(scale - p.scale, deeper - scale);
    Rounding.Associates(Pow10(scale - p.scale), 1, Pow10(deeper - scale));
    assert p.coefficient * (Pow10(scale - p.scale) * Pow10(deeper - scale))
        == (p.coefficient * Pow10(scale - p.scale)) * Pow10(deeper - scale);
  }

  lemma SumDeeper(a: DecimalParts, b: DecimalParts, scale: nat, deeper: nat)
    requires a.scale <= scale && b.scale <= scale <= deeper
    ensures (At(a, scale) + At(b, scale)) * Pow10(deeper - scale) == At(a, deeper) + At(b, deeper)
  {
    AtDeeper(a, scale, deeper);
    AtDeeper(b, scale, deeper);
    var x, y, k := At(a, scale), At(b, scale), Pow10(deeper - scale);
    assert (x + y) * k == x * k + y * k;
  }

  /** The sum reparses to the exact sum of the two amounts at the finer of their scales. */
  lemma AdditionIsExact(left: Money, right: Money)
    requires left.currency == right.currency && Parse(left).Ok? && Parse(right).Ok?
    ensures AddMoney(left, right).Ok?
    ensures Parse(AddMoney(left, right).value) == Ok(Sum(Parse(left).value, Parse(right).value))
  {
    hide ParseDecimal, Sum;
    SumReparses(Parse(left).value, Parse(right).value);
  }

  lemma SumReparses(a: DecimalParts, b: DecimalParts)
    requires a.scale <= DEFAULT_MAX_SCALE && b.scale <= DEFAULT_MAX_SCALE
    ensures ParseDecimal(Sum(a, b).normalized, DEFAULT_MAX_SCALE, true) == Ok(Sum(a, b))
  {
    hide ParseDecimal, Printed, At;
    var scale := Max(a.scale, b.scale);
    ParsingPrintedReturns(At(a, scale) + At(b, scale), scale, DEFAULT_MAX_SCALE);
  }

  lemma SumAssociates(a: DecimalParts, b: DecimalParts, c: DecimalParts)
    ensures Sum(Sum(a, b), c) == Sum(a, Sum(b, c))
  {
    var deep := Max(Max(a.scale, b.scale), c.scale);
    SumAt(a, b, deep);
    SumAt(b, c, deep);
    assert Max(Sum(a, b).scale, c.scale) == deep == Max(a.scale, Sum(b, c).scale);
  }

  lemma SumAt(a: DecimalParts, b: DecimalParts, deep: nat)
    requires a.scale <= deep && b.scale <= deep
    ensures Sum(a, b).scale <= deep && At(Sum(a, b), deep) == At(a, deep) + At(b, deep)
  {
    SumDeeper(a, b, Max(a.scale, b.scale), deep);
  }

  /** Adding three amounts gives the same string however they are grouped. */
  lemma AdditionAssociates(x: Money, y: Money, z: Money)
    requires x.currency == y.currency == z.currency && Parse(x).Ok? && Parse(y).Ok? && Parse(z).Ok?
    ensures AddMoney(x, y).Ok? && AddMoney(y, z).Ok?
    ensures AddMoney(AddMoney(x, y).value, z) == AddMoney(x, AddMoney(y, z).value)
  {
    hide Parse, Sum;
    AdditionIsExact(x, y);
    AdditionIsExact(y, z);
    SumAssociates(Parse(x).value, Parse(y).value, Parse(z).value);
  }

  lemma OrderOfSums(a: DecimalParts, b: DecimalParts, c: DecimalParts)
    ensures Order(Sum(a, c), Sum(b, c)) == Order(a, b)
  {
    var deep := Max(Max(a.scale, b.scale), c.scale);
    SumAt(a, c, deep);
    SumAt(b, c, deep);
    OrderAtAnyScale(a, b, deep);
    OrderAtAnyScale(Sum(a, c), Sum(b, c), deep);
  }

  /** The order of two amounts does not change when the same amount is added to both. */
  lemma ComparisonIsTranslationInvariant(x: Money, y: Money, z: Money)
    requires x.currency == y.currency == z.currency && Parse(x).Ok? && Parse(y).Ok? && Parse(z).Ok?
    ensures AddMoney(x, z).Ok? && AddMoney(y, z).Ok?
    ensures CompareMoney(AddMoney(x, z).value, AddMoney(y, z).value) == CompareMoney(x, y)
  {
    hide Parse, Sum, Order;
    AdditionIsExact(x, z);
    AdditionIsExact(y, z);
    OrderOfSums(Parse(x).value, Parse(y).value, Parse(z).value);
  }

  lemma OrderAtAnyScale(a: DecimalParts, b: DecimalParts, deep: nat)
    requires a.scale <= deep && b.scale <= deep
    ensures var s := Max(a.scale, b.scale);
            && (At(a, s) < At(b, s) <==> At(a, deep) < At(b, deep))
            && (At(a, s) > At(b, s) <==> At(a, deep) > At(b, deep))
  {
    var s := Max(a.scale, b.scale);
    AtDeeper(a, s, deep);
    AtDeeper(b, s, deep);
    var x, y, k := At(a, s), At(b, s), Pow10(deep - s);
    ScalingKeepsOrder(x, y, k);
    ScalingKeepsOrder(y, x, k);
  }

  lemma ScalingKeepsOrder(x: int, y: int, k: nat)
    requires k >= 1
    ensures x < y <==> x * k < y * k
  {
  }

  // ---- Rounding ----

  lemma RegroupProduct(c: int, j: nat, k: nat)
    ensures c * (j * k) == (c * j) * k
  {
  }

  lemma RoundToCoarserOfExact(c: int, up: nat, down: nat, mode: Rounding.Mode)
    requires down >= 1
    ensures Rounding.Rounded(c * (up * down), down, mode) == c * up
  {
    RegroupProduct(c, up, down);
    Rounding.MultipleIsFixed(mode, c * up, down);
  }

  /** Rounding sees the value, not the scale it is written at. */
  lemma RoundToSeesTheValue(coefficient: int, scale: nat, more: nat, targetScale: nat, mode: Rounding.Mode)
    ensures RoundTo(coefficient * Pow10(more), scale + more, targetScale, mode)
            == RoundTo(coefficient, scale, targetScale, mode)
  {
    hide Pow10, Rounding.Rounded;
    if scale + more <= targetScale {
      var rest := targetScale - scale - more;
      assert more + rest == targetScale - scale;
      Pow10Adds(more, rest);
      RegroupProduct(coefficient, Pow10(more), Pow10(rest));
    } else if scale <= targetScale {
      var up, down := targetScale - scale, scale + more - targetScale;
      assert up + down == more;
      Pow10Adds(up, down);
      RoundToCoarserOfExact(coefficient, Pow10(up), Pow10(down), mode);
    } else {
      var down := scale - targetScale;
      assert down + more == scale + more - targetScale;
      Pow10Adds(down, more);
      Rounding.ScaleDoesNotMatter(mode, coefficient, Pow10(down), Pow10(more));
    }
  }

  lemma RoundToAt(p: DecimalParts, deep: nat, targetScale: nat, mode: Rounding.Mode)
    requires p.scale <= deep
    ensures RoundTo(At(p, deep), deep, targetScale, mode) == RoundTo(p.coefficient, p.scale, targetScale, mode)
  {
    RoundToSeesTheValue(p.coefficient, p.scale, deep - p.scale, targetScale, mode);
  }

  lemma RoundMoneyParts(value: Money, targetScale: nat, mode: Rounding.Mode)
    requires targetScale <= 18 && Parse(value).Ok?
    ensures var p := Parse(value).value; var q := RoundTo(p.coefficient, p.scale, targetScale, mode);
            && RoundMoney(value, targetScale, mode) == Ok(Money(Printed(q, targetScale), value.currency))
            && Parse(Money(Printed(q, targetScale), value.currency))
               == Ok(DecimalParts(q, targetScale, Printed(q, targetScale)))
  {
    hide ParseDecimal, Printed, RoundTo;
    var p := Parse(value).value;
    ParsingPrintedReturns(RoundTo(p.coefficient, p.scale, targetScale, mode), targetScale, DEFAULT_MAX_SCALE);
  }

  /** The rounded amount reparses to a coefficient that is exact, or the one that the mode promises. */
  lemma RoundMoneyKeepsItsPromise(value: Money, targetScale: nat, mode: Rounding.Mode)
    requires targetScale <= 18 && Parse(value).Ok?
    ensures var p := Parse(value).value; var r := RoundMoney(value, targetScale, mode);
            && r.Ok? && r.value.currency == value.currency
            && Parse(r.value).Ok? && Parse(r.value).value.scale == targetScale
            && var q := Parse(r.value).value.coefficient;
            if p.scale <= targetScale then q == At(p, targetScale)
            else Rounding.Rounds(mode, p.coefficient, Pow10(p.scale - targetScale), q)
  {
    hide ParseDecimal, Printed, RoundMoney, Rounding.Rounds, At, RoundTo;
    var p := Parse(value).value;
    RoundMoneyParts(value, targetScale, mode);
    RoundToKeepsItsPromise(p, targetScale, mode);
  }

  lemma RoundToKeepsItsPromise(p: DecimalParts, targetScale: nat, mode: Rounding.Mode)
    ensures var q := RoundTo(p.coefficient, p.scale, targetScale, mode);
            if p.scale <= targetScale then q == At(p, targetScale)
            else Rounding.Rounds(mode, p.coefficient, Pow10(p.scale - targetScale), q)
  {
    if p.scale > targetScale {
      var d := Pow10(p.scale - targetScale);
      Rounding.RoundedIsExact(mode, p.coefficient, d, Rounding.Rounded(p.coefficient, d, mode));
    }
  }

  /** A smaller amount, at whatever scale, never rounds to a larger one. */
  lemma RoundMoneyIsMonotone(x: Money, y: Money, targetScale: nat, mode: Rounding.Mode)
    requires targetScale <= 18 && Parse(x).Ok? && Parse(y).Ok? && x.currency == y.currency
    requires CompareMoney(x, y).value <= 0
    ensures RoundMoney(x, targetScale, mode).Ok? && RoundMoney(y, targetScale, mode).Ok?
    ensures CompareMoney(RoundMoney(x, targetScale, mode).value, RoundMoney(y, targetScale, mode).value).Ok?
    ensures CompareMoney(RoundMoney(x, targetScale, mode).value, RoundMoney(y, targetScale, mode).value).value <= 0
  {
    hide ParseDecimal, Printed, RoundTo, RoundMoney, Order;
    RoundMoneyParts(x, targetScale, mode);
    RoundMoneyParts(y, targetScale, mode);
    RoundToKeepsOrder(Parse(x).value, Parse(y).value, targetScale, mode);
  }

  lemma RoundToKeepsOrder(a: DecimalParts, b: DecimalParts, targetScale: nat, mode: Rounding.Mode)
    requires Order(a, b) <= 0
    ensures Order(Exact(RoundTo(a.coefficient, a.scale, targetScale, mode), targetScale),
                  Exact(RoundTo(b.coefficient, b.scale, targetScale, mode), targetScale)) <= 0
  {
    hide Printed, RoundTo;
    var deep := Max(a.scale, b.scale);
    RoundToAt(a, deep, targetScale, mode);
    RoundToAt(b, deep, targetScale, mode);
    RoundToIsMonotone(At(a, deep), At(b, deep), deep, targetScale, mode);
  }

  lemma RoundToIsMonotone(b: int, c: int, scale: nat, targetScale: nat, mode: Rounding.Mode)
    requires b <= c
    ensures RoundTo(b, scale, targetScale, mode) <= RoundTo(c, scale, targetScale, mode)
  {
    if scale <= targetScale {
      ScalingKeepsOrder(c, b, Pow10(targetScale - scale));
    } else {
      Rounding.RoundedIsMonotone(mode, b, c, Pow10(scale - targetScale));
    }
  }

  /** Rounding to the same scale again changes nothing, whatever the second mode. */
  lemma RoundMoneyIsIdempotent(value: Money, targetScale: nat, mode: Rounding.Mode, again: Rounding.Mode)
    requires targetScale <= 18 && Parse(value).Ok?
    ensures RoundMoney(value, targetScale, mode).Ok?
    ensures RoundMoney(RoundMoney(value, targetScale, mode).value, targetScale, again)
            == RoundMoney(value, targetScale, mode)
  {
    hide ParseDecimal, Printed, RoundMoney;
    RoundMoneyParts(value, targetScale, mode);
    RoundMoneyParts(RoundMoney(value, targetScale, mode).value, targetScale, again);
  }

  lemma RoundToComposes(coefficient: int, scale: nat, fine: nat, coarse: nat, mode: Rounding.Mode)
    requires coarse <= fine && (mode == Rounding.DOWN || mode == Rounding.UP)
    ensures RoundTo(RoundTo(coefficient, scale, fine, mode), fine, coarse, mode)
            == RoundTo(coefficient, scale, coarse, mode)
  {
    if scale <= fine {
      RoundToSeesTheValue(coefficient, scale, fine - scale, coarse, mode);
    } else if coarse < fine {
      Pow10Adds(scale - fine, fine - coarse);
      Rounding.DirectedModesCompose(mode, coefficient, Pow10(scale - fine), Pow10(fine - coarse));
    } else {
      RoundToSame(RoundTo(coefficient, scale, fine, mode), fine, mode);
    }
  }

  lemma RoundToSame(coefficient: int, scale: nat, mode: Rounding.Mode)
    ensures RoundTo(coefficient, scale, scale, mode) == coefficient
  {
  }

  /** DOWN and UP give the same string when the amount is first rounded, the same way, to a finer scale. */
  lemma RoundMoneyComposes(value: Money, fine: nat, coarse: nat, mode: Rounding.Mode)
    requires coarse <= fine <= 18 && Parse(value).Ok? && (mode == Rounding.DOWN || mode == Rounding.UP)
    ensures RoundMoney(value, fine, mode).Ok?
    ensures RoundMoney(RoundMoney(value, fine, mode).value, coarse, mode) == RoundMoney(value, coarse, mode)
  {
    hide ParseDecimal, Printed, RoundMoney, RoundTo;
    var p := Parse(value).value;
    RoundMoneyParts(value, fine, mode);
    RoundMoneyParts(value, coarse, mode);
    RoundMoneyParts(RoundMoney(value, fine, mode).value, coarse, mode);
    RoundToComposes(p.coefficient, p.scale, fine, coarse, mode);
  }

  /** Rounding to `fine` first takes the amount across, or onto, the midpoint between two units at `coarse`. */
  predicate CrossesOnTheWay(coefficient: int, scale: nat, fine: nat, coarse: nat, mode: Rounding.Mode)
    requires coarse <= fine
  {
    scale > fine && Pow10(scale - fine) * Pow10(fine - coarse) >= 1
    && Rounding.CrossesMidpoint(mode, Abs(coefficient), Pow10(scale - fine), Pow10(fine - coarse))
  }

  lemma RoundToComposesExactly(coefficient: int, scale: nat, fine: nat, coarse: nat, mode: Rounding.Mode)
    requires coarse <= fine
    ensures RoundTo(RoundTo(coefficient, scale, fine, mode), fine, coarse, mode)
            == RoundTo(coefficient, scale, coarse, mode)
       <==> !CrossesOnTheWay(coefficient, scale, fine, coarse, mode)
  {
    hide Rounding.Rounded, Rounding.CrossesMidpoint;
    if scale <= fine {
      RoundToSeesTheValue(coefficient, scale, fine - scale, coarse, mode);
    } else {
      Pow10Adds(scale - fine, fine - coarse);
      Rounding.ComposesExactly(mode, coefficient, Pow10(scale - fine), Pow10(fine - coarse));
      if coarse == fine { Rounding.MultipleIsFixed(mode, RoundTo(coefficient, scale, fine, mode), 1); }
    }
  }

  /** In any mode, rounding first to a finer scale gives the same string if and only if it does not cross a midpoint. */
  lemma RoundMoneyComposesExactly(value: Money, fine: nat, coarse: nat, mode: Rounding.Mode)
    requires coarse <= fine <= 18 && Parse(value).Ok?
    ensures RoundMoney(value, fine, mode).Ok?
    ensures RoundMoney(RoundMoney(value, fine, mode).value, coarse, mode) == RoundMoney(value, coarse, mode) <==>
              !CrossesOnTheWay(Parse(value).value.coefficient, Parse(value).value.scale, fine, coarse, mode)
  {
    hide ParseDecimal, Printed, RoundMoney, RoundTo, CrossesOnTheWay;
    var p := Parse(value).value;
    RoundMoneyParts(value, fine, mode);
    RoundMoneyParts(value, coarse, mode);
    RoundMoneyParts(RoundMoney(value, fine, mode).value, coarse, mode);
    RoundToComposesExactly(p.coefficient, p.scale, fine, coarse, mode);
    if RoundMoney(RoundMoney(value, fine, mode).value, coarse, mode) == RoundMoney(value, coarse, mode) {
      PrintedIsInjective(RoundTo(RoundTo(p.coefficient, p.scale, fine, mode), fine, coarse, mode),
                         RoundTo(p.coefficient, p.scale, coarse, mode), coarse);
    }
  }

  lemma PrintedIsInjective(a: int, b: int, scale: nat)
    requires scale <= 18 && Printed(a, scale) == Printed(b, scale)
    ensures a == b
  {
    hide ParseDecimal, Printed;
    ParsingPrintedReturns(a, scale, DEFAULT_MAX_SCALE);
    ParsingPrintedReturns(b, scale, DEFAULT_MAX_SCALE);
  }

  lemma RoundToIsOdd(coefficient: int, scale: nat, targetScale: nat, mode: Rounding.Mode)
    ensures RoundTo(-coefficient, scale, targetScale, mode) == -RoundTo(coefficient, scale, targetScale, mode)
  {
    if scale <= targetScale {
      RegroupProduct(-1, Abs(coefficient), Pow10(targetScale - scale));
    } else {
      Rounding.RoundedIsOdd(mode, coefficient, Pow10(scale - targetScale));
    }
  }

  /** Opposite amounts round to opposite amounts. */
  lemma RoundMoneyIsOdd(x: Money, y: Money, targetScale: nat, mode: Rounding.Mode)
    requires targetScale <= 18 && Parse(x).Ok? && Parse(y).Ok?
    requires Parse(x).value.scale == Parse(y).value.scale && Parse(x).value.coefficient == -Parse(y).value.coefficient
    ensures RoundMoney(x, targetScale, mode).Ok? && RoundMoney(y, targetScale, mode).Ok?
    ensures var r, s := Parse(RoundMoney(x, targetScale, mode).value), Parse(RoundMoney(y, targetScale, mode).value);
            r.Ok? && s.Ok? && r.value.coefficient == -s.value.coefficient
  {
    hide ParseDecimal, Printed, RoundMoney, RoundTo;
    RoundMoneyParts(x, targetScale, mode);
    RoundMoneyParts(y, targetScale, mode);
    RoundToIsOdd(Parse(y).value.coefficient, Parse(y).value.scale, targetScale, mode);
  }

  /**
   * Comparison agrees with addition: adding an amount moves up, stays or moves down as that amount is positive, zero or
   * negative.
   */
  lemma ComparisonFollowsAddition(x: Money, z: Money)
    requires x.currency == z.currency && Parse(x).Ok? && Parse(z).Ok?
    ensures AddMoney(x, z).Ok?
    ensures var c := Parse(z).value.coefficient;
            CompareMoney(x, AddMoney(x, z).value) == Ok(if c > 0 then -1 else if c == 0 then 0 else 1)
  {
    hide Parse, Sum, Order;
    AdditionIsExact(x, z);
    OrderAfterSum(Parse(x).value, Parse(z).value);
  }

  lemma OrderAfterSum(a: DecimalParts, c: DecimalParts)
    ensures Order(a, Sum(a, c)) == if c.coefficient > 0 then -1 else if c.coefficient == 0 then 0 else 1
  {
    var scale := Max(a.scale, c.scale);
    assert Pow10(0) == 1;
    SignOfProduct(c.coefficient, Pow10(scale - c.scale));
  }

  lemma SignOfProduct(c: int, p: int)
    requires p >= 1
    ensures (c * p > 0 <==> c > 0) && (c * p == 0 <==> c == 0)
  {
  }
}
