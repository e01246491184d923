/** Exact conversion between the base and kilo units of a quantity. */
module QuantityConversion {
  import opened Maybe
  import opened Decimal
  import opened Integers

  datatype Unit = W | KW | WH | KWH | V | A | AH | VA | KVA | PERCENT

  datatype Dimension = POWER | ENERGY | VOLTAGE | CURRENT | CHARGE | APPARENT_POWER | RATIO_PERCENT

  function DimensionOf(unit: Unit): Dimension {
    match unit
    case W | KW => POWER
    case WH | KWH => ENERGY
    case V => VOLTAGE
    case A => CURRENT
    case AH => CHARGE
    case VA | KVA => APPARENT_POWER
    case PERCENT => RATIO_PERCENT
  }

  function DecimalExponent(unit: Unit): nat {
    if unit == KW || unit == KWH || unit == KVA then 3 else 0
  }

  datatype Quantity = Quantity(value: string, unit: Unit)

  datatype QuantityError = IncompatibleUnits | InvalidValue(error: DecimalError)

  const MAX_SCALE := 18

  /** Drops trailing zeros, then a trailing point. */
  function TrimZeros(s: string): string {
    if s != "" && s[|s| - 1] == '0' then TrimZeros(s[..|s| - 1]) else s
  }

  function Trimmed(s: string): string {
    if '.' !in s then s
    else
      var t := TrimZeros(s);
      if t != "" && t[|t| - 1] == '.' then t[..|t| - 1] else t
  }

  /** The same value counted in the target unit, as a coefficient and a scale. */
  function Shifted(coefficient: int, scale: nat, source: Unit, target: Unit): (int, nat) {
    var from, to := DecimalExponent(source), DecimalExponent(target);
    (if from > to then coefficient * Pow10(from - to) else coefficient,
      if from < to then scale + (to - from) else scale)
  }

  function ConvertQuantity(value: Quantity, target: Unit): Result<Quantity, QuantityError> {
    if DimensionOf(value.unit) != DimensionOf(target) then Err(IncompatibleUnits)
    else if value.unit == target then Ok(value)
    else
      var p := ParseDecimal(value.value, MAX_SCALE, true);
      if p.Err? then Err(InvalidValue(p.error))
      else
        var (coefficient, scale) := Shifted(p.value.coefficient, p.value.scale, value.unit, target);
        var formatted := FormatDecimal(coefficient, scale);
        if formatted.Err? then Err(InvalidValue(formatted.error)) else Ok(Quantity(Trimmed(formatted.value), target))
  }

  // ---- Dropping trailing zeros keeps the value ----

  /** The same value at the smallest possible scale. */
  function Reduced(coefficient: int, scale: nat): (int, nat)
    decreases scale
  {
    if scale > 0 && coefficient % 10 == 0 then Reduced(coefficient / 10, scale - 1) else (coefficient, scale)
  }

  function PrintedReduced(coefficient: int, scale: nat): string {
    Printed(Reduced(coefficient, scale).0, Reduced(coefficient, scale).1)
  }

  lemma {:induction false} ReducedKeepsValue(coefficient: int, scale: nat)
    ensures var (c, s) := Reduced(coefficient, scale);
            s <= scale && coefficient == c * Pow10(scale - s) && (s == 0 || c % 10 != 0)
    decreases scale
  {
    if scale > 0 && coefficient % 10 == 0 {
      ReducedKeepsValue(coefficient / 10, scale - 1);
      var (c, s) := Reduced(coefficient / 10, scale - 1);
      TenTimes(c, Pow10(scale - 1 - s));
    }
  }

  lemma TenTimes(c: int, p: nat)
    ensures 10 * (c * p) == c * (10 * p) == (c * 10) * p
  {
  }

  /** Writing a value at a deeper scale does not change its reduced form. */
  lemma {:induction false} ReducedOfDeeper(coefficient: int, scale: nat, more: nat)
    ensures Reduced(coefficient * Pow10(more), scale + more) == Reduced(coefficient, scale)
  {
    if more > 0 {
      ReducedOfDeeper(coefficient, scale, more - 1);
      TenTimes(coefficient, Pow10(more - 1));
      var x := coefficient * Pow10(more - 1);
      assert (10 * x) % 10 == 0 && 10 * x / 10 == x;
    }
  }

  lemma DigitsTenfold(n: nat)
    requires n >= 1
    ensures Digits(10 * n) == Digits(n) + "0"
  {
    DigitCharOfValue('0');
    DigitsOfLonger(Digits(n), n, '0');
  }

  lemma PaddedTenfold(n: nat, scale: nat)
    requires scale >= 1
    ensures Padded(10 * n, scale) == Padded(n, scale - 1) + "0"
  {
    if n == 0 {
      DigitCharOfValue('0');
      assert Digits(0) == "0";
      assert Zeros(scale) + "0" == Zeros(scale - 1) + "0" + "0";
    } else {
      DigitsTenfold(n);
    }
  }

  lemma PartsTenfold(n: nat, scale: nat)
    requires scale >= 1
    ensures WholePart(10 * n, scale) == WholePart(n, scale - 1)
    ensures FractionPart(10 * n, scale) == FractionPart(n, scale - 1) + "0"
  {
    hide Padded;
    PaddedTenfold(n, scale);
    var raw := Padded(n, scale - 1);
    assert (raw + "0")[..|raw| + 1 - scale] == raw[..|raw| - (scale - 1)];
    assert (raw + "0")[|raw| + 1 - scale..] == raw[|raw| - (scale - 1)..] + "0";
  }

  lemma PrintedTenfold(coefficient: int, scale: nat)
    requires scale >= 1
    ensures Printed(10 * coefficient, scale) == Printed(coefficient, scale - 1) + if scale == 1 then ".0" else "0"
  {
    hide Joined, WholePart, FractionPart;
    var n := Abs(coefficient);
    assert Abs(10 * coefficient) == 10 * n && (10 * coefficient < 0 <==> coefficient < 0);
    PartsTenfold(n, scale);
    JoinedWithZero(coefficient < 0, WholePart(n, scale - 1), FractionPart(n, scale - 1));
  }

  lemma JoinedWithZero(negative: bool, whole: string, fraction: string)
    ensures Joined(negative, whole, fraction + "0")
            == Joined(negative, whole, fraction) + if fraction == "" then ".0" else "0"
  {
  }

  lemma PrintedPoint(coefficient: int, scale: nat)
    ensures '.' in Printed(coefficient, scale) <==> scale > 0
    ensures var t := Printed(coefficient, scale); t != "" && IsDigit(t[|t| - 1])
  {
    hide Joined, WholePart, FractionPart;
    PrintedDigits(Abs(coefficient), scale);
    JoinedPoint(coefficient < 0, WholePart(Abs(coefficient), scale), FractionPart(Abs(coefficient), scale));
  }

  lemma JoinedPoint(negative: bool, whole: string, fraction: string)
    requires AllDigits(whole) && whole != "" && AllDigits(fraction)
    ensures '.' in Joined(negative, whole, fraction) <==> fraction != ""
    ensures var t := Joined(negative, whole, fraction); t != "" && IsDigit(t[|t| - 1])
  {
    var t := Joined(negative, whole, fraction);
    if fraction != "" {
      assert t[|t| - 1] == fraction[|fraction| - 1];
      assert t[|t| - |fraction| - 1] == '.';
    } else {
      assert t[|t| - 1] == whole[|whole| - 1];
    }
  }

  lemma LastDigit(coefficient: int, scale: nat)
    requires Abs(coefficient) % 10 != 0 && scale > 0
    ensures var t := Printed(coefficient, scale); t != "" && t[|t| - 1] != '0'
  {
    var n := Abs(coefficient);
    var d := Digits(n);
    assert d[|d| - 1] == DigitChar(n % 10);
    assert Padded(n, scale)[|Padded(n, scale)| - 1] == d[|d| - 1];
    assert FractionPart(n, scale)[scale - 1] == d[|d| - 1];
    assert Printed(coefficient, scale)[|Printed(coefficient, scale)| - 1] == FractionPart(n, scale)[scale - 1];
  }

  /** Trimming the printed form prints the reduced form. */
  lemma {:induction false} TrimmedPrinted(coefficient: int, scale: nat)
    ensures Trimmed(Printed(coefficient, scale)) == PrintedReduced(coefficient, scale)
    decreases scale
  {
    hide Printed, Trimmed;
    if scale > 0 && coefficient % 10 == 0 {
      assert coefficient == 10 * (coefficient / 10);
      TrimmedTenfold(coefficient / 10, scale);
      TrimmedPrinted(coefficient / 10, scale - 1);
    } else {
      TrimmedAlready(coefficient, scale);
    }
  }

  lemma TrimmedAlready(coefficient: int, scale: nat)
    requires scale == 0 || coefficient % 10 != 0
    ensures Trimmed(Printed(coefficient, scale)) == Printed(coefficient, scale)
  {
    hide Printed;
    PrintedPoint(coefficient, scale);
    if scale > 0 { LastDigit(coefficient, scale); }
  }

  lemma TrimmedTenfold(coefficient: int, scale: nat)
    requires scale >= 1
    ensures Trimmed(Printed(10 * coefficient, scale)) == Trimmed(Printed(coefficient, scale - 1))
  {
    hide Printed, Trimmed;
    PrintedTenfold(coefficient, scale);
    PrintedPoint(coefficient, scale - 1);
    TrimDropsZero(Printed(coefficient, scale - 1), scale == 1);
  }

  lemma TrimDropsZero(t: string, point: bool)
    requires t != "" && IsDigit(t[|t| - 1]) && ('.' in t <==> !point)
    ensures Trimmed(t + if point then ".0" else "0") == Trimmed(t)
  {
    if point {
      var u := t + "." + "0";
      assert t + ".0" == u;
      assert u[..|u| - 1] == t + ".";
      assert TrimZeros(t + ".") == t + ".";
      assert TrimZeros(u) == t + ".";
      assert u[|t|] == '.';
      assert (t + ".")[..|t|] == t;
    } else {
      assert (t + "0")[..|t|] == t;
    }
  }

  // ---- Conversions ----

  ghost predicate Kilo(base: Unit, kilo: Unit) {
    DimensionOf(base) == DimensionOf(kilo) && DecimalExponent(base) == 0 && DecimalExponent(kilo) == 3
  }

  lemma Converted(q: Quantity, target: Unit)
    requires DimensionOf(q.unit) == DimensionOf(target) && q.unit != target
             && ParseDecimal(q.value, MAX_SCALE, true).Ok?
    ensures var p := ParseDecimal(q.value, MAX_SCALE, true).value;
            var (c, s) := Shifted(p.coefficient, p.scale, q.unit, target);
            ConvertQuantity(q, target) == Ok(Quantity(PrintedReduced(c, s), target))
  {
    hide ParseDecimal, Printed, Trimmed, Reduced;
    var p := ParseDecimal(q.value, MAX_SCALE, true).value;
    var (c, s) := Shifted(p.coefficient, p.scale, q.unit, target);
    TrimmedPrinted(c, s);
  }

  lemma RefusedBy(q: Quantity, target: Unit)
    requires DimensionOf(q.unit) == DimensionOf(target) && q.unit != target
             && ParseDecimal(q.value, MAX_SCALE, true).Err?
    ensures ConvertQuantity(q, target) == Err(InvalidValue(ParseDecimal(q.value, MAX_SCALE, true).error))
  {
  }

  lemma BaseKiloBaseValue(coefficient: int, scale: nat, base: Unit, kilo: Unit)
    requires Kilo(base, kilo)
    ensures Shifted(coefficient, scale, base, kilo) == (coefficient, scale + 3)
    ensures var (c, s) := Reduced(coefficient, scale + 3); var (c', s') := Shifted(c, s, kilo, base);
            Reduced(c', s') == Reduced(coefficient, scale)
  {
    var (c, s) := Reduced(coefficient, scale + 3);
    ReducedKeepsValue(coefficient, scale + 3);
    ReducedOfDeeper(coefficient, scale, 3);
    ReducedOfDeeper(c * Pow10(3), s, scale + 3 - s);
    SwapFactors(c, Pow10(3), Pow10(scale + 3 - s));
  }

  lemma SwapFactors(c: int, p: nat, q: nat)
    ensures (c * p) * q == (c * q) * p
  {
  }

  /**
   * From a base unit to its kilo unit and back: the first step always succeeds; the second does exactly when
   * the intermediate value needs at most 18 decimals, and then the value is the original one, trailing zeros dropped.
   */
  lemma BaseToKiloAndBack(q: Quantity, kilo: Unit)
    requires Kilo(q.unit, kilo) && ParseDecimal(q.value, MAX_SCALE, true).Ok?
    ensures var p := ParseDecimal(q.value, MAX_SCALE, true).value;
            && ConvertQuantity(q, kilo).Ok?
            && ConvertQuantity(ConvertQuantity(q, kilo).value, q.unit)
               == if Reduced(p.coefficient, p.scale + 3).1 <= MAX_SCALE
                  then Ok(Quantity(PrintedReduced(p.coefficient, p.scale), q.unit))
                  else Err(InvalidValue(ScaleTooLarge))
  {
    hide ConvertQuantity, ParseDecimal, Printed, Reduced, Shifted;
    var p := ParseDecimal(q.value, MAX_SCALE, true).value;
    var (c, s) := Reduced(p.coefficient, p.scale + 3);
    BaseKiloBaseValue(p.coefficient, p.scale, q.unit, kilo);
    Converted(q, kilo);
    BackToBase(c, s, kilo, q.unit);
  }

  lemma BackToBase(c: int, s: nat, kilo: Unit, base: Unit)
    requires Kilo(base, kilo)
    ensures var (c', s') := Shifted(c, s, kilo, base);
            ConvertQuantity(Quantity(Printed(c, s), kilo), base)
            == if s <= MAX_SCALE then Ok(Quantity(PrintedReduced(c', s'), base)) else Err(InvalidValue(ScaleTooLarge))
  {
    hide ConvertQuantity, ParseDecimal, Printed, Reduced, Shifted;
    ParsingPrintedReturns(c, s, MAX_SCALE);
    if s <= MAX_SCALE {
      Converted(Quantity(Printed(c, s), kilo), base);
    } else {
      RefusedBy(Quantity(Printed(c, s), kilo), base);
    }
  }

  lemma KiloBaseKiloValue(coefficient: int, scale: nat, base: Unit, kilo: Unit)
    requires Kilo(base, kilo)
    ensures var (c, s) := Shifted(coefficient, scale, kilo, base); var (d, t) := Reduced(c, s);
            var (d', t') := Shifted(d, t, base, kilo);
            s == scale && t <= s && Reduced(d', t') == Reduced(coefficient, scale)
  {
    var (c, s) := Reduced(coefficient * Pow10(3), scale);
    ReducedKeepsValue(coefficient * Pow10(3), scale);
    ReducedOfDeeper(c, s + 3, scale - s);
    ReducedOfDeeper(coefficient, scale, 3);
  }

  /** From a kilo unit to its base unit and back always succeeds and keeps the value. */
  lemma KiloToBaseAndBack(q: Quantity, base: Unit)
    requires Kilo(base, q.unit) && ParseDecimal(q.value, MAX_SCALE, true).Ok?
    ensures var p := ParseDecimal(q.value, MAX_SCALE, true).value;
            && ConvertQuantity(q, base).Ok?
            && ConvertQuantity(ConvertQuantity(q, base).value, q.unit)
               == Ok(Quantity(PrintedReduced(p.coefficient, p.scale), q.unit))
  {
    hide ConvertQuantity, ParseDecimal, Printed, Reduced, Shifted;
    var p := ParseDecimal(q.value, MAX_SCALE, true).value;
    var (c', s') := Shifted(p.coefficient, p.scale, q.unit, base);
    var (c, s) := Reduced(c', s');
    Converted(q, base);
    KiloBaseKiloValue(p.coefficient, p.scale, base, q.unit);
    ParsingPrintedReturns(c, s, MAX_SCALE);
    Converted(Quantity(Printed(c, s), base), q.unit);
  }

  /** A value the first conversion accepts and the way back refuses. */
  lemma SixteenDecimalsDoNotComeBack()
    ensures var q := Quantity(Printed(1, 16), W);
            && ConvertQuantity(q, KW).Ok?
            && ConvertQuantity(ConvertQuantity(q, KW).value, W) == Err(InvalidValue(ScaleTooLarge))
  {
    hide ConvertQuantity, ParseDecimal, Printed;
    ParsingPrintedReturns(1, 16, MAX_SCALE);
    BaseToKiloAndBack(Quantity(Printed(1, 16), W), KW);
  }

  /**
   * Whatever is converted is the same amount: the value times its unit's factor is unchanged, and it is printed without
   * trailing zeros.
   */
  lemma ConversionPreservesValue(q: Quantity, target: Unit)
    requires DimensionOf(q.unit) == DimensionOf(target) && q.unit != target
             && ParseDecimal(q.value, MAX_SCALE, true).Ok?
    ensures var p := ParseDecimal(q.value, MAX_SCALE, true).value;
            var (c', s') := Shifted(p.coefficient, p.scale, q.unit, target);
            var (c, s) := Reduced(c', s');
            && ConvertQuantity(q, target) == Ok(Quantity(Printed(c, s), target))
            && (s == 0 || c % 10 != 0)
            && p.coefficient * Pow10(DecimalExponent(q.unit)) * Pow10(s)
               == c * Pow10(DecimalExponent(target)) * Pow10(p.scale)
  {
    hide ParseDecimal, Printed, ConvertQuantity, Reduced, Shifted, Pow10, DecimalExponent;
    var p := ParseDecimal(q.value, MAX_SCALE, true).value;
    var (c', s') := Shifted(p.coefficient, p.scale, q.unit, target);
    var (c, s) := Reduced(c', s');
    Converted(q, target);
    ReducedKeepsValue(c', s');
    Pow10Adds(s' - s, s);
    assert Pow10(s' - s) * Pow10(s) == Pow10(s');
    ShiftedValue(p.coefficient, p.scale, q.unit, target);
    FactorsMove(p.coefficient * Pow10(DecimalExponent(q.unit)), c', c, Pow10(DecimalExponent(target)), Pow10(p.scale),
      Pow10(s'), Pow10(s' - s), Pow10(s));
  }

  lemma ShiftedValue(coefficient: int, scale: nat, source: Unit, target: Unit)
    requires DimensionOf(source) == DimensionOf(target) && source != target
    ensures var (c, s) := Shifted(coefficient, scale, source, target);
            coefficient * Pow10(DecimalExponent(source)) * Pow10(s) == c * Pow10(DecimalExponent(target)) * Pow10(scale)
  {
    Pow10Adds(scale, 3);
    ShiftedProducts(coefficient, Pow10(3), Pow10(scale), Pow10(scale + 3));
    assert Pow10(0) == 1;
    hide Pow10;
    assert DecimalExponent(source) == 3 <==> DecimalExponent(target) == 0;
  }

  lemma ShiftedProducts(c: int, thousand: int, p: int, q: int)
    requires q == p * thousand
    ensures c * 1 * q == c * thousand * p && c * thousand * p == c * thousand * 1 * p
  {
  }

  /** From `m * t == c' * e * w`, `c' == c * u` and `u * v == t`, cancel `u`. */
  lemma FactorsMove(m: int, c': int, c: int, e: int, w: int, t: int, u: int, v: int)
    requires m * t == c' * e * w && c' == c * u && u * v == t && u >= 1
    ensures m * v == c * e * w
  {
    assert u * (m * v) == m * t;
    assert c' * e * w == u * (c * e * w);
    Cancel(u, m * v, c * e * w);
  }

  lemma Cancel(u: int, x: int, y: int)
    requires u >= 1 && u * x == u * y
    ensures x == y
  {
  }
}
