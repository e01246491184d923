/** Exact decimals: parsing, printing and rescaling of unbounded coefficients. */
module Decimal {
  import opened Maybe
  import JsText
  import opened Integers

  datatype DecimalError = NotADecimal | NegativeNotAllowed | BadMaxScale | ScaleTooLarge | BadScale

  datatype DecimalParts = DecimalParts(coefficient: int, scale: nat, normalized: string)

  // ---- Digit strings ----

  predicate IsDigit(c: char) { '0' <= c <= '9' }

  predicate AllDigits(s: string) {
    forall i :: 0 <= i < |s| ==> IsDigit(s[i])
  }

  function DigitValue(c: char): (v: nat)
    requires IsDigit(c)
    ensures v < 10
  {
    (c - '0') as int
  }

  function DigitChar(v: nat): (c: char)
    requires v < 10
    ensures IsDigit(c) && DigitValue(c) == v
  {
    '0' + v as char
  }

  /** BigInt(s). */
  function Value(s: string): nat
    requires AllDigits(s)
  {
    if s == "" then 0 else 10 * Value(s[..|s| - 1]) + DigitValue(s[|s| - 1])
  }

  /** BigInt.prototype.toString. */
  function Digits(n: nat): (s: string)
    ensures s != "" && AllDigits(s) && Value(s) == n
    ensures s[0] == '0' ==> s == "0"
  {
    if n < 10 then [DigitChar(n)]
    else
      var s := Digits(n / 10) + [DigitChar(n % 10)];
      assert s[..|s| - 1] == Digits(n / 10);
      s
  }

  function Zeros(n: nat): (s: string)
    ensures |s| == n && forall i :: 0 <= i < n ==> s[i] == '0'
  {
    seq(n, _ => '0')
  }

  function PadStart(s: string, n: nat): string {
    if |s| < n then Zeros(n - |s|) + s else s
  }

  /** Removes leading zeros that another digit follows. */
  function Strip(s: string): (r: string)
    requires AllDigits(s) && s != ""
    ensures AllDigits(r) && r != "" && |r| <= |s|
    ensures r[0] == '0' ==> |r| == 1
  {
    if |s| > 1 && s[0] == '0' then Strip(s[1..]) else s
  }

  lemma {:induction false} StripRestores(s: string)
    requires AllDigits(s) && s != ""
    ensures s == Zeros(|s| - |Strip(s)|) + Strip(s)
  {
    if |s| > 1 && s[0] == '0' {
      StripRestores(s[1..]);
      assert s == "0" + s[1..];
    }
  }

  function Pow10(n: nat): (p: nat)
    ensures p >= 1
  {
    if n == 0 then 1 else 10 * Pow10(n - 1)
  }

  lemma {:induction false} Pow10Adds(a: nat, b: nat)
    ensures Pow10(a + b) == Pow10(a) * Pow10(b)
  {
    if a > 0 {
      Pow10Adds(a - 1, b);
      assert Pow10(a) * Pow10(b) == 10 * (Pow10(a - 1) * Pow10(b));
    }
  }

  lemma {:induction false} ValueOfPadded(k: nat, s: string)
    requires AllDigits(s)
    ensures AllDigits(Zeros(k) + s) && Value(Zeros(k) + s) == Value(s)
  {
    if s != "" {
      ValueOfPadded(k, s[..|s| - 1]);
      assert (Zeros(k) + s)[..k + |s| - 1] == Zeros(k) + s[..|s| - 1];
    } else if k > 0 {
      ValueOfPadded(k - 1, "");
      assert Zeros(k) + s == Zeros(k - 1) + "" + "0";
      assert (Zeros(k) + s)[..k - 1] == Zeros(k - 1) + "";
    }
  }

  lemma {:induction false} ZeroValueMeansZeros(s: string)
    requires AllDigits(s)
    ensures Value(s) == 0 <==> s == Zeros(|s|)
  {
    if s != "" {
      ZeroValueMeansZeros(s[..|s| - 1]);
      assert s == s[..|s| - 1] + [s[|s| - 1]];
      assert Zeros(|s|)[..|s| - 1] == Zeros(|s| - 1);
    }
  }

  lemma DigitCharOfValue(c: char)
    requires IsDigit(c)
    ensures DigitChar(DigitValue(c)) == c
  {
  }

  lemma DigitsOfLonger(front: string, v: nat, c: char)
    requires IsDigit(c) && v >= 1 && Digits(v) == front
    ensures Digits(10 * v + DigitValue(c)) == front + [c]
  {
    DigitCharOfValue(c);
    assert (10 * v + DigitValue(c)) / 10 == v && (10 * v + DigitValue(c)) % 10 == DigitValue(c);
  }

  lemma {:induction false} DigitsOfUnpadded(s: string)
    requires AllDigits(s) && s != "" && (s[0] == '0' ==> |s| == 1)
    ensures Digits(Value(s)) == s
  {
    var front, last := s[..|s| - 1], s[|s| - 1];
    assert s == front + [last];
    if |s| == 1 {
      DigitCharOfValue(last);
    } else {
      assert front[0] == s[0];
      DigitsOfUnpadded(front);
      NonZeroValue(front);
      DigitsOfLonger(front, Value(front), last);
    }
  }

  lemma NonZeroValue(s: string)
    requires AllDigits(s) && s != "" && s[0] != '0'
    ensures Value(s) >= 1
  {
    ZeroValueMeansZeros(s);
    assert s[0] != Zeros(|s|)[0];
  }

  /** Printing a value gives its digits without the leading zeros. */
  lemma {:induction false} DigitsOfValue(s: string)
    requires AllDigits(s) && s != ""
    ensures Digits(Value(s)) == Strip(s)
  {
    if |s| > 1 && s[0] == '0' {
      ValueOfPadded(1, s[1..]);
      assert Zeros(1) + s[1..] == s;
      DigitsOfValue(s[1..]);
    } else {
      DigitsOfUnpadded(s);
    }
  }

  // ---- parseDecimal ----

  datatype Split = Split(negative: bool, whole: string, fraction: string)

  function PointIndex(s: string): (i: nat)
    ensures i <= |s| && (forall k :: 0 <= k < i ==> s[k] != '.') && (i < |s| ==> s[i] == '.')
  {
    if s == "" || s[0] == '.' then 0 else 1 + PointIndex(s[1..])
  }

  /** The pattern: an optional minus, digits, and optionally a point followed by digits. */
  function Matched(value: string): (r: Option<Split>)
    ensures r.Some? ==> AllDigits(r.value.whole) && r.value.whole != "" && AllDigits(r.value.fraction)
  {
    var negative := value != "" && value[0] == '-';
    MatchedUnsigned(negative, if negative then value[1..] else value)
  }

  function MatchedUnsigned(negative: bool, unsigned: string): (r: Option<Split>)
    ensures r.Some? ==> AllDigits(r.value.whole) && r.value.whole != "" && AllDigits(r.value.fraction)
  {
    var p := PointIndex(unsigned);
    var whole := unsigned[..p];
    if whole == "" || !AllDigits(whole) then None
    else if p == |unsigned| then Some(Split(negative, whole, ""))
    else
      var fraction := unsigned[p + 1..];
      if fraction == "" || !AllDigits(fraction) then None else Some(Split(negative, whole, fraction))
  }

  function Joined(negative: bool, whole: string, fraction: string): string {
    (if negative then "-" else "") + whole + (if fraction == "" then "" else "." + fraction)
  }

  /** Drops the minus of a printed zero, as the final replacement does. */
  function WithoutNegativeZero(s: string): string {
    if |s| >= 2 && s[..2] == "-0" && IsPointAndZeros(s[2..]) then s[1..] else s
  }

  predicate IsPointAndZeros(s: string) {
    var zeros := if s != "" && s[0] == '.' then s[1..] else s;
    zeros == Zeros(|zeros|)
  }

  function ParseDecimal(raw: string, maxScale: int, allowNegative: bool): (r: Result<DecimalParts, DecimalError>)
    ensures r.Ok? ==> Matched(JsText.Trim(raw)).Some? && r.value == Parts(Matched(JsText.Trim(raw)).value)
    ensures r.Ok? ==> r.value.scale <= maxScale <= 30
  {
    var split := Matched(JsText.Trim(raw));
    if split.None? then Err(NotADecimal)
    else if split.value.negative && !allowNegative then Err(NegativeNotAllowed)
    else if maxScale < 0 || maxScale > 30 then Err(BadMaxScale)
    else if |split.value.fraction| > maxScale then Err(ScaleTooLarge)
    else Ok(Parts(split.value))
  }

  function Parts(split: Split): DecimalParts
    requires AllDigits(split.whole) && split.whole != "" && AllDigits(split.fraction)
  {
    var whole := Strip(split.whole);
    var value: int := Value(Strip(whole + split.fraction));
    var coefficient := if split.negative && value != 0 then -value else value;
    DecimalParts(coefficient, |split.fraction|, WithoutNegativeZero(Joined(coefficient < 0, whole, split.fraction)))
  }

  // ---- formatDecimal ----

  function Padded(n: nat, scale: nat): (r: string)
    ensures |r| > scale
  {
    PadStart(Digits(n), scale + 1)
  }

  function WholePart(n: nat, scale: nat): string {
    Padded(n, scale)[..|Padded(n, scale)| - scale]
  }

  function FractionPart(n: nat, scale: nat): (r: string)
    ensures |r| == scale
  {
    Padded(n, scale)[|Padded(n, scale)| - scale..]
  }

  function Printed(coefficient: int, scale: nat): string {
    Joined(coefficient < 0, WholePart(Abs(coefficient), scale), FractionPart(Abs(coefficient), scale))
  }

  function FormatDecimal(coefficient: int, scale: int): Result<string, DecimalError> {
    if scale < 0 || scale > 30 then Err(BadScale) else Ok(Printed(coefficient, scale))
  }

  // ---- The two are inverse ----

  ghost predicate Stripped(whole: string) {
    AllDigits(whole) && whole != "" && (whole[0] == '0' ==> whole == "0")
  }

  lemma ZeroThenZeros(fraction: string)
    requires AllDigits(fraction)
    ensures "0" + fraction == Zeros(1 + |fraction|) <==> fraction == Zeros(|fraction|)
  {
    if "0" + fraction == Zeros(1 + |fraction|) {
      assert forall i :: 0 <= i < |fraction| ==> fraction[i] == ("0" + fraction)[i + 1];
    }
  }

  /** The replacement of a negative zero never fires: a negative coefficient has a digit other than zero. */
  lemma NegativeZeroNeverPrinted(negative: bool, whole: string, fraction: string)
    requires Stripped(whole) && AllDigits(fraction) && (negative ==> Value(whole + fraction) != 0)
    ensures WithoutNegativeZero(Joined(negative, whole, fraction)) == Joined(negative, whole, fraction)
  {
    var s := Joined(negative, whole, fraction);
    if negative && whole == "0" {
      ZeroValueMeansZeros(whole + fraction);
      ZeroThenZeros(fraction);
      assert fraction != Zeros(|fraction|);
      assert s[2..] == "." + fraction;
      assert s[2..][1..] == fraction;
    } else if |s| >= 2 {
      assert s[..2][0] == s[0] && s[..2][1] == s[1];
      assert !negative ==> s[0] == whole[0];
      assert negative ==> s[1] == whole[0];
    }
  }

  lemma ValueOfStripped(s: string)
    requires AllDigits(s) && s != ""
    ensures Value(Strip(s)) == Value(s)
  {
    StripRestores(s);
    ValueOfPadded(|s| - |Strip(s)|, Strip(s));
  }

  /** What the parser makes of a match: the whole part loses its leading zeros, the value is that of all digits. */
  lemma PartsOfMatch(split: Split)
    requires AllDigits(split.whole) && split.whole != "" && AllDigits(split.fraction)
    ensures var value: int := Value(Strip(split.whole) + split.fraction);
            && Stripped(Strip(split.whole))
            && Parts(split).scale == |split.fraction|
            && Parts(split).coefficient == if split.negative then -value else value
  {
    ValueOfStripped(Strip(split.whole) + split.fraction);
  }

  lemma NormalizedOfMatch(split: Split)
    requires AllDigits(split.whole) && split.whole != "" && AllDigits(split.fraction)
    ensures Parts(split).normalized == Joined(Parts(split).coefficient < 0, Strip(split.whole), split.fraction)
  {
    PartsOfMatch(split);
    NegativeZeroNeverPrinted(Parts(split).coefficient < 0, Strip(split.whole), split.fraction);
  }

  lemma PrintedParts(split: Split)
    requires AllDigits(split.whole) && split.whole != "" && AllDigits(split.fraction)
    ensures Printed(Parts(split).coefficient, Parts(split).scale) == Parts(split).normalized
  {
    PartsOfMatch(split);
    NormalizedOfMatch(split);
    PrintedFromDigits(Parts(split).coefficient, Strip(split.whole), split.fraction);
  }

  lemma PaddingRestores(whole: string, fraction: string)
    requires Stripped(whole) && AllDigits(fraction)
    ensures Padded(Value(whole + fraction), |fraction|) == whole + fraction
  {
    hide Digits, Value, Zeros;
    var all := whole + fraction;
    assert all[0] == whole[0];
    DigitsOfValue(all);
    if whole[0] != '0' {
      assert Strip(all) == all;
    } else {
      StripRestores(all);
      StripLeavesFraction(fraction);
    }
  }

  lemma StripLeavesFraction(fraction: string)
    requires AllDigits(fraction)
    ensures |Strip("0" + fraction)| <= |fraction| + 1
  {
  }

  lemma PrintedFromDigits(coefficient: int, whole: string, fraction: string)
    requires Stripped(whole) && AllDigits(fraction) && Abs(coefficient) == Value(whole + fraction)
    ensures Printed(coefficient, |fraction|) == Joined(coefficient < 0, whole, fraction)
  {
    PaddingRestores(whole, fraction);
    var all := whole + fraction;
    assert all[..|all| - |fraction|] == whole && all[|all| - |fraction|..] == fraction;
  }

  /** Formatting what was parsed gives the normalized text. */
  lemma PrintingParsedNormalizes(raw: string, maxScale: int, allowNegative: bool)
    requires ParseDecimal(raw, maxScale, allowNegative).Ok?
    ensures var p := ParseDecimal(raw, maxScale, allowNegative).value;
            p.scale <= maxScale <= 30 && Printed(p.coefficient, p.scale) == p.normalized
  {
    PrintedParts(Matched(JsText.Trim(raw)).value);
  }

  lemma {:induction false} PointAfterDigits(whole: string, rest: string)
    requires AllDigits(whole) && (rest == "" || rest[0] == '.')
    ensures PointIndex(whole + rest) == |whole|
  {
    if whole != "" {
      PointAfterDigits(whole[1..], rest);
      assert (whole + rest)[1..] == whole[1..] + rest;
    } else {
      assert whole + rest == rest;
    }
  }

  lemma JoinedMatches(negative: bool, whole: string, fraction: string)
    requires AllDigits(whole) && whole != "" && AllDigits(fraction)
    ensures Matched(Joined(negative, whole, fraction)) == Some(Split(negative, whole, fraction))
  {
    hide MatchedUnsigned;
    var unsigned := whole + (if fraction == "" then "" else "." + fraction);
    assert Joined(negative, whole, fraction) == (if negative then "-" else "") + unsigned;
    SignComesOff(negative, unsigned);
    UnsignedMatches(negative, whole, fraction);
    assert unsigned[0] == whole[0];
  }

  lemma UnsignedMatches(negative: bool, whole: string, fraction: string)
    requires AllDigits(whole) && whole != "" && AllDigits(fraction)
    ensures MatchedUnsigned(negative, whole + (if fraction == "" then "" else "." + fraction))
            == Some(Split(negative, whole, fraction))
  {
    hide PointIndex, AllDigits;
    PointAfterDigits(whole, if fraction == "" then "" else "." + fraction);
    TailSplits(whole, fraction);
  }

  lemma SignComesOff(negative: bool, unsigned: string)
    requires unsigned != ""
    ensures var s := (if negative then "-" else "") + unsigned;
            if negative then s[0] == '-' && s[1..] == unsigned else s == unsigned
  {
  }

  lemma TailSplits(whole: string, fraction: string)
    ensures var unsigned := whole + (if fraction == "" then "" else "." + fraction);
            && unsigned[..|whole|] == whole
            && (fraction == "" ==> unsigned == whole)
            && (fraction != "" ==>
               |unsigned| > |whole| && unsigned[|whole|] == '.' && unsigned[|whole| + 1..] == fraction)
  {
  }

  lemma JoinedIsTrimmed(negative: bool, whole: string, fraction: string)
    requires AllDigits(whole) && whole != "" && AllDigits(fraction)
    ensures JsText.Trim(Joined(negative, whole, fraction)) == Joined(negative, whole, fraction)
  {
    var s := Joined(negative, whole, fraction);
    assert s[0] == if negative then '-' else whole[0];
    assert s[|s| - 1] == if fraction == "" then whole[|whole| - 1] else fraction[|fraction| - 1];
    JsText.TrimIsNoOp(s);
  }

  lemma PrintedDigits(n: nat, scale: nat)
    ensures AllDigits(WholePart(n, scale)) && Stripped(WholePart(n, scale)) && AllDigits(FractionPart(n, scale))
    ensures Value(WholePart(n, scale) + FractionPart(n, scale)) == n
  {
    var d := Digits(n);
    if |d| < scale + 1 {
      ValueOfPadded(scale + 1 - |d|, d);
      assert WholePart(n, scale) == "0";
    }
    assert WholePart(n, scale) + FractionPart(n, scale) == Padded(n, scale);
  }

  lemma PartsOfPrinted(coefficient: int, scale: nat)
    ensures var whole, fraction := WholePart(Abs(coefficient), scale), FractionPart(Abs(coefficient), scale);
            && Stripped(whole) && AllDigits(fraction)
            && Parts(Split(coefficient < 0, whole, fraction))
               == DecimalParts(coefficient, scale, Printed(coefficient, scale))
  {
    hide Printed, Parts, WholePart, FractionPart;
    PrintedDigits(Abs(coefficient), scale);
    var split := Split(coefficient < 0, WholePart(Abs(coefficient), scale), FractionPart(Abs(coefficient), scale));
    assert Strip(split.whole) == split.whole;
    PartsOfMatch(split);
    PrintedParts(split);
  }

  lemma PrintedMatches(coefficient: int, scale: nat)
    ensures Matched(JsText.Trim(Printed(coefficient, scale)))
            == Some(Split(coefficient < 0, WholePart(Abs(coefficient), scale), FractionPart(Abs(coefficient), scale)))
  {
    hide Joined, WholePart, FractionPart, Matched;
    PrintedDigits(Abs(coefficient), scale);
    JoinedMatches(coefficient < 0, WholePart(Abs(coefficient), scale), FractionPart(Abs(coefficient), scale));
    JoinedIsTrimmed(coefficient < 0, WholePart(Abs(coefficient), scale), FractionPart(Abs(coefficient), scale));
  }

  /** Parsing what was formatted returns the coefficient, the scale and the same text, or refuses the scale. */
  lemma ParsingPrintedReturns(coefficient: int, scale: nat, maxScale: int)
    requires 0 <= maxScale <= 30
    ensures ParseDecimal(Printed(coefficient, scale), maxScale, true)
            == if scale <= maxScale then Ok(DecimalParts(coefficient, scale, Printed(coefficient, scale)))
               else Err(ScaleTooLarge)
  {
    hide Printed, Parts, WholePart, FractionPart, Matched;
    PrintedMatches(coefficient, scale);
    PartsOfPrinted(coefficient, scale);
  }

  lemma PrintedSign(coefficient: int, scale: nat)
    ensures Printed(coefficient, scale) != "" && (Printed(coefficient, scale)[0] == '-' <==> coefficient < 0)
  {
    hide WholePart, FractionPart;
    PrintedDigits(Abs(coefficient), scale);
    assert coefficient >= 0 ==> Printed(coefficient, scale)[0] == WholePart(Abs(coefficient), scale)[0];
  }

  /** Parsing is idempotent on its own output, and a minus is printed exactly for negative values: no negative zero. */
  lemma NormalizedIsCanonical(raw: string, maxScale: int, allowNegative: bool)
    requires ParseDecimal(raw, maxScale, allowNegative).Ok?
    ensures var p := ParseDecimal(raw, maxScale, allowNegative).value;
            && ParseDecimal(p.normalized, maxScale, true) == Ok(p)
            && p.normalized != "" && (p.normalized[0] == '-' <==> p.coefficient < 0)
  {
    var p := ParseDecimal(raw, maxScale, allowNegative).value;
    PrintingParsedNormalizes(raw, maxScale, allowNegative);
    ParsingPrintedReturns(p.coefficient, p.scale, maxScale);
    PrintedSign(p.coefficient, p.scale);
  }
}
