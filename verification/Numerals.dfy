/** The numbers that decimal strings denote: what parsing, printing, money and quantities mean. */
module Numerals {
  import opened Maybe
  import opened Integers
  import opened Decimal
  import JsText
  import Rounding
  import opened MoneyArithmetic
  import opened QuantityConversion

  // ---- Numerals ----

  const DIGITS := "0123456789"

  /** Where a digit stands among the ten. */
  function PlaceFrom(c: char, i: nat): (p: nat)
    requires i < 10 && c in DIGITS[i..]
    ensures p < 10 && DIGITS[p] == c
    decreases 10 - i
  {
    if DIGITS[i] == c then i else PlaceFrom(c, i + 1)
  }

  predicate IsDigits(s: string) {
    forall i :: 0 <= i < |s| ==> s[i] in DIGITS
  }

  function WholeNumber(s: string): real
    requires IsDigits(s)
    decreases |s|
  {
    if s == "" then 0.0 else 10.0 * WholeNumber(s[..|s| - 1]) + PlaceFrom(s[|s| - 1], 0) as real
  }

  /** Digits behind the point count tenths, tenths of tenths and so on. */
  function FractionNumber(s: string): real
    requires IsDigits(s)
    decreases |s|
  {
    if s == "" then 0.0 else (PlaceFrom(s[0], 0) as real + FractionNumber(s[1..])) / 10.0
  }

  /** A minus perhaps, digits, and perhaps a point with more digits. */
  predicate IsSpelled(text: string, negative: bool, whole: string, fraction: string) {
    && whole != "" && IsDigits(whole) && IsDigits(fraction)
    && text == (if negative then "-" else "") + whole + (if fraction == "" then "" else "." + fraction)
  }

  function Signed(negative: bool, whole: string, fraction: string): real
    requires IsDigits(whole) && IsDigits(fraction)
  {
    if negative then 0.0 - (WholeNumber(whole) + FractionNumber(fraction))
    else WholeNumber(whole) + FractionNumber(fraction)
  }

  ghost predicate Denotes(text: string, x: real) {
    exists negative, whole, fraction ::
      IsSpelled(text, negative, whole, fraction) && x == Signed(negative, whole, fraction)
  }

  /** `text` ends in exactly `scale` digits behind a point. */
  ghost predicate HasDecimals(text: string, scale: nat) {
    exists negative, whole, fraction :: IsSpelled(text, negative, whole, fraction) && |fraction| == scale
  }

  function Ten(n: nat): (t: real)
    ensures t >= 1.0
  {
    if n == 0 then 1.0 else 10.0 * Ten(n - 1)
  }

  // ---- Digit by digit ----

  lemma {:induction false} PlaceIsDigitValue(c: char, i: nat)
    requires IsDigit(c) && i <= DigitValue(c)
    ensures c in DIGITS[i..] && PlaceFrom(c, i) == DigitValue(c)
    decreases 10 - i
  {
    DigitsInOrder(c);
    assert DIGITS[i..][DigitValue(c) - i] == c;
    if i < DigitValue(c) {
      DigitsDiffer(i, DigitValue(c));
      PlaceIsDigitValue(c, i + 1);
    }
  }

  lemma DigitsInOrder(c: char)
    requires IsDigit(c)
    ensures DIGITS[DigitValue(c)] == c
  {
  }

  lemma DigitsDiffer(i: nat, j: nat)
    requires i < j < 10
    ensures DIGITS[i] != DIGITS[j]
  {
  }

  lemma SameDigits(s: string)
    ensures IsDigits(s) <==> AllDigits(s)
  {
    forall i | 0 <= i < |s| ensures s[i] in DIGITS <==> IsDigit(s[i]) {
      if IsDigit(s[i]) { DigitsInOrder(s[i]); }
      if s[i] in DIGITS { OnlyDigits(s[i]); }
    }
  }

  lemma OnlyDigits(c: char)
    requires c in DIGITS
    ensures IsDigit(c)
  {
    var i :| 0 <= i < |DIGITS| && DIGITS[i] == c;
  }

  lemma {:induction false} WholeIsValue(s: string)
    requires IsDigits(s) && AllDigits(s)
    ensures WholeNumber(s) == Value(s) as real
    decreases |s|
  {
    hide PlaceFrom, DigitValue;
    if s != "" {
      WholeIsValue(s[..|s| - 1]);
      PlaceIsDigitValue(s[|s| - 1], 0);
      assert DIGITS[0..] == DIGITS;
    }
  }

  lemma {:induction false} TenIsPow10(n: nat)
    ensures Ten(n) == Pow10(n) as real
  {
    if n > 0 { TenIsPow10(n - 1); }
  }

  /** The value of a digit string from its first digit on. */
  lemma {:induction false} ValueFromTheFront(s: string)
    requires AllDigits(s) && s != ""
    ensures Value(s) == DigitValue(s[0]) * Pow10(|s| - 1) + Value(s[1..])
    decreases |s|
  {
    hide DigitValue;
    var front, last := s[..|s| - 1], s[|s| - 1];
    if |s| == 1 {
      assert front == "" && s[1..] == "";
    } else {
      ValueFromTheFront(front);
      assert front[1..] == s[1..][..|s| - 2] && s[1..][|s| - 2] == last;
      var d, p, v := DigitValue(s[0]), Pow10(|s| - 2), Value(front[1..]);
      assert Value(s) == 10 * (d * p + v) + DigitValue(last);
      assert d * (10 * p) == 10 * (d * p);
    }
  }

  lemma {:induction false} FractionIsValue(s: string)
    requires IsDigits(s) && AllDigits(s)
    ensures FractionNumber(s) * Ten(|s|) == Value(s) as real
    decreases |s|
  {
    hide *;
    if s == "" {
      NothingIsZero();
    } else {
      RestIsDigits(s);
      FractionIsValue(s[1..]);
      assert DIGITS[0..] == DIGITS;
      PlaceIsDigitValue(s[0], 0);
      ValueFromTheFront(s);
      TenIsPow10(|s| - 1);
      FractionNext(s, DigitValue(s[0]), Pow10(|s| - 1), Value(s[1..]));
    }
  }

  lemma RestIsDigits(s: string)
    requires s != "" && IsDigits(s) && AllDigits(s)
    ensures IsDigits(s[1..]) && AllDigits(s[1..]) && s[0] in DIGITS && IsDigit(s[0])
  {
  }

  lemma NothingIsZero()
    ensures Value("") == 0 && FractionNumber("") == 0.0 && WholeNumber("") == 0.0
  {
  }

  lemma FractionNext(s: string, d: nat, p: nat, v: nat)
    requires IsDigits(s) && s != "" && s[0] in DIGITS && IsDigits(s[1..])
    requires PlaceFrom(s[0], 0) == d && Ten(|s| - 1) == p as real
    requires FractionNumber(s[1..]) * Ten(|s| - 1) == v as real
    ensures FractionNumber(s) * Ten(|s|) == (d * p + v) as real
  {
    hide *;
    FractionUnfolds(s);
    TenthTimesTen(d as real, FractionNumber(s[1..]), Ten(|s| - 1));
    RealProduct(d, p);
  }

  lemma FractionUnfolds(s: string)
    requires s != "" && IsDigits(s) && s[0] in DIGITS && IsDigits(s[1..])
    ensures FractionNumber(s) == (PlaceFrom(s[0], 0) as real + FractionNumber(s[1..])) / 10.0
    ensures Ten(|s|) == 10.0 * Ten(|s| - 1)
  {
    hide PlaceFrom, IsDigits;
  }

  lemma TenthTimesTen(d: real, f: real, t: real)
    ensures (d + f) / 10.0 * (10.0 * t) == d * t + f * t
  {
  }

  lemma RealProduct(a: int, b: int)
    ensures (a * b) as real == a as real * b as real
  {
  }

  lemma {:induction false} ValueOfBoth(whole: string, fraction: string)
    requires AllDigits(whole) && AllDigits(fraction)
    ensures Value(whole + fraction) == Value(whole) * Pow10(|fraction|) + Value(fraction)
    decreases |fraction|
  {
    hide *;
    if fraction == "" {
      assert whole + fraction == whole;
      NothingIsZero();
      TenTimes(0);
    } else {
      var front, last := fraction[..|fraction| - 1], fraction[|fraction| - 1];
      FrontIsDigits(whole, fraction);
      assert (whole + fraction)[..|whole + fraction| - 1] == whole + front;
      ValueOfBoth(whole, front);
      ValueNext(whole + fraction);
      ValueNext(fraction);
      TenTimes(|fraction|);
      TenFold(Value(whole), Pow10(|fraction| - 1));
    }
  }

  lemma FrontIsDigits(whole: string, fraction: string)
    requires AllDigits(whole) && AllDigits(fraction) && fraction != ""
    ensures AllDigits(fraction[..|fraction| - 1]) && AllDigits(whole + fraction)
    ensures AllDigits((whole + fraction)[..|whole + fraction| - 1])
  {
  }

  lemma ValueNext(s: string)
    requires AllDigits(s) && s != "" && AllDigits(s[..|s| - 1])
    ensures IsDigit(s[|s| - 1]) && Value(s) == 10 * Value(s[..|s| - 1]) + DigitValue(s[|s| - 1])
  {
    hide DigitValue;
  }

  lemma TenTimes(n: nat)
    ensures Pow10(0) == 1 && (n > 0 ==> Pow10(n) == 10 * Pow10(n - 1))
  {
  }

  lemma TenFold(v: nat, p: nat)
    ensures v * (10 * p) == 10 * (v * p)
  {
  }

  /** Coefficient and scale of a spelled number. */
  lemma SpelledNumber(negative: bool, whole: string, fraction: string)
    requires IsDigits(whole) && IsDigits(fraction) && AllDigits(whole) && AllDigits(fraction)
    ensures var v := Value(whole + fraction);
            Signed(negative, whole, fraction) * Ten(|fraction|) == (if negative then 0 - v else v) as real
  {
    hide Value, Pow10, Ten, WholeNumber, FractionNumber, IsDigits, AllDigits;
    WholeIsValue(whole);
    FractionIsValue(fraction);
    ValueOfBoth(whole, fraction);
    TenIsPow10(|fraction|);
    RealProduct(Value(whole), Pow10(|fraction|));
    SumTimes(WholeNumber(whole), FractionNumber(fraction), Ten(|fraction|));
  }

  lemma SumTimes(a: real, b: real, t: real)
    ensures (a + b) * t == a * t + b * t && (0.0 - (a + b)) * t == 0.0 - (a * t + b * t)
  {
  }

  // ---- Parsing and printing ----

  /** A text is spelled in one way at most. */
  lemma SpelledOnce(text: string, n: bool, w: string, f: string, n': bool, w': string, f': string)
    requires IsSpelled(text, n, w, f) && IsSpelled(text, n', w', f')
    ensures n == n' && w == w' && f == f'
  {
    SpelledMatches(text, n, w, f);
    SpelledMatches(text, n', w', f');
  }

  lemma SpelledMatches(text: string, negative: bool, whole: string, fraction: string)
    requires IsSpelled(text, negative, whole, fraction)
    ensures Matched(text) == Some(Split(negative, whole, fraction))
  {
    SameDigits(whole);
    SameDigits(fraction);
    JoinedMatches(negative, whole, fraction);
  }

  lemma MatchedIsSpelled(text: string)
    requires Matched(text).Some?
    ensures var s := Matched(text).value; IsSpelled(text, s.negative, s.whole, s.fraction)
  {
    var s := Matched(text).value;
    SameDigits(s.whole);
    SameDigits(s.fraction);
    hide *;
    var negative := text != "" && text[0] == '-';
    var unsigned := if negative then text[1..] else text;
    MatchedIsUnsigned(text);
    UnsignedIsSpelled(negative, unsigned);
    SpellingJoins(text, s, unsigned);
  }

  lemma MatchedIsUnsigned(text: string)
    ensures var negative := text != "" && text[0] == '-';
            Matched(text) == MatchedUnsigned(negative, if negative then text[1..] else text)
  {
    hide MatchedUnsigned;
  }

  lemma SpellingJoins(text: string, s: Split, unsigned: string)
    requires s.whole != "" && IsDigits(s.whole) && IsDigits(s.fraction)
    requires s.negative == (text != "" && text[0] == '-') && unsigned == if s.negative then text[1..] else text
    requires unsigned == s.whole + if s.fraction == "" then "" else "." + s.fraction
    ensures IsSpelled(text, s.negative, s.whole, s.fraction)
  {
    hide IsDigits;
    var rest := if s.fraction == "" then "" else "." + s.fraction;
    if s.negative {
      assert text == "-" + text[1..];
      assert "-" + (s.whole + rest) == "-" + s.whole + rest;
    } else {
      assert "" + s.whole + rest == s.whole + rest;
    }
  }

  lemma UnsignedIsSpelled(negative: bool, unsigned: string)
    requires MatchedUnsigned(negative, unsigned).Some?
    ensures var s := MatchedUnsigned(negative, unsigned).value;
            s.negative == negative && unsigned == s.whole + if s.fraction == "" then "" else "." + s.fraction
  {
    hide AllDigits, PointIndex;
    var p := PointIndex(unsigned);
    if p < |unsigned| {
      assert unsigned == unsigned[..p] + ("." + unsigned[p + 1..]);
    } else {
      assert unsigned == unsigned[..p];
    }
  }

  /** A text is read if and only if it spells a number with at most `maxScale` decimals and an allowed sign. */
  lemma ReadExactlyWhenSpelled(raw: string, maxScale: nat, allowNegative: bool)
    requires maxScale <= 30
    ensures ParseDecimal(raw, maxScale, allowNegative).Ok? <==>
            exists negative, whole, fraction ::
              && IsSpelled(JsText.Trim(raw), negative, whole, fraction)
              && |fraction| <= maxScale && (negative ==> allowNegative)
  {
    hide Matched, IsSpelled, Parts;
    var text := JsText.Trim(raw);
    if Matched(text).Some? { MatchedIsSpelled(text); }
    forall n, w, f | IsSpelled(text, n, w, f) ensures Matched(text) == Some(Split(n, w, f)) {
      SpelledMatches(text, n, w, f);
    }
  }

  /** The number of a coefficient at a scale. */
  function NumberAt(coefficient: int, scale: nat): real {
    coefficient as real / Ten(scale)
  }

  lemma QuotientIs(x: real, t: real, c: real)
    requires t >= 1.0 && x * t == c
    ensures x == c / t
  {
  }

  /** What is read is the number the text denotes, and no other. */
  lemma ReadIsDenoted(raw: string, maxScale: int, allowNegative: bool)
    requires ParseDecimal(raw, maxScale, allowNegative).Ok?
    ensures var p := ParseDecimal(raw, maxScale, allowNegative).value;
            && HasDecimals(JsText.Trim(raw), p.scale)
            && forall x :: Denotes(JsText.Trim(raw), x) <==> x == NumberAt(p.coefficient, p.scale)
  {
    hide Matched, ParseDecimal, Parts, IsSpelled, Signed, Value, Ten;
    var text := JsText.Trim(raw);
    var p := ParseDecimal(raw, maxScale, allowNegative).value;
    PartsOfRead(raw, maxScale, allowNegative);
    var s := Matched(text).value;
    MatchedIsSpelled(text);
    DigitsOfSpelled(text, s);
    ValueOfSpelled(s);
    SpelledNumber(s.negative, s.whole, s.fraction);
    QuotientIs(Signed(s.negative, s.whole, s.fraction), Ten(p.scale), p.coefficient as real);
    forall n, w, f | IsSpelled(text, n, w, f) ensures n == s.negative && w == s.whole && f == s.fraction {
      SpelledOnce(text, n, w, f, s.negative, s.whole, s.fraction);
    }
  }

  lemma PartsOfRead(raw: string, maxScale: int, allowNegative: bool)
    requires ParseDecimal(raw, maxScale, allowNegative).Ok?
    ensures Matched(JsText.Trim(raw)).Some?
    ensures ParseDecimal(raw, maxScale, allowNegative).value == Parts(Matched(JsText.Trim(raw)).value)
  {
    hide Matched, Parts;
  }

  lemma DigitsOfSpelled(text: string, s: Split)
    requires IsSpelled(text, s.negative, s.whole, s.fraction)
    ensures s.whole != "" && IsDigits(s.whole) && IsDigits(s.fraction) && AllDigits(s.whole) && AllDigits(s.fraction)
  {
    SameDigits(s.whole);
    SameDigits(s.fraction);
  }

  /** Leading zeros of the whole part do not count. */
  lemma ValueOfSpelled(s: Split)
    requires AllDigits(s.whole) && s.whole != "" && AllDigits(s.fraction)
    ensures var v: int := Value(s.whole + s.fraction);
            Parts(s).coefficient == (if s.negative then 0 - v else v) && Parts(s).scale == |s.fraction|
  {
    PartsOfMatch(s);
    StripRestores(s.whole);
    var zeros := |s.whole| - |Strip(s.whole)|;
    ValueOfPadded(zeros, Strip(s.whole) + s.fraction);
    assert s.whole + s.fraction == Zeros(zeros) + (Strip(s.whole) + s.fraction);
  }

  /** What is printed denotes the coefficient at its scale, with that many decimals. */
  lemma PrintedDenotes(coefficient: int, scale: nat)
    requires scale <= 30
    ensures HasDecimals(Printed(coefficient, scale), scale)
    ensures forall x :: Denotes(Printed(coefficient, scale), x) <==> x == NumberAt(coefficient, scale)
  {
    hide Printed, ParseDecimal, Denotes, HasDecimals;
    ParsingPrintedReturns(coefficient, scale, 30);
    PrintedIsTrimmed(coefficient, scale);
    ReadIsDenoted(Printed(coefficient, scale), 30, true);
  }

  lemma PrintedIsTrimmed(coefficient: int, scale: nat)
    ensures JsText.Trim(Printed(coefficient, scale)) == Printed(coefficient, scale)
  {
    hide Joined, WholePart, FractionPart;
    PrintedDigits(Abs(coefficient), scale);
    JoinedIsTrimmed(coefficient < 0, WholePart(Abs(coefficient), scale), FractionPart(Abs(coefficient), scale));
  }

  // ---- Scales ----

  lemma {:induction false} TensAdd(a: nat, b: nat)
    ensures Ten(a + b) == Ten(a) * Ten(b)
  {
    if a > 0 {
      TensAdd(a - 1, b);
      assert 10.0 * (Ten(a - 1) * Ten(b)) == (10.0 * Ten(a - 1)) * Ten(b);
    }
  }

  /** Writing a number at a finer scale does not change it. */
  lemma NumberAtFiner(c: int, scale: nat, more: nat)
    ensures NumberAt(c * Pow10(more), scale + more) == NumberAt(c, scale)
  {
    hide Ten, Pow10;
    TensAdd(scale, more);
    TenIsPow10(more);
    RealProduct(c, Pow10(more));
    Expanded(c as real, Ten(scale), Ten(more));
  }

  lemma Expanded(c: real, t: real, k: real)
    requires t >= 1.0 && k >= 1.0
    ensures t * k >= 1.0 && (c * k) / (t * k) == c / t
  {
    ProductIsLarge(t, k);
    assert (c / t) * t == c;
    assert (c / t) * (t * k) == c * k;
    QuotientIs(c / t, t * k, c * k);
  }

  lemma ProductIsLarge(t: real, k: real)
    requires t >= 1.0 && k >= 1.0
    ensures t * k >= 1.0
  {
    assert (t - 1.0) * k >= 0.0;
  }

  lemma NumberOfSum(a: int, b: int, scale: nat)
    ensures NumberAt(a + b, scale) == NumberAt(a, scale) + NumberAt(b, scale)
  {
    hide Ten;
    QuotientOfSum(a as real, b as real, Ten(scale));
  }

  lemma QuotientOfSum(a: real, b: real, t: real)
    requires t >= 1.0
    ensures (a + b) / t == a / t + b / t
  {
  }

  lemma NumbersInOrder(a: int, b: int, scale: nat)
    ensures a < b <==> NumberAt(a, scale) < NumberAt(b, scale)
    ensures a == b <==> NumberAt(a, scale) == NumberAt(b, scale)
  {
    hide Ten;
    QuotientsInOrder(a as real, b as real, Ten(scale));
  }

  lemma QuotientsInOrder(a: real, b: real, t: real)
    requires t >= 1.0
    ensures a < b <==> a / t < b / t
    ensures a == b <==> a / t == b / t
  {
    var p, q := a / t, b / t;
    assert p * t == a && q * t == b;
    assert (q - p) * t == b - a;
    SignOfProduct(q - p, t);
  }

  lemma SignOfProduct(x: real, t: real)
    requires t >= 1.0
    ensures (x > 0.0 <==> x * t > 0.0) && (x < 0.0 <==> x * t < 0.0)
  {
  }

  // ---- Money ----

  ghost predicate AmountIs(m: Money, x: real) {
    Denotes(JsText.Trim(m.amount), x)
  }

  lemma AmountOfParsed(m: Money)
    requires Parse(m).Ok?
    ensures forall x :: AmountIs(m, x) <==> x == NumberAt(Parse(m).value.coefficient, Parse(m).value.scale)
  {
    hide ParseDecimal, NumberAt, Denotes;
    ReadIsDenoted(m.amount, DEFAULT_MAX_SCALE, true);
  }

  lemma NumberOfParts(p: DecimalParts, scale: nat)
    requires p.scale <= scale
    ensures NumberAt(At(p, scale), scale) == NumberAt(p.coefficient, p.scale)
  {
    hide NumberAt;
    NumberAtFiner(p.coefficient, p.scale, scale - p.scale);
  }

  /** The sum of two amounts is the amount of the sum. */
  lemma AdditionAddsNumbers(left: Money, right: Money, x: real, y: real)
    requires left.currency == right.currency && Parse(left).Ok? && Parse(right).Ok?
    requires AmountIs(left, x) && AmountIs(right, y)
    ensures AddMoney(left, right).Ok? && AddMoney(left, right).value.currency == left.currency
    ensures forall z :: AmountIs(AddMoney(left, right).value, z) <==> z == x + y
  {
    hide Parse, NumberAt, AmountIs, At, Printed;
    var a, b := Parse(left).value, Parse(right).value;
    var scale := Max(a.scale, b.scale);
    AmountOfParsed(left);
    AmountOfParsed(right);
    AdditionIsExact(left, right);
    AmountOfParsed(AddMoney(left, right).value);
    NumberOfParts(a, scale);
    NumberOfParts(b, scale);
    NumberOfSum(At(a, scale), At(b, scale), scale);
  }

  /** Comparing amounts compares the numbers. */
  lemma ComparisonComparesNumbers(left: Money, right: Money, x: real, y: real)
    requires left.currency == right.currency && Parse(left).Ok? && Parse(right).Ok?
    requires AmountIs(left, x) && AmountIs(right, y)
    ensures CompareMoney(left, right) == Ok(if x < y then -1 else if x > y then 1 else 0)
  {
    hide Parse, NumberAt, AmountIs, At;
    var a, b := Parse(left).value, Parse(right).value;
    var scale := Max(a.scale, b.scale);
    AmountOfParsed(left);
    AmountOfParsed(right);
    NumberOfParts(a, scale);
    NumberOfParts(b, scale);
    NumbersInOrder(At(a, scale), At(b, scale), scale);
    NumbersInOrder(At(b, scale), At(a, scale), scale);
  }

  function Magnitude(x: real): real {
    if x < 0.0 then 0.0 - x else x
  }

  /** `y`, which is `q` units of size `unit`, is where the mode puts `x`. */
  ghost predicate IsRounded(mode: Rounding.Mode, x: real, y: real, q: int, unit: real) {
    var m, n := Magnitude(x), Magnitude(y);
    && y == q as real * unit
    && (x >= 0.0 ==> y >= 0.0) && (x <= 0.0 ==> y <= 0.0)
    && match mode
       case DOWN => n <= m < n + unit
       case UP => n - unit < m <= n
       case HALF_UP => n - unit / 2.0 <= m < n + unit / 2.0
       case HALF_EVEN => m - unit / 2.0 <= n <= m + unit / 2.0 && (Magnitude(n - m) == unit / 2.0 ==> q % 2 == 0)
  }

  /** Dividing by the same number on both sides; `m`, `n` and `u` are the quotients of `c`, `p` and `d`. */
  lemma BoundsInReals(c: real, p: real, d: real, t: real, m: real, n: real, u: real)
    requires t >= 1.0 && m * t == c && n * t == p && u * t == d
    ensures (p <= c <==> n <= m) && (c <= p <==> m <= n)
    ensures (c < p + d <==> m < n + u) && (p - d < c <==> n - u < m)
    ensures (2.0 * p - d <= 2.0 * c <==> n - u / 2.0 <= m) && (2.0 * c < 2.0 * p + d <==> m < n + u / 2.0)
    ensures (2.0 * c - d <= 2.0 * p <==> m - u / 2.0 <= n) && (2.0 * p <= 2.0 * c + d <==> n <= m + u / 2.0)
    ensures (2.0 * p - 2.0 * c == d <==> n - m == u / 2.0) && (2.0 * c - 2.0 * p == d <==> m - n == u / 2.0)
  {
    SignOfQuotient(m - n, t, c - p);
    SignOfQuotient(m - n - u, t, c - p - d);
    SignOfQuotient(m - n + u, t, c - p + d);
    SignOfQuotient(2.0 * (m - n) + u, t, 2.0 * (c - p) + d);
    SignOfQuotient(2.0 * (m - n) - u, t, 2.0 * (c - p) - d);
  }

  lemma SignOfQuotient(x: real, t: real, v: real)
    requires t >= 1.0 && x * t == v
    ensures (x > 0.0 <==> v > 0.0) && (x < 0.0 <==> v < 0.0)
  {
    SignOfProduct(x, t);
  }

  lemma NearInReals(mode: Rounding.Mode, c: nat, d: nat, q: nat, product: nat, t: real, m: real, n: real, u: real)
    requires Rounding.Near(mode, c, d, q, product) && d >= 1
    requires t >= 1.0 && m * t == c as real && n * t == product as real && u * t == d as real
    ensures match mode
            case DOWN => n <= m < n + u
            case UP => n - u < m <= n
            case HALF_UP => n - u / 2.0 <= m < n + u / 2.0
            case HALF_EVEN => m - u / 2.0 <= n <= m + u / 2.0 && (Magnitude(n - m) == u / 2.0 ==> q % 2 == 0)
  {
    BoundsInReals(c as real, product as real, d as real, t, m, n, u);
  }

  lemma MagnitudeOfQuotient(c: int, t: real, x: real)
    requires t >= 1.0 && x * t == c as real
    ensures Magnitude(x) * t == Abs(c) as real && (c >= 0 <==> x >= 0.0) && (c <= 0 <==> x <= 0.0)
  {
    SignOfProduct(x, t);
    assert (0.0 - x) * t == 0.0 - x * t;
  }

  /** Rounding a coefficient by `d` rounds its number to units of `d` at its scale. */
  lemma RoundsInReals(mode: Rounding.Mode, c: int, d: nat, q: int, t: real, x: real, y: real, u: real)
    requires Rounding.Rounds(mode, c, d, q) && d >= 1
    requires t >= 1.0 && x * t == c as real && y == q as real * u && u * t == d as real
    ensures IsRounded(mode, x, y, q, u)
  {
    hide Rounding.Near, Magnitude;
    assert y * t == q as real * (u * t);
    RealProduct(q, d);
    MagnitudeOfQuotient(c, t, x);
    MagnitudeOfQuotient(q * d, t, y);
    AbsOfProduct(q, d);
    NearInReals(mode, Abs(c), d, Abs(q), Abs(q) * d, t, Magnitude(x), Magnitude(y), u);
    SignOfUnits(q, d);
  }

  lemma AbsOfProduct(q: int, d: nat)
    ensures Abs(q * d) == Abs(q) * d
  {
  }

  lemma SignOfUnits(q: int, d: nat)
    requires d >= 1
    ensures (q >= 0 ==> q * d >= 0) && (q <= 0 ==> q * d <= 0) && Abs(q) % 2 == q % 2
  {
  }

  /** The unit of the last decimal. */
  function UnitAt(scale: nat): real {
    1.0 / Ten(scale)
  }

  lemma ExactIsRounded(mode: Rounding.Mode, x: real, q: int, unit: real)
    requires x == q as real * unit && unit > 0.0
    ensures IsRounded(mode, x, x, q, unit)
  {
  }

  /** The rounded amount has the target's decimals and is where the mode puts the number among its multiples. */
  lemma RoundingRoundsNumbers(value: Money, targetScale: nat, mode: Rounding.Mode, x: real)
    requires targetScale <= 18 && Parse(value).Ok? && AmountIs(value, x)
    ensures var r := RoundMoney(value, targetScale, mode);
            && r.Ok? && r.value.currency == value.currency && HasDecimals(JsText.Trim(r.value.amount), targetScale)
            && exists y, q :: AmountIs(r.value, y) && IsRounded(mode, x, y, q, UnitAt(targetScale))
  {
    hide Parse, NumberAt, AmountIs, At, HasDecimals, Rounding.Rounds, Ten, UnitAt, IsRounded, RoundMoney;
    var p, r := Parse(value).value, RoundMoney(value, targetScale, mode);
    RoundMoneyKeepsItsPromise(value, targetScale, mode);
    RoundedHasDecimals(value, targetScale, mode);
    var q := Parse(r.value).value.coefficient;
    AmountOfParsed(value);
    AmountOfParsed(r.value);
    var y := NumberAt(q, targetScale);
    NumberInUnits(q, targetScale);
    if p.scale <= targetScale {
      NumberOfParts(p, targetScale);
      ExactIsRounded(mode, x, q, UnitAt(targetScale));
    } else {
      CoarserUnits(p.coefficient, p.scale, targetScale, x);
      RoundsInReals(mode, p.coefficient, Pow10(p.scale - targetScale), q, Ten(p.scale), x, y, UnitAt(targetScale));
    }
  }

  lemma RoundedHasDecimals(value: Money, targetScale: nat, mode: Rounding.Mode)
    requires targetScale <= 18 && Parse(value).Ok?
    ensures RoundMoney(value, targetScale, mode).Ok?
    ensures HasDecimals(JsText.Trim(RoundMoney(value, targetScale, mode).value.amount), targetScale)
  {
    hide Parse, Printed, HasDecimals, RoundTo;
    var q := RoundTo(Parse(value).value.coefficient, Parse(value).value.scale, targetScale, mode);
    PrintedIsTrimmed(q, targetScale);
    PrintedDenotes(q, targetScale);
  }

  lemma NumberInUnits(q: int, scale: nat)
    ensures UnitAt(scale) > 0.0 && NumberAt(q, scale) == q as real * UnitAt(scale)
  {
    hide Ten;
    assert Ten(scale) >= 1.0;
    QuotientInUnits(q as real, Ten(scale));
  }

  lemma QuotientInUnits(q: real, t: real)
    requires t >= 1.0
    ensures 1.0 / t > 0.0 && q / t == q * (1.0 / t)
  {
  }

  lemma CoarserUnits(c: int, scale: nat, coarser: nat, x: real)
    requires coarser <= scale && x == NumberAt(c, scale)
    ensures x * Ten(scale) == c as real
    ensures UnitAt(coarser) * Ten(scale) == Pow10(scale - coarser) as real && Pow10(scale - coarser) >= 1
  {
    hide Ten, Pow10;
    TensAdd(coarser, scale - coarser);
    TenIsPow10(scale - coarser);
    UnitTimes(Ten(coarser), Ten(scale - coarser));
  }

  lemma UnitTimes(t: real, k: real)
    requires t >= 1.0
    ensures 1.0 / t * (t * k) == k
  {
    assert 1.0 / t * t == 1.0;
  }

  // ---- Quantities ----

  function NameOf(unit: Unit): string {
    match unit
    case W => "W"
    case KW => "kW"
    case WH => "Wh"
    case KWH => "kWh"
    case V => "V"
    case A => "A"
    case AH => "Ah"
    case VA => "VA"
    case KVA => "kVA"
    case PERCENT => "percent"
  }

  /** A k before the name of a unit is a thousand of it. */
  function FactorOf(name: string): real {
    if name != "" && name[0] == 'k' then 1000.0 else 1.0
  }

  function WithoutPrefix(name: string): string {
    if name != "" && name[0] == 'k' then name[1..] else name
  }

  /** Two units measure the same exactly when their names differ in the prefix at most. */
  lemma SameDimensionExactly(a: Unit, b: Unit)
    ensures DimensionOf(a) == DimensionOf(b) <==> WithoutPrefix(NameOf(a)) == WithoutPrefix(NameOf(b))
  {
    BareName(a);
    BareName(b);
  }

  lemma BareName(a: Unit)
    ensures WithoutPrefix(NameOf(a))
         == match DimensionOf(a)
            case POWER => "W"
            case ENERGY => "Wh"
            case VOLTAGE => "V"
            case CURRENT => "A"
            case CHARGE => "Ah"
            case APPARENT_POWER => "VA"
            case RATIO_PERCENT => "percent"
  {
  }

  lemma FactorIsPower(unit: Unit)
    ensures FactorOf(NameOf(unit)) == Pow10(DecimalExponent(unit)) as real
  {
    assert Pow10(3) == 1000 && Pow10(0) == 1;
  }

  ghost predicate QuantityIs(q: Quantity, x: real) {
    Denotes(JsText.Trim(q.value), x)
  }

  /** Converting changes the unit and not the amount: number times factor stays. */
  lemma ConversionKeepsTheAmount(q: Quantity, target: Unit, x: real)
    requires DimensionOf(q.unit) == DimensionOf(target) && q.unit != target
    requires ParseDecimal(q.value, 18, true).Ok? && QuantityIs(q, x)
    ensures var r := ConvertQuantity(q, target);
            && r.Ok? && r.value.unit == target
            && exists y :: QuantityIs(r.value, y) && y * FactorOf(NameOf(target)) == x * FactorOf(NameOf(q.unit))
  {
    hide ParseDecimal, Printed, ConvertQuantity, Shifted, Reduced, Pow10, DecimalExponent, FactorOf, NameOf, Denotes;
    hide Ten, HasDecimals;
    var p := ParseDecimal(q.value, 18, true).value;
    var (c', s') := Shifted(p.coefficient, p.scale, q.unit, target);
    var (c, s) := Reduced(c', s');
    ConversionPreservesValue(q, target);
    ReadIsDenoted(q.value, 18, true);
    ReducedIsShort(p.coefficient, p.scale, q.unit, target);
    PrintedIsTrimmed(c, s);
    PrintedDenotes(c, s);
    FactorIsPower(q.unit);
    FactorIsPower(target);
    TenIsPow10(s);
    TenIsPow10(p.scale);
    var y := NumberAt(c, s);
    SameAmount(p.coefficient, Pow10(DecimalExponent(q.unit)), Pow10(s), c, Pow10(DecimalExponent(target)),
      Pow10(p.scale), x, y);
    assert QuantityIs(ConvertQuantity(q, target).value, y);
  }

  lemma ReducedIsShort(coefficient: int, scale: nat, source: Unit, target: Unit)
    requires scale <= 18
    ensures var (c, s) := Shifted(coefficient, scale, source, target); Reduced(c, s).1 <= 30
  {
    hide Reduced, Pow10;
    var (c, s) := Shifted(coefficient, scale, source, target);
    ReducedKeepsValue(c, s);
  }

  lemma SameAmount(a: int, f: nat, t: nat, b: int, g: nat, u: nat, x: real, y: real)
    requires t >= 1 && u >= 1 && a * f * t == b * g * u
    requires x == a as real / u as real && y == b as real / t as real
    ensures y * g as real == x * f as real
  {
    RealProduct(a, f);
    RealProduct(a * f, t);
    RealProduct(b, g);
    RealProduct(b * g, u);
    CrossDivide(a as real, f as real, t as real, b as real, g as real, u as real, x, y);
  }

  lemma CrossDivide(a: real, f: real, t: real, b: real, g: real, u: real, x: real, y: real)
    requires t >= 1.0 && u >= 1.0 && a * f * t == b * g * u && x * u == a && y * t == b
    ensures y * g == x * f
  {
    assert (x * f) * (u * t) == (x * u) * f * t;
    assert (y * g) * (u * t) == (y * t) * g * u;
    ProductIsLarge(u, t);
    SignOfProduct(x * f - y * g, u * t);
    assert (x * f - y * g) * (u * t) == (x * f) * (u * t) - (y * g) * (u * t);
  }

  lemma FormatsUpToThirty(coefficient: int, scale: int)
    ensures FormatDecimal(coefficient, scale)
         == if 0 <= scale < 31 then Ok(Printed(coefficient, scale)) else Err(BadScale)
  {
  }

  // ---- What is refused ----

  /** An amount is read if and only if it spells a number with at most 18 decimals. */
  lemma AmountsAreReadExactly(m: Money)
    ensures Parse(m).Ok? <==>
            exists negative, whole, fraction ::
              IsSpelled(JsText.Trim(m.amount), negative, whole, fraction) && |fraction| < 19
  {
    hide IsSpelled, ParseDecimal;
    ReadExactlyWhenSpelled(m.amount, 18, true);
  }

  /** Amounts are added and compared if and only if they are of one currency and both can be read. */
  lemma AmountsMeetExactly(left: Money, right: Money)
    ensures AddMoney(left, right).Ok? <==> left.currency == right.currency && Parse(left).Ok? && Parse(right).Ok?
    ensures CompareMoney(left, right).Ok? <==> left.currency == right.currency && Parse(left).Ok? && Parse(right).Ok?
  {
    hide Parse, Sum, Order;
  }

  lemma AmountsAreRoundedExactly(value: Money, targetScale: int, mode: Rounding.Mode)
    ensures RoundMoney(value, targetScale, mode).Ok? <==> 0 <= targetScale < 19 && Parse(value).Ok?
  {
    hide Parse, Printed, RoundTo;
  }

  /** A quantity converts if and only if the units measure the same, and it can be read or has the unit already. */
  lemma QuantitiesConvertExactly(q: Quantity, target: Unit)
    ensures ConvertQuantity(q, target).Ok? <==>
            && WithoutPrefix(NameOf(q.unit)) == WithoutPrefix(NameOf(target))
            && (q.unit == target || ParseDecimal(q.value, 18, true).Ok?)
    ensures q.unit == target ==> ConvertQuantity(q, target) == Ok(q)
  {
    hide ParseDecimal, Printed, Trimmed, NameOf, DimensionOf;
    SameDimensionExactly(q.unit, target);
  }
}
