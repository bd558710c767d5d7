/** The decimal amount normaliser (packages/core-sdk/src/amount.ts), on text input. */
module Amount {
  import opened Prelude
  import opened Radix
  import opened DecimalText

  datatype Options = Options(precision: nat, min: string, max: Option<string>, allowZero: bool)

  /** Why an amount is refused (the messages of `InvalidAmountError`). */
  datatype AmountError = Missing | NotNumeric | TooPrecise | Unparsable | BelowMinimum | AboveMaximum | ZeroAmount

  /** (2^54 - 1) * 2^970, midway between the largest double and 2^1024: from there on
      a number reads as infinite. */
  const FINITE_LIMIT: int := 0xFFFFFFFFFFFFFC00 * SIXTEEN_TO_60 * SIXTEEN_TO_60 * SIXTEEN_TO_60 * SIXTEEN_TO_60

  const SIXTEEN_TO_60: int := 0x1_00000000000000000000_00000000000000000000_00000000000000000000

  /** `Number(text)` is finite. */
  predicate IsFinite(s: string)
    requires IsNumeric(s)
  {
    -Shift(FINITE_LIMIT, Scale(s)) < Numerator(s) < Shift(FINITE_LIMIT, Scale(s))
  }

  predicate HasNonZeroDigit(s: string) {
    exists i :: 0 <= i < |s| && '1' <= s[i] <= '9'
  }

  /** No digit beyond precision p, or only zeros. */
  predicate Fits(s: string, p: nat) {
    |SecondPart(s)| <= p || !HasNonZeroDigit(SecondPart(s)[p..])
  }

  /** `padEnd(p, '0').substring(0, p)`. */
  function PadTo(fraction: string, p: nat): (s: string)
    ensures |s| == p
  {
    if |fraction| <= p then fraction + ZeroText(p - |fraction|) else fraction[..p]
  }

  function ToScaledBigInt(val: string, p: nat): Option<int> {
    BigIntOf(BeforePoint(val) + PadTo(SecondPart(val), p))
  }

  /** `replace(/0+$/, '')`. */
  function StripZeros(s: string): (t: string)
    ensures |t| <= |s| && s == t + ZeroText(|s| - |t|)
    ensures t != "" ==> t[|t| - 1] != '0'
  {
    if s != "" && s[|s| - 1] == '0' then
      var t := StripZeros(s[..|s| - 1]);
      assert s == s[..|s| - 1] + ['0'];
      t
    else s
  }

  /** `padStart(width, '0')`. */
  function PadStart(s: string, width: nat): string {
    if |s| < width then ZeroText(width - |s|) + s else s
  }

  /** `slice(0, -p)`: empty when p is 0. */
  function SliceInteger(raw: string, p: nat): string {
    if p == 0 || |raw| < p then "" else raw[..|raw| - p]
  }

  /** `slice(-p)`: everything when p is 0. */
  function SliceFraction(raw: string, p: nat): string {
    if p == 0 || |raw| < p then raw else raw[|raw| - p..]
  }

  function Format(scaled: int, p: nat): string {
    var abs := if scaled < 0 then -scaled else scaled;
    var raw := PadStart(NumberText(abs), p + 1);
    var integer := if SliceInteger(raw, p) == "" then "0" else SliceInteger(raw, p);
    Literal(scaled < 0, integer, StripZeros(SliceFraction(raw, p)))
  }

  /** The trimmed text, if it is a number of the given precision. */
  function ReadText(amount: string, p: nat): Result<string, AmountError> {
    var str := Trim(amount);
    if str == "" then Err(Missing)
    else if !IsNumeric(str) || !IsFinite(str) then Err(NotNumeric)
    else if !Fits(str, p) then Err(TooPrecise)
    else Ok(str)
  }

  function CheckRange(scaled: int, o: Options): Result<int, AmountError> {
    var scaledMin := ToScaledBigInt(o.min, o.precision);
    if scaledMin.None? then Err(Unparsable)
    else if scaled < scaledMin.value then Err(BelowMinimum)
    else
      var scaledMax := if o.max.Some? then ToScaledBigInt(o.max.value, o.precision) else Some(scaled);
      if scaledMax.None? then Err(Unparsable)
      else if scaled > scaledMax.value then Err(AboveMaximum)
      else if !o.allowZero && scaled == 0 then Err(ZeroAmount)
      else Ok(scaled)
  }

  /** The amount as an integer at the given precision, or why it is refused. */
  function Accept(amount: string, o: Options): Result<int, AmountError> {
    var text := ReadText(amount, o.precision);
    if text.Err? then Err(text.error)
    else
      var scaled := ToScaledBigInt(text.value, o.precision);
      if scaled.None? then Err(Unparsable) else CheckRange(scaled.value, o)
  }

  function NormalizeAmount(amount: string, o: Options): Result<string, AmountError> {
    var scaled := Accept(amount, o);
    if scaled.Err? then Err(scaled.error) else Ok(Format(scaled.value, o.precision))
  }

  // ---------------------------------------------------------------- denotation

  /** The text s denotes m / 10^k. */
  ghost predicate Denotes(s: string, m: int, k: nat) {
    IsNumeric(s) && Shift(Numerator(s), k) == Shift(m, Scale(s))
  }

  ghost predicate SameNumber(a: string, b: string) {
    IsNumeric(a) && IsNumeric(b) && Shift(Numerator(a), Scale(b)) == Shift(Numerator(b), Scale(a))
  }

  lemma ShiftsCommute(n: int, j: nat, k: nat)
    ensures Shift(Shift(n, j), k) == Shift(Shift(n, k), j)
  {
    ShiftShift(n, j, k);
    ShiftShift(n, k, j);
  }

  /** If x / 10^e and y / 10^f are both m / 10^k then they are equal. */
  lemma ShiftSame(x: int, e: nat, y: int, f: nat, m: int, k: nat)
    requires Shift(x, k) == Shift(m, e) && Shift(y, k) == Shift(m, f)
    ensures Shift(x, f) == Shift(y, e)
  {
    ShiftsCommute(x, f, k);
    ShiftsCommute(y, e, k);
    ShiftsCommute(m, e, f);
    ShiftOrder(Shift(x, f), Shift(y, e), k);
  }

  /** Two texts that denote the same m / 10^k are the same number. */
  lemma DenoteSame(a: string, b: string, m: int, k: nat)
    requires Denotes(a, m, k) && Denotes(b, m, k)
    ensures SameNumber(a, b)
  {
    ShiftSame(Numerator(a), Scale(a), Numerator(b), Scale(b), m, k);
  }

  /** The same number at the same precision is the same integer. */
  lemma SameDenoted(a: string, b: string, m: int, n: int, k: nat)
    requires SameNumber(a, b) && Denotes(a, m, k) && Denotes(b, n, k)
    ensures m == n
  {
    var e, f := Scale(a), Scale(b);
    ShiftsCommute(Numerator(a), f, k);
    ShiftsCommute(Numerator(b), e, k);
    ShiftsCommute(n, f, e);
    ShiftOrder(Shift(m, e), Shift(n, e), f);
    ShiftOrder(m, n, e);
  }

  lemma ZeroDigits(s: string)
    requires AllDigits(s) && !HasNonZeroDigit(s)
    ensures s == ZeroText(|s|)
  {
  }

  /** The digits a numeric text keeps at precision p. */
  function Kept(s: string, p: nat): (t: string)
    requires IsNumeric(s)
    ensures t != "" && AllDigits(t)
  {
    Unsigned(BeforePoint(s)) + PadTo(AfterPoint(s), p)
  }

  lemma ScaledValue(s: string, p: nat)
    requires IsNumeric(s)
    ensures SecondPart(s) == AfterPoint(s)
    ensures ToScaledBigInt(s, p) == Some(Signed(IsNegative(s), NumberOf(Kept(s, p))))
  {
    NumericParts(s);
    KeptText(s, p);
    BigIntOfDigits(IsNegative(s), Kept(s, p));
  }

  lemma SignText(t: string)
    ensures t == (if IsNegative(t) then "-" else "") + Unsigned(t)
  {
  }

  lemma KeptText(s: string, p: nat)
    requires IsNumeric(s) && IsNegative(s) == IsNegative(BeforePoint(s))
    ensures BeforePoint(s) + PadTo(AfterPoint(s), p) == (if IsNegative(s) then "-" else "") + Kept(s, p)
  {
    SignText(BeforePoint(s));
  }

  lemma PadLonger(integer: string, fraction: string, p: nat)
    requires AllDigits(integer) && AllDigits(fraction) && |fraction| <= p
    ensures AllDigits(integer + PadTo(fraction, p))
    ensures NumberOf(integer + PadTo(fraction, p)) == Shift(NumberOf(integer + fraction), p - |fraction|)
  {
    assert integer + PadTo(fraction, p) == (integer + fraction) + ZeroText(p - |fraction|);
    ZerosAfter(integer + fraction, p - |fraction|);
  }

  lemma PadShorter(integer: string, fraction: string, p: nat)
    requires AllDigits(integer) && AllDigits(fraction) && |fraction| > p && !HasNonZeroDigit(fraction[p..])
    ensures AllDigits(integer + PadTo(fraction, p))
    ensures NumberOf(integer + fraction) == Shift(NumberOf(integer + PadTo(fraction, p)), |fraction| - p)
  {
    ZeroDigits(fraction[p..]);
    assert integer + fraction == (integer + PadTo(fraction, p)) + ZeroText(|fraction| - p);
    ZerosAfter(integer + PadTo(fraction, p), |fraction| - p);
  }

  lemma ShiftSigned(negative: bool, n: int, k: nat)
    ensures Signed(negative, Shift(n, k)) == Shift(Signed(negative, n), k)
  {
    ShiftNegates(n, k);
  }

  lemma UpscaledDenotes(s: string, negative: bool, v: int, n: int, p: nat)
    requires IsNumeric(s) && Numerator(s) == Signed(negative, v) && Scale(s) <= p
    requires n == Shift(v, p - Scale(s))
    ensures Denotes(s, Signed(negative, n), p)
  {
    ShiftSigned(negative, v, p - Scale(s));
    ShiftShift(Signed(negative, v), p - Scale(s), Scale(s));
  }

  lemma KeptUp(s: string, p: nat)
    requires IsNumeric(s) && Scale(s) <= p
    ensures Denotes(s, Signed(IsNegative(s), NumberOf(Kept(s, p))), p)
  {
    var integer, fraction := Unsigned(BeforePoint(s)), AfterPoint(s);
    PadLonger(integer, fraction, p);
    UpscaledDenotes(s, IsNegative(s), NumberOf(integer + fraction), NumberOf(Kept(s, p)), p);
  }

  lemma DownscaledDenotes(s: string, m: int, p: nat)
    requires IsNumeric(s) && Scale(s) > p && Numerator(s) == Shift(m, Scale(s) - p)
    ensures Denotes(s, m, p)
  {
    ShiftShift(m, Scale(s) - p, p);
  }

  lemma KeptDown(s: string, p: nat)
    requires IsNumeric(s) && Scale(s) > p && !HasNonZeroDigit(AfterPoint(s)[p..])
    ensures Denotes(s, Signed(IsNegative(s), NumberOf(Kept(s, p))), p)
  {
    var integer, fraction := Unsigned(BeforePoint(s)), AfterPoint(s);
    PadShorter(integer, fraction, p);
    ShiftSigned(IsNegative(s), NumberOf(Kept(s, p)), |fraction| - p);
    DownscaledDenotes(s, Signed(IsNegative(s), NumberOf(Kept(s, p))), p);
  }

  /** Scaling to precision p keeps the number when the digits cut off are zeros. */
  lemma ScaledDenotes(s: string, p: nat)
    requires IsNumeric(s) && Fits(s, p)
    ensures ToScaledBigInt(s, p).Some? && Denotes(s, ToScaledBigInt(s, p).value, p)
  {
    ScaledValue(s, p);
    if Scale(s) <= p {
      KeptUp(s, p);
    } else {
      KeptDown(s, p);
    }
  }

  // ----------------------------------------------------------- the normal form

  /** A sign, integer digits and fraction digits without spare zeros at either end,
      and no minus zero. */
  ghost predicate CanonicalParts(negative: bool, integer: string, fraction: string) {
    && integer != "" && AllDigits(integer) && AllDigits(fraction)
    && (|integer| > 1 ==> integer[0] != '0')
    && (fraction != "" ==> fraction[|fraction| - 1] != '0')
    && (negative ==> NumberOf(integer + fraction) != 0)
  }

  ghost predicate Canonical(s: string) {
    exists negative, integer, fraction ::
      CanonicalParts(negative, integer, fraction) && s == Literal(negative, integer, fraction)
  }

  function Abs(n: int): nat {
    if n < 0 then -n else n
  }

  lemma RawNumber(n: nat, p: nat)
    ensures var raw := PadStart(NumberText(n), p + 1);
            && |raw| >= p + 1 && AllDigits(raw) && NumberOf(raw) == n
            && (|raw| > p + 1 ==> raw[0] != '0')
  {
    var text := NumberText(n);
    NumberTextValue(n);
    if |text| < p + 1 {
      ZerosBefore(p + 1 - |text|, text);
    }
  }

  /** A digit string cut p places from its end, without the fraction's trailing zeros. */
  lemma CutParts(raw: string, p: nat)
    requires AllDigits(raw) && 1 <= p < |raw|
    ensures var integer, fraction := SliceInteger(raw, p), StripZeros(SliceFraction(raw, p));
            && integer == raw[..|raw| - p]
            && AllDigits(integer) && AllDigits(fraction) && |fraction| <= p
            && AllDigits(integer + fraction)
            && NumberOf(raw) == Shift(NumberOf(integer + fraction), p - |fraction|)
  {
    var integer, tail := raw[..|raw| - p], raw[|raw| - p..];
    var fraction := StripZeros(tail);
    StripKeeps(tail);
    assert raw == integer + tail;
    assert raw == (integer + fraction) + ZeroText(p - |fraction|);
    ZerosAfter(integer + fraction, p - |fraction|);
  }

  lemma StripKeeps(s: string)
    requires AllDigits(s)
    ensures AllDigits(StripZeros(s))
  {
    assert forall i :: 0 <= i < |StripZeros(s)| ==> StripZeros(s)[i] == s[i];
  }

  /** The digits `Format` puts before and after the point. */
  lemma FormatParts(scaled: int, p: nat) returns (integer: string, fraction: string)
    requires p >= 1
    ensures CanonicalParts(scaled < 0, integer, fraction) && |fraction| <= p
    ensures Abs(scaled) == Shift(NumberOf(integer + fraction), p - |fraction|)
    ensures Format(scaled, p) == Literal(scaled < 0, integer, fraction)
  {
    var raw := PadStart(NumberText(Abs(scaled)), p + 1);
    RawNumber(Abs(scaled), p);
    CutParts(raw, p);
    integer, fraction := SliceInteger(raw, p), StripZeros(SliceFraction(raw, p));
    ShiftOrder(NumberOf(integer + fraction), 0, p - |fraction|);
  }

  lemma LiteralDenotes(scaled: int, integer: string, fraction: string, p: nat)
    requires integer != "" && AllDigits(integer) && AllDigits(fraction) && |fraction| <= p
    requires Abs(scaled) == Shift(NumberOf(integer + fraction), p - |fraction|)
    ensures Denotes(Literal(scaled < 0, integer, fraction), scaled, p)
    ensures Scale(Literal(scaled < 0, integer, fraction)) == |fraction|
  {
    var negative, n := scaled < 0, NumberOf(integer + fraction);
    LiteralParts(negative, integer, fraction);
    var s := Literal(negative, integer, fraction);
    assert Signed(negative, Abs(scaled)) == scaled;
    UpscaledDenotes(s, negative, n, Abs(scaled), p);
  }

  /** With at least one decimal place, formatting denotes the integer at that scale. */
  lemma FormatDenotes(scaled: int, p: nat)
    requires p >= 1
    ensures Denotes(Format(scaled, p), scaled, p) && Scale(Format(scaled, p)) <= p
  {
    var integer, fraction := FormatParts(scaled, p);
    LiteralDenotes(scaled, integer, fraction, p);
  }

  lemma FormatCanonical(scaled: int, p: nat)
    requires p >= 1
    ensures Canonical(Format(scaled, p))
  {
    var integer, fraction := FormatParts(scaled, p);
  }

  /** A pure fraction is between -1 and 1. */
  lemma FractionBelowOne(negative: bool, fraction: string)
    requires AllDigits(fraction)
    ensures var s := Literal(negative, "0", fraction);
            IsNumeric(s) && Scale(s) == |fraction| && Abs(Numerator(s)) == NumberOf(fraction) < Shift(1, |fraction|)
  {
    LiteralParts(negative, "0", fraction);
    ZeroPointNumber(fraction);
  }

  lemma ZeroPointNumber(fraction: string)
    requires AllDigits(fraction)
    ensures AllDigits("0" + fraction) && NumberOf("0" + fraction) == NumberOf(fraction) < Shift(1, |fraction|)
  {
    assert "0" + fraction == ZeroText(1) + fraction;
    ZerosBefore(1, fraction);
    NumberBelow(fraction);
  }

  lemma FormatPartsAtZeroPrecision(scaled: int) returns (fraction: string)
    ensures Format(scaled, 0) == Literal(scaled < 0, "0", fraction) && AllDigits(fraction)
    ensures scaled == 0 ==> fraction == ""
  {
    var raw := PadStart(NumberText(Abs(scaled)), 1);
    RawNumber(Abs(scaled), 0);
    fraction := StripZeros(raw);
    StripKeeps(raw);
    if scaled == 0 {
      assert raw == "0" && "0"[..0] == "" && StripZeros("") == "";
    }
  }

  /** With none, the whole number lands after the point. */
  lemma FormatAtZeroPrecision(scaled: int)
    ensures IsNumeric(Format(scaled, 0))
    ensures scaled == 0 ==> Numerator(Format(scaled, 0)) == Scale(Format(scaled, 0)) == 0
    ensures Abs(Numerator(Format(scaled, 0))) < Shift(1, Scale(Format(scaled, 0)))
  {
    var fraction := FormatPartsAtZeroPrecision(scaled);
    FractionBelowOne(scaled < 0, fraction);
  }

  lemma AcceptedFacts(amount: string, o: Options)
    requires Accept(amount, o).Ok?
    ensures var str, m := Trim(amount), Accept(amount, o).value;
            && IsNumeric(str) && IsFinite(str) && Fits(str, o.precision)
            && ToScaledBigInt(str, o.precision) == Some(m) && CheckRange(m, o) == Ok(m)
  {
  }

  /** An accepted text denotes its scaled integer. */
  lemma AcceptedDenotes(amount: string, o: Options)
    requires Accept(amount, o).Ok?
    ensures Denotes(Trim(amount), Accept(amount, o).value, o.precision)
  {
    AcceptedFacts(amount, o);
    ScaledDenotes(Trim(amount), o.precision);
  }

  /** An integer other than 0 is not a number strictly between -1 and 1. */
  lemma NotAFraction(x: int, e: nat, m: int, y: int, f: nat)
    requires m != 0 && x == Shift(m, e) && Abs(y) < Shift(1, f)
    ensures Shift(x, f) != Shift(y, e)
  {
    ShiftNegates(1, f);
    ShiftsCommute(m, e, f);
    ShiftsCommute(1, e, f);
    ShiftOrder(y, Shift(1, f), e);
    ShiftOrder(Shift(-1, f), y, e);
    ShiftOrder(1, 0, f);
    ShiftOrder(m, 1, f);
    ShiftOrder(-1, m, f);
    ShiftOrder(Shift(m, f), Shift(1, f), e);
    ShiftOrder(Shift(-1, f), Shift(m, f), e);
    ShiftOrder(Shift(m, f), y, e);
  }

  /** The result denotes the very number given exactly when the precision is at
      least 1 or that number is zero. */
  lemma ExactExceptAtZeroPrecision(amount: string, o: Options)
    requires NormalizeAmount(amount, o).Ok?
    ensures SameNumber(Trim(amount), NormalizeAmount(amount, o).value)
        <==> o.precision >= 1 || (IsNumeric(Trim(amount)) && Numerator(Trim(amount)) == 0)
  {
    var str, m, r := Trim(amount), Accept(amount, o).value, NormalizeAmount(amount, o).value;
    AcceptedDenotes(amount, o);
    ZeroDenoted(str, m, o.precision);
    if o.precision >= 1 {
      FormatDenotes(m, o.precision);
      DenoteSame(str, r, m, o.precision);
    } else {
      FormatAtZeroPrecision(m);
      if m == 0 {
        ShiftOrder(0, 0, Scale(str));
      } else {
        NotAFraction(Numerator(str), Scale(str), m, Numerator(r), Scale(r));
      }
    }
  }

  lemma FormatTwelve()
    ensures Format(12, 0) == "0.12"
  {
    assert ToDigits(12, 10) == [1, 2] by {
      assert ToDigits(1, 10) == ToDigits(0, 10) + [1] && ToDigits(12, 10) == ToDigits(1, 10) + [2];
    }
    assert NumberText(12) == "12";
    assert StripZeros("12") == "12";
  }

  lemma DigitsNumeric(text: string)
    requires text != "" && AllDigits(text)
    ensures IsNumeric(text) && Numerator(text) == NumberOf(text) && Scale(text) == 0 && SecondPart(text) == ""
  {
    LiteralParts(false, text, "");
    assert Literal(false, text, "") == text && text + "" == text;
    NoPointInDigits("");
  }

  lemma DigitsRead(text: string, p: nat)
    requires text != "" && AllDigits(text) && NumberOf(text) < FINITE_LIMIT
    ensures ReadText(text, p) == Ok(text)
  {
    DigitsNumeric(text);
    assert Trim(text) == text by {
      assert IsDigit(text[0]) && IsDigit(text[|text| - 1]);
    }
    assert IsFinite(text);
  }

  lemma DigitsPadded(text: string)
    requires text != "" && AllDigits(text)
    ensures BeforePoint(text) + PadTo(SecondPart(text), 0) == text
  {
    assert IsDigit(text[0]);
    NoPointInDigits(text);
  }

  lemma DigitsScaled(text: string)
    requires text != "" && AllDigits(text)
    ensures ToScaledBigInt(text, 0) == Some(NumberOf(text))
  {
    DigitsPadded(text);
    BigIntOfPlain(text);
  }

  lemma TwelveAndZero()
    ensures NumberOf("12") == 12 && NumberOf("0") == 0
  {
    NumberSnoc("", '0');
    NumberSnoc("", '1');
    NumberSnoc("1", '2');
    assert "" + ['0'] == "0" && "" + ['1'] == "1" && "1" + ['2'] == "12";
  }

  /** Twelve at precision 0 comes out as 0.12. */
  lemma TwelveBecomesPointTwelve()
    ensures NormalizeAmount("12", Options(0, "0", None, false)) == Ok("0.12")
  {
    TwelveRead();
    FormatTwelve();
    InRange("12", 12, Options(0, "0", None, false));
  }

  lemma TwelveRead()
    ensures ReadText("12", 0) == Ok("12")
    ensures ToScaledBigInt("12", 0) == Some(12) && ToScaledBigInt("0", 0) == Some(0)
  {
    TwelveAndZero();
    var twelve, zero := "12", "0";
    DigitsRead(twelve, 0);
    DigitsScaled(twelve);
    DigitsScaled(zero);
  }

  lemma InRange(amount: string, m: int, o: Options)
    requires ReadText(amount, o.precision) == Ok(amount) && ToScaledBigInt(amount, o.precision) == Some(m)
    requires CheckRange(m, o) == Ok(m)
    ensures NormalizeAmount(amount, o) == Ok(Format(m, o.precision))
  {
  }

  /** The output is a canonical decimal for the number given. */
  lemma NormalForm(amount: string, o: Options)
    requires o.precision >= 1 && NormalizeAmount(amount, o).Ok?
    ensures Canonical(NormalizeAmount(amount, o).value)
    ensures SameNumber(Trim(amount), NormalizeAmount(amount, o).value)
  {
    FormatCanonical(Accept(amount, o).value, o.precision);
    ExactExceptAtZeroPrecision(amount, o);
  }

  lemma BoundTransfers(x: int, e: nat, y: int, f: nat, bound: int)
    requires Shift(x, f) == Shift(y, e) && x < Shift(bound, e)
    ensures y < Shift(bound, f)
  {
    ShiftOrder(x, Shift(bound, e), f);
    ShiftsCommute(bound, e, f);
    ShiftOrder(y, Shift(bound, f), e);
  }

  /** Equal numbers are both finite or neither. */
  lemma SameFinite(a: string, b: string)
    requires SameNumber(a, b) && IsFinite(a)
    ensures IsFinite(b)
  {
    FiniteTransfers(Numerator(a), Scale(a), Numerator(b), Scale(b), FINITE_LIMIT);
  }

  lemma FiniteTransfers(x: int, e: nat, y: int, f: nat, bound: int)
    requires Shift(x, f) == Shift(y, e) && -Shift(bound, e) < x < Shift(bound, e)
    ensures -Shift(bound, f) < y < Shift(bound, f)
  {
    BoundTransfers(x, e, y, f, bound);
    ShiftNegates(x, f);
    ShiftNegates(y, e);
    BoundTransfers(-x, e, -y, f, bound);
  }

  lemma ReadCanonical(r: string, m: int, p: nat)
    requires Denotes(r, m, p) && IsFinite(r) && Scale(r) <= p
    ensures ReadText(r, p) == Ok(r) && ToScaledBigInt(r, p) == Some(m)
  {
    NumericParts(r);
    assert Trim(r) == r;
    ScaledDenotes(r, p);
    SameDenoted(r, r, ToScaledBigInt(r, p).value, m, p);
  }

  /** Normalising twice is normalising once. */
  lemma Idempotent(amount: string, o: Options)
    requires o.precision >= 1 && NormalizeAmount(amount, o).Ok?
    ensures NormalizeAmount(NormalizeAmount(amount, o).value, o) == NormalizeAmount(amount, o)
  {
    var m, r := Accept(amount, o).value, NormalizeAmount(amount, o).value;
    NormalForm(amount, o);
    FormatDenotes(m, o.precision);
    AcceptedFacts(amount, o);
    SameFinite(Trim(amount), r);
    ReadCanonical(r, m, o.precision);
  }

  /** Accepted texts get equal outputs exactly when they are the same number. */
  lemma EqualIffSameNumber(a: string, b: string, o: Options)
    requires o.precision >= 1 && NormalizeAmount(a, o).Ok? && NormalizeAmount(b, o).Ok?
    ensures NormalizeAmount(a, o) == NormalizeAmount(b, o) <==> SameNumber(Trim(a), Trim(b))
  {
    var m, n := Accept(a, o).value, Accept(b, o).value;
    AcceptedDenotes(a, o);
    AcceptedDenotes(b, o);
    FormatDenotes(m, o.precision);
    FormatDenotes(n, o.precision);
    if SameNumber(Trim(a), Trim(b)) {
      SameDenoted(Trim(a), Trim(b), m, n, o.precision);
    }
    if NormalizeAmount(a, o) == NormalizeAmount(b, o) {
      var r := NormalizeAmount(a, o).value;
      SameDenoted(r, r, m, n, o.precision);
      DenoteSame(Trim(a), Trim(b), m, o.precision);
    }
  }

  // ------------------------------------------------------------------- range

  ghost predicate AtLeast(a: string, b: string)
    requires IsNumeric(a) && IsNumeric(b)
  {
    Shift(Numerator(a), Scale(b)) >= Shift(Numerator(b), Scale(a))
  }

  /** At one scale, texts compare as their integers. */
  lemma DenoteOrder(a: string, b: string, m: int, n: int, k: nat)
    requires Denotes(a, m, k) && Denotes(b, n, k)
    ensures AtLeast(a, b) <==> m >= n
  {
    var x, e, y, f := Numerator(a), Scale(a), Numerator(b), Scale(b);
    ShiftsCommute(x, f, k);
    ShiftsCommute(y, e, k);
    ShiftsCommute(m, e, f);
    ShiftOrder(Shift(x, f), Shift(y, e), k);
    ShiftOrder(Shift(m, f), Shift(n, f), e);
    ShiftOrder(m, n, f);
    ShiftsCommute(n, f, e);
  }

  /** Denoting at a finer scale. */
  lemma Refine(s: string, m: int, k: nat, j: nat)
    requires Denotes(s, m, k)
    ensures Denotes(s, Shift(m, j), k + j)
  {
    ShiftShift(Numerator(s), k, j);
    ShiftsCommute(m, Scale(s), j);
  }

  lemma {:induction false} NonZeroNumber(s: string)
    requires AllDigits(s)
    ensures HasNonZeroDigit(s) <==> NumberOf(s) > 0
  {
    if s != "" {
      var front, last := s[..|s| - 1], s[|s| - 1];
      NonZeroNumber(front);
      assert s == front + [last] && DigitsOf(s) == DigitsOf(front) + [last as int - 48];
      FromDigitsSnoc(DigitsOf(front), last as int - 48, 10);
      assert HasNonZeroDigit(front) ==> HasNonZeroDigit(s);
      assert last != '0' ==> HasNonZeroDigit(s);
    }
  }

  /** n lies strictly between t * 10^k and the next multiple away from zero. */
  ghost predicate CutTo(negative: bool, n: int, t: int, k: nat) {
    if negative then Shift(t - 1, k) < n < Shift(t, k) else Shift(t, k) < n < Shift(t + 1, k)
  }

  lemma CutSigned(negative: bool, n: int, t: int, k: nat)
    requires CutTo(false, n, t, k)
    ensures CutTo(negative, Signed(negative, n), Signed(negative, t), k)
  {
    ShiftNegates(t, k);
    ShiftNegates(t + 1, k);
  }

  lemma CutOrders(negative: bool, n: int, t: int, k: nat, m: int)
    requires CutTo(negative, n, t, k)
    ensures Shift(m, k) >= n <==> if negative then m >= t else m > t
    ensures n >= Shift(m, k) <==> if negative then m < t else m <= t
  {
    if negative {
      ShiftOrder(m, t, k);
      ShiftOrder(t - 1, m, k);
    } else {
      ShiftOrder(t, m, k);
      ShiftOrder(m, t + 1, k);
    }
  }

  lemma CutDigits(integer: string, fraction: string, p: nat)
    requires AllDigits(integer) && AllDigits(fraction) && |fraction| > p && HasNonZeroDigit(fraction[p..])
    ensures AllDigits(integer + PadTo(fraction, p))
    ensures CutTo(false, NumberOf(integer + fraction), NumberOf(integer + PadTo(fraction, p)), |fraction| - p)
  {
    var kept, extra := integer + PadTo(fraction, p), fraction[p..];
    assert integer + fraction == kept + extra;
    NumberAppend(kept, extra);
    NonZeroNumber(extra);
    NumberBelow(extra);
    ShiftSum(NumberOf(kept), 1, |extra|);
  }

  lemma CutKept(s: string, p: nat)
    requires IsNumeric(s) && Scale(s) > p && HasNonZeroDigit(AfterPoint(s)[p..])
    ensures CutTo(IsNegative(s), Numerator(s), Signed(IsNegative(s), NumberOf(Kept(s, p))), Scale(s) - p)
  {
    var integer, fraction := Unsigned(BeforePoint(s)), AfterPoint(s);
    CutDigits(integer, fraction, p);
    CutSigned(IsNegative(s), NumberOf(integer + fraction), NumberOf(Kept(s, p)), |fraction| - p);
  }

  /** A bound with digits beyond the precision is cut towards zero, strictly. */
  lemma CutBound(bound: string, p: nat)
    requires IsNumeric(bound) && !Fits(bound, p)
    ensures ToScaledBigInt(bound, p).Some? && Scale(bound) > p
    ensures CutTo(IsNegative(bound), Numerator(bound), ToScaledBigInt(bound, p).value, Scale(bound) - p)
  {
    ScaledValue(bound, p);
    CutKept(bound, p);
  }

  /** How an amount at precision p compares with a bound that does not fit it. */
  lemma CutOrder(amount: string, m: int, bound: string, t: int, p: nat)
    requires Denotes(amount, m, p) && IsNumeric(bound) && Scale(bound) > p
    requires CutTo(IsNegative(bound), Numerator(bound), t, Scale(bound) - p)
    ensures AtLeast(amount, bound) <==> if IsNegative(bound) then m >= t else m > t
    ensures AtLeast(bound, amount) <==> if IsNegative(bound) then m < t else m <= t
  {
    var n, k := Numerator(bound), Scale(bound) - p;
    Refine(amount, m, p, k);
    DenoteOrder(amount, bound, Shift(m, k), n, Scale(bound));
    DenoteOrder(bound, amount, n, Shift(m, k), Scale(bound));
    CutOrders(IsNegative(bound), n, t, k, m);
  }

  lemma LowerBound(text: string, m: int, bound: string, t: int, p: nat)
    requires Denotes(text, m, p) && IsNumeric(bound) && ToScaledBigInt(bound, p) == Some(t) && t <= m
    ensures AtLeast(text, bound) <==> Fits(bound, p) || IsNegative(bound) || t != m
  {
    if Fits(bound, p) {
      ScaledDenotes(bound, p);
      DenoteOrder(text, bound, m, t, p);
    } else {
      CutBound(bound, p);
      CutOrder(text, m, bound, t, p);
    }
  }

  lemma UpperBound(text: string, m: int, bound: string, t: int, p: nat)
    requires Denotes(text, m, p) && IsNumeric(bound) && ToScaledBigInt(bound, p) == Some(t) && m <= t
    ensures AtLeast(bound, text) <==> Fits(bound, p) || !IsNegative(bound) || t != m
  {
    if Fits(bound, p) {
      ScaledDenotes(bound, p);
      DenoteOrder(bound, text, t, m, p);
    } else {
      CutBound(bound, p);
      CutOrder(text, m, bound, t, p);
    }
  }

  lemma RangeFacts(m: int, o: Options)
    requires CheckRange(m, o).Ok?
    ensures ToScaledBigInt(o.min, o.precision).Some? && ToScaledBigInt(o.min, o.precision).value <= m
    ensures o.max.Some? ==>
      ToScaledBigInt(o.max.value, o.precision).Some? && m <= ToScaledBigInt(o.max.value, o.precision).value
  {
  }

  /** An accepted amount is at least the minimum, except exactly when a non-negative
      minimum has digits beyond the precision and the amount is that minimum cut off. */
  lemma MinimumHonoured(amount: string, o: Options)
    requires Accept(amount, o).Ok? && IsNumeric(o.min)
    ensures IsNumeric(Trim(amount))
    ensures AtLeast(Trim(amount), o.min)
        <==> Fits(o.min, o.precision) || IsNegative(o.min)
             || ToScaledBigInt(o.min, o.precision) != ToScaledBigInt(Trim(amount), o.precision)
  {
    var m := Accept(amount, o).value;
    AcceptedFacts(amount, o);
    AcceptedDenotes(amount, o);
    RangeFacts(m, o);
    LowerBound(Trim(amount), m, o.min, ToScaledBigInt(o.min, o.precision).value, o.precision);
  }

  /** And at most the maximum, except exactly when a negative one is cut off and met. */
  lemma MaximumHonoured(amount: string, o: Options)
    requires Accept(amount, o).Ok? && o.max.Some? && IsNumeric(o.max.value)
    ensures IsNumeric(Trim(amount))
    ensures AtLeast(o.max.value, Trim(amount))
        <==> Fits(o.max.value, o.precision) || !IsNegative(o.max.value)
             || ToScaledBigInt(o.max.value, o.precision) != ToScaledBigInt(Trim(amount), o.precision)
  {
    var m := Accept(amount, o).value;
    AcceptedFacts(amount, o);
    AcceptedDenotes(amount, o);
    RangeFacts(m, o);
    UpperBound(Trim(amount), m, o.max.value, ToScaledBigInt(o.max.value, o.precision).value, o.precision);
  }

  lemma FittingBound(text: string, m: int, bound: string, p: nat)
    requires Denotes(text, m, p) && IsNumeric(bound) && Fits(bound, p)
    ensures ToScaledBigInt(bound, p).Some?
    ensures AtLeast(text, bound) <==> m >= ToScaledBigInt(bound, p).value
    ensures AtLeast(bound, text) <==> ToScaledBigInt(bound, p).value >= m
  {
    ScaledDenotes(bound, p);
    DenoteOrder(text, bound, m, ToScaledBigInt(bound, p).value, p);
    DenoteOrder(bound, text, ToScaledBigInt(bound, p).value, m, p);
  }

  lemma ZeroDenoted(text: string, m: int, p: nat)
    requires Denotes(text, m, p)
    ensures m == 0 <==> Numerator(text) == 0
  {
    ShiftOrder(Numerator(text), 0, p);
    ShiftOrder(m, 0, Scale(text));
  }

  lemma RangeChecked(text: string, m: int, o: Options)
    requires Denotes(text, m, o.precision)
    requires IsNumeric(o.min) && Fits(o.min, o.precision)
    requires o.max.Some? ==> IsNumeric(o.max.value) && Fits(o.max.value, o.precision)
    ensures CheckRange(m, o).Ok?
        <==> AtLeast(text, o.min)
             && (o.max.Some? ==> AtLeast(o.max.value, text))
             && (o.allowZero || Numerator(text) != 0)
  {
    FittingBound(text, m, o.min, o.precision);
    if o.max.Some? {
      FittingBound(text, m, o.max.value, o.precision);
    }
    ZeroDenoted(text, m, o.precision);
  }

  /** When the bounds fit the precision, a text of that precision is accepted exactly
      when it is in range and not a refused zero. */
  lemma AcceptedIffInRange(amount: string, o: Options)
    requires ReadText(amount, o.precision).Ok?
    requires IsNumeric(o.min) && Fits(o.min, o.precision)
    requires o.max.Some? ==> IsNumeric(o.max.value) && Fits(o.max.value, o.precision)
    ensures Accept(amount, o).Ok?
        <==> AtLeast(Trim(amount), o.min)
             && (o.max.Some? ==> AtLeast(o.max.value, Trim(amount)))
             && (o.allowZero || Numerator(Trim(amount)) != 0)
  {
    ScaledDenotes(Trim(amount), o.precision);
    RangeChecked(Trim(amount), ToScaledBigInt(Trim(amount), o.precision).value, o);
  }

  lemma SmallNumbers()
    ensures NumberOf("0") == 0 && NumberOf("00") == 0 && NumberOf("005") == 5 && NumberOf("1") == 1
  {
    NumberSnoc("", '0');
    NumberSnoc("0", '0');
    NumberSnoc("00", '5');
    NumberSnoc("", '1');
    assert "" + ['0'] == "0" && "0" + ['0'] == "00" && "00" + ['5'] == "005" && "" + ['1'] == "1";
  }

  lemma LiteralScaled(negative: bool, integer: string, fraction: string, p: nat)
    requires integer != "" && AllDigits(integer) && AllDigits(fraction)
    ensures ToScaledBigInt(Literal(negative, integer, fraction), p)
         == Some(Signed(negative, NumberOf(integer + PadTo(fraction, p))))
  {
    LiteralParts(negative, integer, fraction);
    ScaledValue(Literal(negative, integer, fraction), p);
  }

  lemma HundredthsNumber()
    ensures NumberOf("0" + "05") == 5 && NumberOf("0" + PadTo("05", 1)) == 0
  {
    SmallNumbers();
    assert "0" + "05" == "005" && "0" + PadTo("05", 1) == "00";
  }

  /** A bound of 0.05 or -0.05 is cut to zero at precision 1. */
  lemma FiveHundredths(negative: bool)
    ensures var s := Literal(negative, "0", "05");
            IsNumeric(s) && Numerator(s) == Signed(negative, 5) && Scale(s) == 2 && ToScaledBigInt(s, 1) == Some(0)
  {
    var integer, fraction := "0", "05";
    HundredthsNumber();
    LiteralParts(negative, integer, fraction);
    LiteralScaled(negative, integer, fraction, 1);
  }

  lemma FormatZero()
    ensures Format(0, 1) == "0"
  {
    assert StripZeros("0") == "";
  }

  lemma ZeroRead()
    ensures ReadText("0", 1) == Ok("0") && IsNumeric("0") && Numerator("0") == 0 && Scale("0") == 0
  {
    SmallNumbers();
    DigitsRead("0", 1);
    DigitsNumeric("0");
  }

  lemma OneDigitPadded(digit: string)
    requires |digit| == 1 && AllDigits(digit)
    ensures NumberOf(digit + PadTo("", 1)) == 10 * NumberOf(digit)
  {
    NumberSnoc(digit, '0');
    assert digit + PadTo("", 1) == digit + ['0'];
  }

  lemma LiteralTexts()
    ensures Literal(false, "0", "") == "0" && Literal(true, "1", "") == "-1"
    ensures Literal(false, "0", "05") == "0.05" && Literal(true, "0", "05") == "-0.05"
  {
  }

  lemma BoundsScaled()
    ensures ToScaledBigInt("0", 1) == Some(0) && ToScaledBigInt("-1", 1) == Some(-10)
  {
    SmallNumbers();
    LiteralTexts();
    OneDigitPadded("0");
    LiteralScaled(false, "0", "", 1);
    OneDigitPadded("1");
    LiteralScaled(true, "1", "", 1);
  }

  /** At precision 1, zero is accepted against a minimum of 0.05. */
  lemma ZeroBelowMinimum()
    ensures NormalizeAmount("0", Options(1, "0.05", None, true)) == Ok("0")
    ensures IsNumeric("0") && IsNumeric("0.05") && !AtLeast("0", "0.05")
  {
    ZeroRead();
    BoundsScaled();
    FiveHundredths(false);
    LiteralTexts();
    ZeroAccepted(Options(1, "0.05", None, true));
    ShiftOrder(0, 5, 0);
    ShiftOrder(0, 0, 2);
  }

  /** And against a maximum of -0.05. */
  lemma ZeroAboveMaximum()
    ensures NormalizeAmount("0", Options(1, "-1", Some("-0.05"), true)) == Ok("0")
    ensures IsNumeric("0") && IsNumeric("-0.05") && !AtLeast("-0.05", "0")
  {
    ZeroRead();
    BoundsScaled();
    FiveHundredths(true);
    LiteralTexts();
    ZeroAccepted(Options(1, "-1", Some("-0.05"), true));
    ShiftOrder(0, 0, 2);
  }

  lemma ZeroAccepted(o: Options)
    requires o.precision == 1 && o.allowZero && ReadText("0", 1) == Ok("0") && ToScaledBigInt("0", 1) == Some(0)
    requires ToScaledBigInt(o.min, 1).Some? && ToScaledBigInt(o.min, 1).value <= 0
    requires o.max.Some? ==> ToScaledBigInt(o.max.value, 1) == Some(0)
    ensures NormalizeAmount("0", o) == Ok("0")
  {
    FormatZero();
  }
}
