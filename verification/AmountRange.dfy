/** Which amounts `normalizeAmount` reads and accepts, by the numbers the texts denote
    (packages/core-sdk/src/amount.ts). */
module AmountRange {
  import opened Prelude
  import opened Radix
  import opened DecimalText
  import opened Amount

  // ---------------------------------------------------------------- precision

  /** The text denotes a multiple of 10^-p. */
  ghost predicate HasPrecision(s: string, p: nat) {
    exists m :: Denotes(s, m, p)
  }

  /** The precision test on digits is one on the number. */
  lemma FitsIff(s: string, p: nat)
    requires IsNumeric(s)
    ensures Fits(s, p) <==> HasPrecision(s, p)
  {
    if Fits(s, p) {
      ScaledDenotes(s, p);
    } else if m :| Denotes(s, m, p) {
      CutBound(s, p);
      CutOrder(s, m, s, ToScaledBigInt(s, p).value, p);
    }
  }

  // ------------------------------------------------------------ finite numbers

  lemma ElevenZeros(n: int)
    ensures Shift(n, 11) == 100000000000 * n
  {
    assert Shift(n, 1) == 10 * n;
    assert Shift(n, 2) == 100 * n;
    assert Shift(n, 4) == 100 * Shift(n, 2);
    assert Shift(n, 6) == 100 * Shift(n, 4);
    assert Shift(n, 8) == 100 * Shift(n, 6);
    assert Shift(n, 10) == 100 * Shift(n, 8);
  }

  const TEN_TO_77: int := 1_00000000000_00000000000_00000000000_00000000000_00000000000_00000000000_00000000000

  lemma SeventySevenZeros(n: int)
    ensures Shift(n, 77) == TEN_TO_77 * n
  {
    ElevenZeros(Shift(n, 0));
    ShiftShift(n, 0, 11);
    ElevenZeros(Shift(n, 11));
    ShiftShift(n, 11, 11);
    ElevenZeros(Shift(n, 22));
    ShiftShift(n, 22, 11);
    ElevenZeros(Shift(n, 33));
    ShiftShift(n, 33, 11);
    ElevenZeros(Shift(n, 44));
    ShiftShift(n, 44, 11);
    ElevenZeros(Shift(n, 55));
    ShiftShift(n, 55, 11);
    ElevenZeros(Shift(n, 66));
    ShiftShift(n, 66, 11);
  }

  lemma PowersOfTen()
    ensures Shift(1, 308) == TEN_TO_77 * (TEN_TO_77 * (TEN_TO_77 * TEN_TO_77))
    ensures Shift(2, 308) == 2 * Shift(1, 308)
  {
    SeventySevenZeros(1);
    SeventySevenZeros(TEN_TO_77);
    SeventySevenZeros(TEN_TO_77 * TEN_TO_77);
    SeventySevenZeros(TEN_TO_77 * (TEN_TO_77 * TEN_TO_77));
    ShiftShift(1, 77, 77);
    ShiftShift(1, 154, 77);
    ShiftShift(1, 231, 77);
    ShiftSum(1, 1, 308);
  }

  /** A number of up to 308 integer digits is finite, one from 2 * 10^308 on is not. */
  lemma FiniteLimitBetween()
    ensures Shift(1, 308) <= FINITE_LIMIT < Shift(2, 308)
  {
    PowersOfTen();
  }

  lemma TenBits(k: nat)
    ensures Pow(2, k + 10) == 1024 * Pow(2, k)
  {
    assert Pow(2, k + 2) == 4 * Pow(2, k);
    assert Pow(2, k + 4) == 4 * Pow(2, k + 2);
    assert Pow(2, k + 6) == 4 * Pow(2, k + 4);
    assert Pow(2, k + 8) == 4 * Pow(2, k + 6);
    assert Pow(2, k + 10) == 4 * Pow(2, k + 8);
  }

  lemma FortyBits(k: nat)
    ensures Pow(2, k + 40) == 0x100_0000_0000 * Pow(2, k)
  {
    TenBits(k);
    TenBits(k + 10);
    TenBits(k + 20);
    TenBits(k + 30);
  }

  lemma SixtyDigits(k: nat)
    ensures Pow(2, k + 240) == 0x1_00000000000000000000_00000000000000000000_00000000000000000000 * Pow(2, k)
  {
    FortyBits(k);
    FortyBits(k + 40);
    FortyBits(k + 80);
    FortyBits(k + 120);
    FortyBits(k + 160);
    FortyBits(k + 200);
  }

  lemma PowersOfTwo()
    ensures Pow(2, 970) == SIXTEEN_TO_60 * (SIXTEEN_TO_60 * (SIXTEEN_TO_60 * (SIXTEEN_TO_60 * 1024)))
  {
    TenBits(0);
    assert Pow(2, 10) == 1024;
    SixtyDigits(10);
    SixtyDigits(250);
    SixtyDigits(490);
    SixtyDigits(730);
  }

  lemma FiftyFourBits()
    ensures Pow(2, 54) == 0x40_0000_0000_0000
  {
    TenBits(0);
    FortyBits(10);
    assert Pow(2, 54) == 16 * Pow(2, 50);
  }

  /** The limit is the midpoint between the largest double, (2^53 - 1) * 2^971, and 2^1024. */
  lemma FiniteLimitIs()
    ensures FINITE_LIMIT == (Pow(2, 54) - 1) * Pow(2, 970)
  {
    FiftyFourBits();
    PowersOfTwo();
  }

  /** The number the text denotes is, in size, below n. */
  ghost predicate SizeBelow(s: string, n: int)
    requires IsNumeric(s)
  {
    -Shift(n, Scale(s)) < Numerator(s) < Shift(n, Scale(s))
  }

  /** Numbers below 10^308 in size are finite, and none from 2 * 10^308 on. */
  lemma FiniteBySize(s: string)
    requires IsNumeric(s)
    ensures SizeBelow(s, Shift(1, 308)) ==> IsFinite(s)
    ensures IsFinite(s) ==> SizeBelow(s, Shift(2, 308))
  {
    FiniteLimitBetween();
    ShiftOrder(Shift(1, 308), FINITE_LIMIT, Scale(s));
    ShiftOrder(FINITE_LIMIT, Shift(2, 308), Scale(s));
  }

  lemma {:induction false} ShiftLonger(j: nat, k: nat)
    requires j <= k
    ensures 0 < Shift(1, j) <= Shift(1, k)
  {
    if j < k {
      ShiftLonger(j, k - 1);
    } else if j > 0 {
      ShiftLonger(j - 1, k - 1);
    }
  }

  /** At most 308 integer digits are below 10^308. */
  lemma ShortIsSmall(s: string)
    requires IsNumeric(s) && |Unsigned(BeforePoint(s))| <= 308
    ensures SizeBelow(s, Shift(1, 308))
  {
    var integer, fraction := Unsigned(BeforePoint(s)), AfterPoint(s);
    NumberBelow(integer + fraction);
    ShiftLonger(|integer|, 308);
    ShiftShift(1, |integer|, |fraction|);
    ShiftOrder(Shift(1, |integer|), Shift(1, 308), |fraction|);
  }

  // ------------------------------------------------------------- what is a number

  /** A number is a sign, digits, and perhaps a point and more digits. */
  lemma NumericIff(s: string)
    ensures IsNumeric(s) <==> exists negative, integer, fraction ::
              integer != "" && AllDigits(integer) && AllDigits(fraction) && s == Literal(negative, integer, fraction)
  {
    if IsNumeric(s) {
      NumericParts(s);
    }
    if negative, integer, fraction :|
       integer != "" && AllDigits(integer) && AllDigits(fraction) && s == Literal(negative, integer, fraction) {
      LiteralParts(negative, integer, fraction);
    }
  }

  ghost predicate WhiteAround(s: string, i: nat, j: nat) {
    && i <= j <= |s|
    && (forall k :: 0 <= k < i ==> IsWhite(s[k]))
    && (forall k :: j <= k < |s| ==> IsWhite(s[k]))
  }

  lemma WhiteBefore(s: string, i: nat, j: nat)
    requires s != "" && IsWhite(s[0]) && WhiteAround(s[1..], i, j)
    ensures WhiteAround(s, i + 1, j + 1) && s[1..][i..j] == s[i + 1..j + 1]
  {
    forall k | 0 <= k < i + 1 ensures IsWhite(s[k]) {
      if k > 0 {
        assert s[k] == s[1..][k - 1];
      }
    }
    forall k | j + 1 <= k < |s| ensures IsWhite(s[k]) {
      assert s[k] == s[1..][k - 1];
    }
  }

  /** Trimming takes white space off both ends, and nothing else. */
  lemma {:induction false} TrimParts(s: string) returns (i: nat, j: nat)
    ensures WhiteAround(s, i, j) && Trim(s) == s[i..j]
  {
    i, j := 0, |s|;
    if s == "" {
    } else if IsWhite(s[0]) {
      i, j := TrimParts(s[1..]);
      WhiteBefore(s, i, j);
      i, j := i + 1, j + 1;
    } else if IsWhite(s[|s| - 1]) {
      i, j := TrimParts(s[..|s| - 1]);
    }
  }

  // ------------------------------------------------------------------- reading

  /** Blank text, text that is not a number, and numbers too large are refused; below
      10^308 a number is read exactly when it has the precision. */
  lemma ReadBySize(amount: string, p: nat)
    ensures var str, r := Trim(amount), ReadText(amount, p);
            && (str == "" ==> r == Err(Missing))
            && (str != "" && !IsNumeric(str) ==> r == Err(NotNumeric))
            && (IsNumeric(str) && !SizeBelow(str, Shift(2, 308)) ==> r == Err(NotNumeric))
            && (IsNumeric(str) && SizeBelow(str, Shift(1, 308)) ==>
                  r == if HasPrecision(str, p) then Ok(str) else Err(TooPrecise))
  {
    var str := Trim(amount);
    if IsNumeric(str) {
      FiniteBySize(str);
      FitsIff(str, p);
    }
  }

  /** In particular every number of at most 308 integer digits. */
  lemma ShortIsRead(amount: string, p: nat)
    requires IsNumeric(Trim(amount)) && |Unsigned(BeforePoint(Trim(amount)))| <= 308
    ensures ReadText(amount, p) == if HasPrecision(Trim(amount), p) then Ok(Trim(amount)) else Err(TooPrecise)
  {
    ShortIsSmall(Trim(amount));
    ReadBySize(amount, p);
  }

  /** Bounds that are numbers of the precision. */
  ghost predicate BoundsFit(o: Options) {
    && IsNumeric(o.min) && HasPrecision(o.min, o.precision)
    && (o.max.Some? ==> IsNumeric(o.max.value) && HasPrecision(o.max.value, o.precision))
  }

  ghost predicate InRange(s: string, o: Options)
    requires IsNumeric(s) && BoundsFit(o)
  {
    && AtLeast(s, o.min) && (o.max.Some? ==> AtLeast(o.max.value, s))
    && (o.allowZero || Numerator(s) != 0)
  }

  /** With such bounds, a text is accepted exactly when it is a number a double can hold
      (see `FiniteLimitIs`), of the precision, in range, and not a refused zero. */
  lemma AcceptedIff(amount: string, o: Options)
    requires BoundsFit(o)
    ensures NormalizeAmount(amount, o).Ok? <==>
            && IsNumeric(Trim(amount)) && SizeBelow(Trim(amount), FINITE_LIMIT)
            && HasPrecision(Trim(amount), o.precision) && InRange(Trim(amount), o)
  {
    ReadIff(amount, o.precision);
    FitsIff(o.min, o.precision);
    if o.max.Some? {
      FitsIff(o.max.value, o.precision);
    }
    if ReadText(amount, o.precision).Ok? {
      AcceptedIffInRange(amount, o);
    }
  }

  /** So, of at most 308 integer digits, exactly the numbers of the precision that are in
      range and not a refused zero. */
  lemma ShortAcceptedIff(amount: string, o: Options)
    requires BoundsFit(o) && IsNumeric(Trim(amount)) && |Unsigned(BeforePoint(Trim(amount)))| <= 308
    ensures NormalizeAmount(amount, o).Ok? <==> HasPrecision(Trim(amount), o.precision) && InRange(Trim(amount), o)
  {
    AcceptedIff(amount, o);
    ShortIsSmall(Trim(amount));
    FiniteBySize(Trim(amount));
  }

  lemma ReadIff(amount: string, p: nat)
    ensures var str := Trim(amount);
            ReadText(amount, p).Ok? <==> IsNumeric(str) && SizeBelow(str, FINITE_LIMIT) && HasPrecision(str, p)
    ensures ReadText(amount, p).Ok? ==> ReadText(amount, p).value == Trim(amount)
  {
    if IsNumeric(Trim(amount)) {
      FitsIff(Trim(amount), p);
    }
  }

  /** And from 2 * 10^308 on nothing is. */
  lemma LargeIsRefused(amount: string, o: Options)
    requires IsNumeric(Trim(amount)) && !SizeBelow(Trim(amount), Shift(2, 308))
    ensures NormalizeAmount(amount, o) == Err(NotNumeric)
  {
    ReadBySize(amount, o.precision);
  }

  /** A number that is read but not in range is refused for the bound it misses. */
  lemma RangeRefusals(m: int, o: Options)
    requires ToScaledBigInt(o.min, o.precision).Some?
    requires o.max.Some? ==> ToScaledBigInt(o.max.value, o.precision).Some?
    ensures var r := CheckRange(m, o);
            if m < ToScaledBigInt(o.min, o.precision).value then r == Err(BelowMinimum)
            else if o.max.Some? && m > ToScaledBigInt(o.max.value, o.precision).value then r == Err(AboveMaximum)
            else r == if m == 0 && !o.allowZero then Err(ZeroAmount) else Ok(m)
  {
  }

  /** Among the ASCII characters white space is tab, the line ends and feeds, and the blank. */
  lemma AsciiWhite(c: char)
    requires c as int < 128
    ensures IsWhite(c) <==> c in "\t\n\r " || c as int == 11 || c as int == 12
  {
  }
}
