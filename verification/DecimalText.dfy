/** Decimal text as JavaScript reads and writes it. */
module DecimalText {
  import opened Prelude
  import opened Radix
  import opened HexDigits

  predicate IsDigit(c: char) {
    '0' <= c <= '9'
  }

  predicate AllDigits(s: string) {
    forall i :: 0 <= i < |s| ==> IsDigit(s[i])
  }

  function DigitsOf(s: string): (ds: seq<nat>)
    requires AllDigits(s)
    ensures |ds| == |s| && Below(ds, 10)
    ensures forall i :: 0 <= i < |s| ==> ds[i] == s[i] as int - 48
  {
    seq(|s|, i requires 0 <= i < |s| => s[i] as int - 48)
  }

  function DigitText(ds: seq<nat>): (s: string)
    requires Below(ds, 10)
    ensures |s| == |ds| && AllDigits(s)
  {
    seq(|ds|, i requires 0 <= i < |ds| => (ds[i] + 48) as char)
  }

  /** Digit text is determined by its digits. */
  lemma DigitsDetermine(a: string, b: string)
    requires AllDigits(a) && AllDigits(b) && DigitsOf(a) == DigitsOf(b)
    ensures a == b
  {
    assert |a| == |b|;
    forall i | 0 <= i < |a|
      ensures a[i] == b[i]
    {
      assert DigitsOf(a)[i] == DigitsOf(b)[i];
    }
  }

  function NumberOf(s: string): nat
    requires AllDigits(s)
  {
    FromDigits(DigitsOf(s), 10)
  }

  /** `toString` of a non-negative integer. */
  function NumberText(n: nat): (s: string)
    ensures s != "" && AllDigits(s)
  {
    if n == 0 then "0" else DigitText(ToDigits(n, 10))
  }

  lemma NumberTextValue(n: nat)
    ensures NumberOf(NumberText(n)) == n
    ensures |NumberText(n)| > 1 ==> NumberText(n)[0] != '0'
  {
    if n > 0 {
      assert DigitsOf(NumberText(n)) == ToDigits(n, 10);
      FromTo(n, 10);
    } else {
      assert DigitsOf("0") == [0] && [0][..0] == [];
    }
  }

  /** The decimal text of a number is its only text without leading zeros. */
  lemma NumberTextUnique(n: nat, s: string)
    requires s != "" && AllDigits(s) && s[0] != '0' && NumberOf(s) == n
    ensures NumberText(n) == s
  {
    assert DigitsOf(s)[0] != 0;
    ToFrom(DigitsOf(s), 10);
    assert DigitsOf(NumberText(n)) == ToDigits(n, 10);
    DigitsDetermine(NumberText(n), s);
  }

  // ---------------------------------------------------------- scaling by tens

  /** n * 10^k. */
  function Shift(n: int, k: nat): int {
    if k == 0 then n else 10 * Shift(n, k - 1)
  }

  lemma {:induction false} ShiftShift(n: int, j: nat, k: nat)
    ensures Shift(Shift(n, j), k) == Shift(n, j + k)
  {
    if k > 0 {
      ShiftShift(n, j, k - 1);
    }
  }

  lemma {:induction false} ShiftOrder(m: int, n: int, k: nat)
    ensures m < n <==> Shift(m, k) < Shift(n, k)
    ensures m == n <==> Shift(m, k) == Shift(n, k)
    ensures Shift(0, k) == 0
  {
    if k > 0 {
      ShiftOrder(m, n, k - 1);
    }
  }

  lemma {:induction false} ShiftNegates(n: int, k: nat)
    ensures Shift(-n, k) == -Shift(n, k)
  {
    if k > 0 {
      ShiftNegates(n, k - 1);
    }
  }

  function ZeroText(k: nat): (s: string)
    ensures |s| == k && AllDigits(s)
    ensures forall i :: 0 <= i < k ==> s[i] == '0'
  {
    seq(k, i => '0')
  }

  lemma ZerosBefore(k: nat, s: string)
    requires AllDigits(s)
    ensures AllDigits(ZeroText(k) + s) && NumberOf(ZeroText(k) + s) == NumberOf(s)
  {
    assert DigitsOf(ZeroText(k) + s) == Zeros(k) + DigitsOf(s);
    LeadingZerosWeightless(k, DigitsOf(s), 10);
  }

  lemma {:induction false} ZerosAfter(s: string, k: nat)
    requires AllDigits(s)
    ensures AllDigits(s + ZeroText(k)) && NumberOf(s + ZeroText(k)) == Shift(NumberOf(s), k)
  {
    if k == 0 {
      assert s + ZeroText(0) == s;
    } else {
      ZerosAfter(s, k - 1);
      assert DigitsOf(s + ZeroText(k)) == DigitsOf(s + ZeroText(k - 1)) + [0];
      FromDigitsSnoc(DigitsOf(s + ZeroText(k - 1)), 0, 10);
    }
  }

  lemma {:induction false} ShiftSum(m: int, n: int, k: nat)
    ensures Shift(m + n, k) == Shift(m, k) + Shift(n, k)
  {
    if k > 0 {
      ShiftSum(m, n, k - 1);
    }
  }

  lemma NumberSnoc(s: string, c: char)
    requires AllDigits(s) && IsDigit(c)
    ensures AllDigits(s + [c]) && NumberOf(s + [c]) == 10 * NumberOf(s) + (c as int - 48)
  {
    assert DigitsOf(s + [c]) == DigitsOf(s) + [c as int - 48];
    FromDigitsSnoc(DigitsOf(s), c as int - 48, 10);
  }

  /** Appending digits shifts the number and adds theirs. */
  lemma {:induction false} NumberAppend(s: string, t: string)
    requires AllDigits(s) && AllDigits(t)
    ensures AllDigits(s + t) && NumberOf(s + t) == Shift(NumberOf(s), |t|) + NumberOf(t)
  {
    if t == "" {
      assert s + t == s;
    } else {
      var front, last := t[..|t| - 1], t[|t| - 1];
      NumberAppend(s, front);
      NumberSnoc(s + front, last);
      NumberSnoc(front, last);
      assert s + t == (s + front) + [last] && t == front + [last];
    }
  }

  lemma {:induction false} NumberBelow(s: string)
    requires AllDigits(s)
    ensures NumberOf(s) < Shift(1, |s|)
  {
    if s != "" {
      var front, last := s[..|s| - 1], s[|s| - 1];
      NumberBelow(front);
      NumberSnoc(front, last);
      assert s == front + [last];
    }
  }

  // ----------------------------------------------------- JavaScript functions

  /** The characters `trim` removes: white space and line terminators. */
  predicate IsWhite(c: char) {
    var n := c as int;
    || 9 <= n <= 13 || n == 32 || n == 0xA0 || n == 0x1680 || 0x2000 <= n <= 0x200A
    || n == 0x2028 || n == 0x2029 || n == 0x202F || n == 0x205F || n == 0x3000 || n == 0xFEFF
  }

  function Trim(s: string): (t: string)
    ensures t != "" ==> !IsWhite(t[0]) && !IsWhite(t[|t| - 1])
    ensures |t| <= |s|
    ensures s != "" && !IsWhite(s[0]) && !IsWhite(s[|s| - 1]) ==> t == s
  {
    if s == "" then ""
    else if IsWhite(s[0]) then Trim(s[1..])
    else if IsWhite(s[|s| - 1]) then Trim(s[..|s| - 1])
    else s
  }

  /** Position of the first character c, or the length. */
  function Find(s: string, c: char): (k: nat)
    ensures k <= |s|
    ensures forall i :: 0 <= i < k ==> s[i] != c
    ensures k < |s| ==> s[k] == c
  {
    if s == "" || s[0] == c then 0 else 1 + Find(s[1..], c)
  }

  /** The first component of `split('.')`. */
  function BeforePoint(s: string): string {
    s[..Find(s, '.')]
  }

  function AfterPoint(s: string): string {
    if Find(s, '.') < |s| then s[Find(s, '.') + 1..] else ""
  }

  /** The second component of `split('.')`, "" when there is none. */
  function SecondPart(s: string): string {
    BeforePoint(AfterPoint(s))
  }

  function Unsigned(s: string): string {
    if s != "" && s[0] == '-' then s[1..] else s
  }

  predicate IsNegative(s: string) {
    s != "" && s[0] == '-'
  }

  function Signed(negative: bool, n: int): int {
    if negative then -n else n
  }

  /** The pattern `^-?\d+(\.\d+)?$`. */
  predicate IsNumeric(s: string) {
    && Unsigned(BeforePoint(s)) != "" && AllDigits(Unsigned(BeforePoint(s)))
    && (Find(s, '.') < |s| ==> AfterPoint(s) != "" && AllDigits(AfterPoint(s)))
  }

  /** A numeric text denotes Numerator / 10^Scale. */
  function Numerator(s: string): int
    requires IsNumeric(s)
  {
    Signed(IsNegative(s), NumberOf(Unsigned(BeforePoint(s)) + AfterPoint(s)))
  }

  function Scale(s: string): nat {
    |AfterPoint(s)|
  }

  /** The text of a sign, integer digits and fraction digits. */
  function Literal(negative: bool, integer: string, fraction: string): string {
    (if negative then "-" else "") + integer + (if fraction == "" then "" else "." + fraction)
  }

  lemma FindFirst(s: string, c: char, k: nat)
    requires k <= |s| && (forall i :: 0 <= i < k ==> s[i] != c) && (k < |s| ==> s[k] == c)
    ensures Find(s, c) == k
  {
  }

  lemma NoPointInDigits(s: string)
    requires AllDigits(Unsigned(s))
    ensures Find(s, '.') == |s| && BeforePoint(s) == s && AfterPoint(s) == ""
  {
    forall i | 0 <= i < |s|
      ensures s[i] != '.'
    {
      if s[0] == '-' && i > 0 {
        assert Unsigned(s)[i - 1] == s[i];
      }
    }
    FindFirst(s, '.', |s|);
  }

  lemma HeadParts(negative: bool, integer: string)
    requires integer != "" && AllDigits(integer)
    ensures var head := (if negative then "-" else "") + integer;
            Unsigned(head) == integer && Find(head, '.') == |head|
  {
    assert IsDigit(integer[0]);
    if negative {
      assert ("-" + integer)[1..] == integer;
      NoPointInDigits("-" + integer);
    } else {
      assert "" + integer == integer;
      NoPointInDigits(integer);
    }
  }

  lemma PointAfter(head: string, fraction: string)
    requires Find(head, '.') == |head|
    ensures var s := head + (if fraction == "" then "" else "." + fraction);
            Find(s, '.') == |head| && BeforePoint(s) == head && AfterPoint(s) == fraction
  {
    var s := head + (if fraction == "" then "" else "." + fraction);
    FindFirst(s, '.', |head|);
  }

  lemma LiteralPoint(negative: bool, integer: string, fraction: string)
    requires integer != "" && AllDigits(integer)
    ensures var s := Literal(negative, integer, fraction); var head := (if negative then "-" else "") + integer;
            Find(s, '.') == |head| && BeforePoint(s) == head && Unsigned(head) == integer && AfterPoint(s) == fraction
  {
    HeadParts(negative, integer);
    PointAfter((if negative then "-" else "") + integer, fraction);
  }

  lemma LiteralParts(negative: bool, integer: string, fraction: string)
    requires integer != "" && AllDigits(integer) && AllDigits(fraction)
    ensures var s := Literal(negative, integer, fraction);
            && IsNumeric(s)
            && Unsigned(BeforePoint(s)) == integer && AfterPoint(s) == fraction
            && IsNegative(s) == IsNegative(BeforePoint(s)) == negative
            && Numerator(s) == Signed(negative, NumberOf(integer + fraction)) && Scale(s) == |fraction|
  {
    LiteralPoint(negative, integer, fraction);
    var s := Literal(negative, integer, fraction);
    assert s[0] == if negative then '-' else integer[0];
    assert IsDigit(integer[0]);
  }

  /** Every numeric text is the literal of its parts. */
  lemma NumericParts(s: string)
    requires IsNumeric(s)
    ensures s != "" && IsNegative(s) == IsNegative(BeforePoint(s))
    ensures s == Literal(IsNegative(s), Unsigned(BeforePoint(s)), AfterPoint(s))
    ensures SecondPart(s) == AfterPoint(s)
    ensures !IsWhite(s[0]) && !IsWhite(s[|s| - 1])
  {
    var i, f := BeforePoint(s), AfterPoint(s);
    assert s == i + if Find(s, '.') < |s| then "." + f else "";
    assert i == (if IsNegative(s) then "-" else "") + Unsigned(i);
    NoPointInDigits(f);
    assert IsDigit(Unsigned(i)[0]) && IsDigit(Unsigned(i)[|Unsigned(i)| - 1]);
    assert f != "" ==> IsDigit(f[|f| - 1]);
  }

  /** `BigInt(text)`: None where the constructor throws. */
  function BigIntOf(text: string): Option<int> {
    var t := Trim(text);
    if t == "" then Some(0)
    else if |t| >= 2 && t[0] == '0' && (t[1] == 'x' || t[1] == 'X') then PrefixedNumber(t[2..], 16)
    else if |t| >= 2 && t[0] == '0' && (t[1] == 'o' || t[1] == 'O') then PrefixedNumber(t[2..], 8)
    else if |t| >= 2 && t[0] == '0' && (t[1] == 'b' || t[1] == 'B') then PrefixedNumber(t[2..], 2)
    else SignedNumber(t)
  }

  function SignedNumber(t: string): Option<int>
    requires t != ""
  {
    var digits := if t[0] == '-' || t[0] == '+' then t[1..] else t;
    if digits == "" || !AllDigits(digits) then None
    else Some(Signed(t[0] == '-', NumberOf(digits)))
  }

  function PrefixedNumber(s: string, base: nat): Option<int> {
    if s == "" || exists i :: 0 <= i < |s| && HexValue(s[i]) >= base then None
    else Some(FromDigits(seq(|s|, i requires 0 <= i < |s| => HexValue(s[i])), base))
  }

  lemma BigIntOfUnprefixed(t: string)
    requires t != "" && !IsWhite(t[0]) && !IsWhite(t[|t| - 1])
    requires |t| >= 2 && t[0] == '0' ==> IsDigit(t[1])
    ensures BigIntOf(t) == SignedNumber(t)
  {
    assert Trim(t) == t;
  }

  lemma SignedEdges(negative: bool, digits: string)
    requires digits != "" && AllDigits(digits)
    ensures var t := (if negative then "-" else "") + digits;
            && t != "" && !IsWhite(t[0]) && !IsWhite(t[|t| - 1])
            && (|t| >= 2 && t[0] == '0' ==> IsDigit(t[1]))
  {
    assert IsDigit(digits[0]) && IsDigit(digits[|digits| - 1]);
    assert |digits| >= 2 ==> IsDigit(digits[1]);
    if !negative {
      assert "" + digits == digits;
    }
  }

  lemma SignedNumberOf(negative: bool, digits: string)
    requires digits != "" && AllDigits(digits)
    ensures SignedNumber((if negative then "-" else "") + digits) == Some(Signed(negative, NumberOf(digits)))
  {
    assert IsDigit(digits[0]);
    if negative {
      assert ("-" + digits)[1..] == digits;
    } else {
      assert "" + digits == digits;
    }
  }

  lemma BigIntOfDigits(negative: bool, digits: string)
    requires digits != "" && AllDigits(digits)
    ensures BigIntOf((if negative then "-" else "") + digits)
         == Some(Signed(negative, NumberOf(digits)))
  {
    SignedEdges(negative, digits);
    SignedNumberOf(negative, digits);
    BigIntOfUnprefixed((if negative then "-" else "") + digits);
  }

  lemma BigIntOfPlain(digits: string)
    requires digits != "" && AllDigits(digits)
    ensures BigIntOf(digits) == Some(NumberOf(digits))
  {
    BigIntOfDigits(false, digits);
    assert "" + digits == digits;
  }
}
