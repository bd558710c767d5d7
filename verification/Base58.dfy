/** The Base58 codec (packages/crypto/src/encoding.ts). */
module Base58 {
  import opened Prelude
  import opened Arithmetic
  import opened Radix

  const ALPHABET: string :=
    "123456789" + "ABCDEFGH" + "JKLMN" + "PQRSTUVWXYZ" + "abcdefghijk" + "mnopqrstuvwxyz"

  /** The alphabet's runs: each is consecutive character codes. */
  lemma AlphabetRuns()
    ensures |ALPHABET| == 58
    ensures forall i :: 0 <= i < 58 ==>
      ALPHABET[i] as int == i + (if i < 9 then 49 else if i < 17 then 56 else if i < 22 then 57
                                 else if i < 33 then 58 else if i < 44 then 64 else 65)
  {
    var r1, r2, r3 := "123456789", "ABCDEFGH", "JKLMN";
    var r4, r5, r6 := "PQRSTUVWXYZ", "abcdefghijk", "mnopqrstuvwxyz";
    assert forall i :: 0 <= i < 9 ==> r1[i] as int == i + 49;
    assert forall i :: 0 <= i < 8 ==> r2[i] as int == i + 65;
    assert forall i :: 0 <= i < 5 ==> r3[i] as int == i + 74;
    assert forall i :: 0 <= i < 11 ==> r4[i] as int == i + 80;
    assert forall i :: 0 <= i < 11 ==> r5[i] as int == i + 97;
    assert forall i :: 0 <= i < 14 ==> r6[i] as int == i + 109;
    assert ALPHABET == r1 + r2 + r3 + r4 + r5 + r6;
  }

  predicate InAlphabet(s: string) {
    forall c | c in s :: c in ALPHABET
  }

  /** The first position of a character from `from` on, or -1. */
  function IndexOf(c: char, from: nat): (i: int)
    requires from <= 58
    ensures i == -1 || (from <= i < 58 && ALPHABET[i] == c)
    ensures i == -1 ==> c !in ALPHABET[from..]
    decreases 58 - from
  {
    if from == 58 then -1
    else if ALPHABET[from] == c then from
    else
      assert ALPHABET[from..] == [ALPHABET[from]] + ALPHABET[from + 1..];
      IndexOf(c, from + 1)
  }

  /** Character codes ascend along the alphabet, so no character repeats. */
  lemma AlphabetAscends(i: nat, j: nat)
    requires i < j < 58
    ensures ALPHABET[i] < ALPHABET[j]
  {
    AlphabetRuns();
  }

  lemma IndexOfCharacter(d: nat)
    requires d < 58
    ensures IndexOf(ALPHABET[d], 0) == d
  {
    var i := IndexOf(ALPHABET[d], 0);
    assert ALPHABET[0..] == ALPHABET;
    if 0 <= i < d {
      AlphabetAscends(i, d);
    } else if d < i {
      AlphabetAscends(d, i);
    }
  }

  ghost function Chars(ds: seq<nat>): (s: string)
    requires Below(ds, 58)
    ensures |s| == |ds|
  {
    seq(|ds|, i requires 0 <= i < |ds| => ALPHABET[ds[i]])
  }

  ghost function Indices(s: string): (ds: seq<nat>)
    requires InAlphabet(s)
    ensures |ds| == |s| && Below(ds, 58)
  {
    assert ALPHABET[0..] == ALPHABET;
    seq(|s|, i requires 0 <= i < |s| => IndexOf(s[i], 0))
  }

  ghost function Numeral(bytes: seq<byte>): (ds: seq<nat>)
    ensures |ds| == |bytes| && Below(ds, 256)
    ensures forall i :: 0 <= i < |ds| ==> ds[i] == bytes[i]
  {
    seq(|bytes|, i requires 0 <= i < |bytes| => bytes[i])
  }

  ghost function Bytes(ds: seq<nat>): (b: seq<byte>)
    requires Below(ds, 256)
    ensures Numeral(b) == ds
  {
    seq(|ds|, i requires 0 <= i < |ds| => ds[i])
  }

  /** The Base58 string of some bytes: their numeral read in base 58. */
  ghost function Encoded(bytes: seq<byte>): string {
    Chars(Convert(Numeral(bytes), 256, 58))
  }

  ghost function Decoded(s: string): Option<seq<byte>> {
    if s == [] || !InAlphabet(s) then None else Some(Bytes(Convert(Indices(s), 58, 256)))
  }

  // ------------------------------------------------------------------ the code

  // Each loop of the two functions is a method of its own here.

  method ByteNumber(bytes: seq<byte>) returns (num: nat)
    ensures num == FromDigits(Numeral(bytes), 256)
  {
    num := 0;
    for i := 0 to |bytes|
      invariant num == FromDigits(Numeral(bytes[..i]), 256)
    {
      assert Numeral(bytes[..i + 1]) == Numeral(bytes[..i]) + [bytes[i]];
      FromDigitsSnoc(Numeral(bytes[..i]), bytes[i], 256);
      num := num * 256 + bytes[i];
    }
    assert bytes[..|bytes|] == bytes;
  }

  method NumberCharacters(n: nat) returns (result: string)
    ensures result == Chars(ToDigits(n, 58))
  {
    var num := n;
    result := "";
    ghost var done: seq<nat> := [];
    while num > 0
      invariant ToDigits(n, 58) == ToDigits(num, 58) + done
      invariant Below(done, 58) && result == Chars(done)
    {
      done := [num % 58] + done;
      result := [ALPHABET[num % 58]] + result;
      num := num / 58;
    }
  }

  method ToBase58(bytes: seq<byte>) returns (result: string)
    ensures result == Encoded(bytes)
  {
    var num := ByteNumber(bytes);
    result := NumberCharacters(num);
    ghost var digits := ToDigits(num, 58);
    AlphabetRuns();
    var i := 0;
    while i < |bytes|
      invariant 0 <= i <= LeadingZeros(Numeral(bytes))
      invariant result == Chars(Zeros(i) + digits)
    {
      if bytes[i] != 0 {
        break;
      }
      assert [0] + (Zeros(i) + digits) == Zeros(i + 1) + digits;
      result := ['1'] + result;
      i := i + 1;
    }
  }

  method ReadNumber(s: string) returns (r: Option<nat>)
    ensures r.Some? <==> InAlphabet(s)
    ensures r.Some? ==> r.value == FromDigits(Indices(s), 58)
  {
    var num: nat := 0;
    for i := 0 to |s|
      invariant InAlphabet(s[..i]) && num == FromDigits(Indices(s[..i]), 58)
    {
      var idx := IndexOf(s[i], 0);
      assert ALPHABET[0..] == ALPHABET;
      assert s[..i + 1] == s[..i] + [s[i]];
      if idx == -1 {
        assert s[i] in s;
        return None;
      }
      FromDigitsSnoc(Indices(s[..i]), idx, 58);
      assert Indices(s[..i + 1]) == Indices(s[..i]) + [idx];
      num := num * 58 + idx;
    }
    assert s[..|s|] == s;
    return Some(num);
  }

  method ByteDigits(n: nat) returns (digits: seq<nat>)
    ensures digits == ToDigits(n, 256)
  {
    var num := n;
    digits := [];
    while num > 0
      invariant ToDigits(n, 256) == ToDigits(num, 256) + digits
    {
      digits := [num % 256] + digits;
      num := num / 256;
    }
  }

  method CountLeadingOnes(s: string) returns (leadingZeros: nat)
    requires InAlphabet(s)
    ensures leadingZeros == LeadingZeros(Indices(s))
  {
    leadingZeros := 0;
    while leadingZeros < |s|
      invariant leadingZeros <= LeadingZeros(Indices(s))
    {
      OneIsZero(s, leadingZeros);
      if s[leadingZeros] != '1' {
        break;
      }
      leadingZeros := leadingZeros + 1;
    }
  }

  method Placed(leadingZeros: nat, digits: seq<byte>) returns (result: array<byte>)
    ensures fresh(result) && result[..] == Zeros(leadingZeros) + digits
  {
    result := new byte[leadingZeros + |digits|](_ => 0);
    for i := 0 to |digits|
      invariant forall k :: 0 <= k < leadingZeros ==> result[k] == 0
      invariant forall k :: 0 <= k < i ==> result[leadingZeros + k] == digits[k]
    {
      result[leadingZeros + i] := digits[i];
    }
  }

  method FromBase58(s: string) returns (r: Option<seq<byte>>)
    ensures r == Decoded(s)
  {
    if |s| == 0 {
      return None;
    }
    var num := ReadNumber(s);
    if num.None? {
      return None;
    }
    var digits := ByteDigits(num.value);
    var leadingZeros := CountLeadingOnes(s);
    var result := Placed(leadingZeros, digits);
    ghost var expected := Convert(Indices(s), 58, 256);
    assert Numeral(result[..]) == expected;
    SameNumeral(result[..], Bytes(expected));
    return Some(result[..]);
  }

  lemma OneIsZero(s: string, i: nat)
    requires InAlphabet(s) && i < |s|
    ensures s[i] == '1' <==> Indices(s)[i] == 0
  {
    AlphabetRuns();
    assert ALPHABET[0..] == ALPHABET;
    if s[i] == '1' {
      IndexOfCharacter(0);
    }
  }

  lemma SameNumeral(a: seq<byte>, b: seq<byte>)
    requires Numeral(a) == Numeral(b)
    ensures a == b
  {
    assert |a| == |b|;
    assert forall i :: 0 <= i < |a| ==> a[i] == Numeral(a)[i] == b[i];
  }

  // ------------------------------------------------------------ the bijection

  lemma IndicesOfChars(ds: seq<nat>)
    requires Below(ds, 58)
    ensures InAlphabet(Chars(ds)) && Indices(Chars(ds)) == ds
  {
    forall i | 0 <= i < |ds|
      ensures IndexOf(ALPHABET[ds[i]], 0) == ds[i]
    {
      IndexOfCharacter(ds[i]);
    }
  }

  lemma CharsOfIndices(s: string)
    requires InAlphabet(s)
    ensures Chars(Indices(s)) == s
  {
    assert ALPHABET[0..] == ALPHABET;
  }

  /** Decoding inverts encoding on every input but the empty one, which the decoder refuses. */
  lemma DecodeEncode(bytes: seq<byte>)
    ensures Decoded(Encoded(bytes)) == Some(bytes) <==> bytes != []
  {
    var ds := Numeral(bytes);
    var es := Convert(ds, 256, 58);
    ConvertBack(ds, 256, 58);
    IndicesOfChars(es);
    if bytes != [] {
      SameNumeral(Bytes(Convert(Indices(Encoded(bytes)), 58, 256)), bytes);
    }
  }

  /** Encoding inverts decoding: no two strings decode to the same bytes. */
  lemma EncodeDecode(s: string)
    requires Decoded(s).Some?
    ensures Encoded(Decoded(s).value) == s && Decoded(s).value != []
  {
    ConvertBack(Indices(s), 58, 256);
    CharsOfIndices(s);
  }

  lemma OneIsFirst(d: nat)
    requires d < |ALPHABET|
    ensures ALPHABET[d] == '1' <==> d == 0
  {
    AlphabetRuns();
  }

  lemma CharsLead(es: seq<nat>)
    requires Below(es, 58)
    ensures var z := LeadingZeros(es);
            (forall i :: 0 <= i < z ==> Chars(es)[i] == '1') && (z < |es| ==> Chars(es)[z] != '1')
  {
    forall i | 0 <= i < |es| ensures Chars(es)[i] == '1' <==> es[i] == 0 {
      OneIsFirst(es[i]);
    }
  }

  /** Leading zero bytes and leading '1's correspond exactly. */
  lemma LeadingOnes(bytes: seq<byte>)
    ensures var z, s := LeadingZeros(Numeral(bytes)), Encoded(bytes);
            && z <= |s|
            && (forall i :: 0 <= i < z ==> s[i] == '1')
            && (z < |s| ==> s[z] != '1')
  {
    var ds := Numeral(bytes);
    ConvertBack(ds, 256, 58);
    CharsLead(Convert(ds, 256, 58));
  }

  lemma FiveBytesInSevenCharacters()
    ensures Pow(256, 5) <= Pow(58, 7)
  {
    assert Pow(256, 5) == 0x100_0000_0000;
    assert Pow(58, 7) == 2_207_984_167_552;
  }

  /** m significant bytes take at most 7 * ceil(m / 5) characters after the leading '1's. */
  lemma EncodedLength(bytes: seq<byte>)
    ensures var z := LeadingZeros(Numeral(bytes));
            |Encoded(bytes)| - z <= 7 * CeilDiv(|bytes| - z, 5)
  {
    var ds := Numeral(bytes);
    var z, n := LeadingZeros(ds), FromDigits(ds, 256);
    var significant, c := ds[z..], CeilDiv(|bytes| - z, 5);
    assert ds == Zeros(z) + significant;
    LeadingZerosWeightless(z, significant, 256);
    ValueBound(significant, 256);
    PowMono(256, |significant|, 5 * c);
    FiveBytesInSevenCharacters();
    PowBlocks(256, 5, 58, 7, c);
    DigitCount(n, 58, 7 * c);
  }

  /** Accepted are exactly the non-empty texts over the alphabet. */
  lemma AcceptedIff(s: string)
    ensures Decoded(s).Some? <==> s != "" && forall i :: 0 <= i < |s| ==> s[i] in ALPHABET
  {
    assert ALPHABET[0..] == ALPHABET;
  }
}
