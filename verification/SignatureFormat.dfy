/** Hex and base64 signature text with format detection
    (packages/crypto/src/signature-format.ts). `btoa` and `atob` are sections 4
    and 3.5 of RFC 4648. */
module SignatureFormat {
  import opened Prelude
  import opened HexDigits

  // ---------------------------------------------------------------------- hex

  function HexDigit(v: nat): (c: char)
    requires v < 16
    ensures IsHexDigit(c) && HexValue(c) == v && c != 'x'
  {
    if v < 10 then (v + 48) as char else (v + 87) as char
  }

  /** Two lowercase digits a byte. */
  function HexText(bytes: seq<byte>): (s: string)
    ensures |s| == 2 * |bytes|
    ensures forall i :: 0 <= i < |s| ==> IsHexDigit(s[i])
  {
    if bytes == [] then "" else [HexDigit(bytes[0] / 16), HexDigit(bytes[0] % 16)] + HexText(bytes[1..])
  }

  function ToHex(bytes: seq<byte>, includePrefix: bool): string {
    if includePrefix then "0x" + HexText(bytes) else HexText(bytes)
  }

  predicate HasPrefix(s: string) {
    |s| >= 2 && s[0] == '0' && s[1] == 'x'
  }

  function Cleaned(s: string): string {
    if HasPrefix(s) then s[2..] else s
  }

  predicate AllHex(s: string) {
    forall i :: 0 <= i < |s| ==> IsHexDigit(s[i])
  }

  predicate IsValidHex(s: string) {
    |Cleaned(s)| % 2 == 0 && AllHex(Cleaned(s))
  }

  /** `parseInt` of two characters in base 16, as stored in a byte: the pair "0x" is
      not a number and stores 0. */
  function PairValue(a: char, b: char): byte
    requires IsHexDigit(a) && (IsHexDigit(b) || b == 'x')
  {
    if b == 'x' then 0 else 16 * HexValue(a) + HexValue(b)
  }

  /** Valid text after its own prefix is stripped: only the second character can be an x. */
  lemma ValidCharacters(s: string)
    requires IsValidHex(s)
    ensures |s| % 2 == 0
    ensures forall i :: 0 <= i < |s| ==> IsHexDigit(s[i]) || (i == 1 && s[i] == 'x')
  {
    if HasPrefix(s) {
      assert forall i :: 2 <= i < |s| ==> s[i] == Cleaned(s)[i - 2];
    }
  }

  function PairsDecoded(s: string): (bytes: seq<byte>)
    requires IsValidHex(s)
    ensures |bytes| == |s| / 2
  {
    ValidCharacters(s);
    seq(|s| / 2, i requires 0 <= i < |s| / 2 => PairValue(s[2 * i], s[2 * i + 1]))
  }

  function HexDecoded(hex: string): Option<seq<byte>> {
    if IsValidHex(Cleaned(hex)) then Some(PairsDecoded(Cleaned(hex))) else None
  }

  method FromHex(hex: string) returns (r: Option<seq<byte>>)
    ensures r == HexDecoded(hex)
  {
    var cleaned := Cleaned(hex);
    if !IsValidHex(cleaned) {
      return None;
    }
    ValidCharacters(cleaned);
    var bytes := new byte[|cleaned| / 2](_ => 0);
    for i := 0 to |cleaned| / 2
      invariant bytes[..i] == PairsDecoded(cleaned)[..i]
    {
      bytes[i] := PairValue(cleaned[2 * i], cleaned[2 * i + 1]);
    }
    assert bytes[..] == PairsDecoded(cleaned);
    return Some(bytes[..]);
  }

  lemma {:induction false} HexTextAt(bytes: seq<byte>, i: nat)
    requires i < |bytes|
    ensures HexText(bytes)[2 * i] == HexDigit(bytes[i] / 16) && HexText(bytes)[2 * i + 1] == HexDigit(bytes[i] % 16)
  {
    if i > 0 {
      HexTextAt(bytes[1..], i - 1);
    }
  }

  lemma HexTextValid(bytes: seq<byte>)
    ensures !HasPrefix(HexText(bytes)) && IsValidHex(HexText(bytes))
    ensures PairsDecoded(HexText(bytes)) == bytes
  {
    var s := HexText(bytes);
    assert !HasPrefix(s);
    forall i | 0 <= i < |bytes|
      ensures PairsDecoded(s)[i] == bytes[i]
    {
      HexTextAt(bytes, i);
    }
  }

  /** Hex decoding inverts hex encoding, prefixed or not. */
  lemma HexRoundTrip(bytes: seq<byte>, includePrefix: bool)
    ensures HexDecoded(ToHex(bytes, includePrefix)) == Some(bytes)
  {
    HexTextValid(bytes);
    assert ("0x" + HexText(bytes))[2..] == HexText(bytes);
  }

  /** The decoder strips a prefix and then validates what may carry another: it
      accepts exactly the valid texts and those prefixed twice. */
  lemma HexAccepted(s: string)
    ensures HexDecoded(s).Some? <==> IsValidHex(s) || (HasPrefix(s) && HasPrefix(s[2..]) && IsValidHex(s[2..]))
    ensures HasPrefix(s) && HasPrefix(s[2..]) ==> !IsValidHex(s)
  {
    if HasPrefix(s) && HasPrefix(s[2..]) {
      assert Cleaned(s)[1] == 'x';
    }
  }

  function Lower(c: char): char {
    if 'A' <= c <= 'F' then (c as int + 32) as char else c
  }

  /** Encoding a decoded text gives its lowercase, unprefixed form. */
  lemma HexNormalForm(s: string)
    requires IsValidHex(s)
    ensures HexDecoded(s).Some? && |HexText(HexDecoded(s).value)| == |Cleaned(s)|
    ensures forall i :: 0 <= i < |Cleaned(s)| ==> HexText(HexDecoded(s).value)[i] == Lower(Cleaned(s)[i])
  {
    HexAccepted(s);
    var t := Cleaned(s);
    assert !HasPrefix(t) && Cleaned(t) == t;
    forall i | 0 <= i < |t|
      ensures HexText(PairsDecoded(t))[i] == Lower(t[i])
    {
      PairNormalForm(t, i / 2);
      assert i == 2 * (i / 2) || i == 2 * (i / 2) + 1;
    }
  }

  lemma PairNormalForm(t: string, j: nat)
    requires IsValidHex(t) && AllHex(t) && 2 * j + 1 < |t|
    ensures HexText(PairsDecoded(t))[2 * j] == Lower(t[2 * j])
    ensures HexText(PairsDecoded(t))[2 * j + 1] == Lower(t[2 * j + 1])
  {
    HexTextAt(PairsDecoded(t), j);
    PairDigits(t[2 * j], t[2 * j + 1]);
  }

  lemma PairDigits(a: char, b: char)
    requires IsHexDigit(a) && IsHexDigit(b)
    ensures HexDigit(PairValue(a, b) / 16) == Lower(a) && HexDigit(PairValue(a, b) % 16) == Lower(b)
  {
    LowerDigit(a);
    LowerDigit(b);
  }

  lemma LowerDigit(c: char)
    requires IsHexDigit(c)
    ensures HexDigit(HexValue(c)) == Lower(c)
  {
  }

  // ------------------------------------------------------------------- base64

  predicate IsSextetChar(c: char) {
    'A' <= c <= 'Z' || 'a' <= c <= 'z' || '0' <= c <= '9' || c == '+' || c == '/'
  }

  function Sextet(c: char): (v: nat)
    requires IsSextetChar(c)
    ensures v < 64
  {
    if 'A' <= c <= 'Z' then c as int - 65
    else if 'a' <= c <= 'z' then c as int - 71
    else if '0' <= c <= '9' then c as int + 4
    else if c == '+' then 62
    else 63
  }

  function SextetChar(v: nat): (c: char)
    requires v < 64
    ensures IsSextetChar(c) && Sextet(c) == v
  {
    if v < 26 then (v + 65) as char
    else if v < 52 then (v + 71) as char
    else if v < 62 then (v - 4) as char
    else if v == 62 then '+'
    else '/'
  }

  ghost predicate Small(v: seq<nat>) {
    forall i :: 0 <= i < |v| ==> v[i] < 64
  }

  /** The six-bit groups of some bytes; the last may be filled up with zero bits. */
  function Sextets(b: seq<byte>): (v: seq<nat>)
    ensures |v| == (4 * |b| + 2) / 3 && Small(v)
  {
    if |b| == 0 then []
    else if |b| == 1 then [b[0] / 4, b[0] % 4 * 16]
    else if |b| == 2 then [b[0] / 4, b[0] % 4 * 16 + b[1] / 16, b[1] % 16 * 4]
    else
      [b[0] / 4, b[0] % 4 * 16 + b[1] / 16, b[1] % 16 * 4 + b[2] / 64, b[2] % 64] + Sextets(b[3..])
  }

  function FromSextets(v: seq<nat>): (b: seq<byte>)
    requires Small(v)
  {
    if |v| < 2 then []
    else if |v| == 2 then [v[0] * 4 + v[1] / 16]
    else if |v| == 3 then [v[0] * 4 + v[1] / 16, v[1] % 16 * 16 + v[2] / 4]
    else [v[0] * 4 + v[1] / 16, v[1] % 16 * 16 + v[2] / 4, v[2] % 4 * 64 + v[3]] + FromSextets(v[4..])
  }

  /** Base64 text without its padding. */
  function Unpadded(b: seq<byte>): (s: string)
    ensures |s| == (4 * |b| + 2) / 3
    ensures forall i :: 0 <= i < |s| ==> IsSextetChar(s[i])
  {
    var v := Sextets(b);
    seq(|v|, i requires 0 <= i < |v| => SextetChar(v[i]))
  }

  function Equals(k: nat): (s: string)
    ensures |s| == k
    ensures forall i :: 0 <= i < k ==> s[i] == '='
  {
    seq(k, i => '=')
  }

  /** Pads with '=' to a multiple of four. */
  function NormalizePadding(s: string): (t: string)
    ensures |t| % 4 == 0 || |s| % 4 == 0
  {
    if |s| % 4 == 0 then s else s + Equals(4 - |s| % 4)
  }

  /** `btoa` of the bytes. */
  function Base64Text(b: seq<byte>): string {
    NormalizePadding(Unpadded(b))
  }

  function CharCodes(binary: string): (b: seq<byte>)
    requires forall i :: 0 <= i < |binary| ==> binary[i] as int < 256
    ensures |b| == |binary|
  {
    seq(|binary|, i requires 0 <= i < |binary| => binary[i] as int)
  }

  method ToBase64(bytes: seq<byte>) returns (s: string)
    ensures s == Base64Text(bytes)
  {
    var binary := "";
    for i := 0 to |bytes|
      invariant |binary| == i
      invariant forall k :: 0 <= k < i ==> binary[k] as int == bytes[k]
    {
      binary := binary + [bytes[i] as char];
    }
    assert CharCodes(binary) == bytes;
    s := Base64Text(CharCodes(binary));
  }

  /** Where the characters of the alphabet end. */
  function DataLength(s: string): (n: nat)
    ensures n <= |s|
    ensures forall i :: 0 <= i < n ==> IsSextetChar(s[i])
    ensures n < |s| ==> !IsSextetChar(s[n])
  {
    if s == "" || !IsSextetChar(s[0]) then 0 else 1 + DataLength(s[1..])
  }

  lemma DataLengthIs(s: string, n: nat)
    requires n <= |s| && (forall i :: 0 <= i < n ==> IsSextetChar(s[i])) && (n < |s| ==> !IsSextetChar(s[n]))
    ensures DataLength(s) == n
  {
  }

  /** Alphabet characters, then at most two '=', in blocks of four. */
  predicate IsValidBase64(s: string) {
    && |s| % 4 == 0
    && |s| - DataLength(s) <= 2
    && forall i :: DataLength(s) <= i < |s| ==> s[i] == '='
  }

  /** `atob`: the bytes of the data characters; bits left over are dropped. */
  function SextetsDecoded(s: string): (b: seq<byte>)
    requires forall i :: 0 <= i < |s| ==> IsSextetChar(s[i])
  {
    FromSextets(seq(|s|, i requires 0 <= i < |s| => Sextet(s[i])))
  }

  function Base64Decoded(b64: string): Option<seq<byte>> {
    var normalized := NormalizePadding(b64);
    if IsValidBase64(normalized) then Some(SextetsDecoded(normalized[..DataLength(normalized)])) else None
  }

  method FromBase64(b64: string) returns (r: Option<seq<byte>>)
    ensures r == Base64Decoded(b64)
  {
    var normalized := NormalizePadding(b64);
    if !IsValidBase64(normalized) {
      return None;
    }
    var decoded := SextetsDecoded(normalized[..DataLength(normalized)]);
    var bytes := new byte[|decoded|](_ => 0);
    for i := 0 to |decoded|
      invariant bytes[..i] == decoded[..i]
    {
      bytes[i] := decoded[i];
    }
    assert bytes[..] == decoded;
    return Some(bytes[..]);
  }

  /** Splitting three bytes into sextets loses nothing. */
  lemma SextetsRejoin(x: byte, y: byte, z: byte)
    ensures x / 4 * 4 + (x % 4 * 16 + y / 16) / 16 == x
    ensures (x % 4 * 16 + y / 16) % 16 * 16 + (y % 16 * 4 + z / 64) / 4 == y
    ensures (y % 16 * 4 + z / 64) % 4 * 64 + z % 64 == z
    ensures x % 4 * 16 / 16 == x % 4 && (y % 16 * 4) / 4 == y % 16
  {
  }

  lemma {:induction false} FromSextetsOf(b: seq<byte>)
    ensures FromSextets(Sextets(b)) == b
  {
    if |b| == 1 {
      SextetsRejoin(b[0], 0, 0);
    } else if |b| == 2 {
      SextetsRejoin(b[0], b[1], 0);
    } else if |b| >= 3 {
      SextetsRejoin(b[0], b[1], b[2]);
      FromSextetsOf(b[3..]);
      assert Sextets(b)[4..] == Sextets(b[3..]);
      assert b == [b[0], b[1], b[2]] + b[3..];
    }
  }

  lemma SextetsOfBytes(b: seq<byte>)
    ensures SextetsDecoded(Unpadded(b)) == b
  {
    var s := Unpadded(b);
    assert seq(|s|, i requires 0 <= i < |s| => Sextet(s[i])) == Sextets(b);
    FromSextetsOf(b);
  }

  lemma UnpaddedLength(n: nat)
    ensures var u := (4 * n + 2) / 3;
            && u % 4 != 1
            && (u % 4 == 0 <==> n % 3 == 0)
            && u + (4 - u % 4) % 4 == 4 * ((n + 2) / 3)
  {
    var q, r := n / 3, n % 3;
    assert n == 3 * q + r;
    if r == 0 {
      assert (4 * n + 2) / 3 == 4 * q;
    } else if r == 1 {
      assert (4 * n + 2) / 3 == 4 * q + 2;
    } else {
      assert (4 * n + 2) / 3 == 4 * q + 3;
    }
  }

  lemma Base64Shape(b: seq<byte>)
    ensures var s := Base64Text(b);
            && IsValidBase64(s) && DataLength(s) == |Unpadded(b)| && s[..DataLength(s)] == Unpadded(b)
            && |s| == 4 * ((|b| + 2) / 3)
            && (|b| % 3 != 0 <==> |s| > |Unpadded(b)|)
  {
    UnpaddedLength(|b|);
    var u := Unpadded(b);
    var s := Base64Text(b);
    assert s == u + Equals((4 - |u| % 4) % 4);
    DataLengthIs(s, |u|);
  }

  /** Base64 decoding inverts encoding, with or without the padding. */
  lemma Base64RoundTrip(b: seq<byte>)
    ensures Base64Decoded(Base64Text(b)) == Some(b)
    ensures Base64Decoded(Unpadded(b)) == Some(b)
  {
    Base64Shape(b);
    SextetsOfBytes(b);
    assert NormalizePadding(Base64Text(b)) == Base64Text(b);
  }

  // ---------------------------------------------------------------- detection

  datatype Signature = Raw(bytes: seq<byte>) | Text(text: string)

  /** Hex is tried first, then base64. */
  function DecodeSignature(signature: Signature): Option<seq<byte>> {
    match signature
    case Raw(bytes) => Some(bytes)
    case Text(s) =>
      if (IsValidHex(s) || HasPrefix(s)) && HexDecoded(s).Some? then HexDecoded(s)
      else if IsValidBase64(s) then Base64Decoded(s)
      else None
  }

  /** Either hex form is always recovered. */
  lemma DetectHex(bytes: seq<byte>, includePrefix: bool)
    ensures DecodeSignature(Text(ToHex(bytes, includePrefix))) == Some(bytes)
  {
    HexRoundTrip(bytes, includePrefix);
    HexTextValid(bytes);
  }

  /** Base64 text is recovered exactly when it does not also read as hex, or is empty. */
  lemma DetectBase64(b: seq<byte>)
    ensures DecodeSignature(Text(Base64Text(b))) == Some(b)
        <==> b == [] || HexDecoded(Base64Text(b)).None?
  {
    var s := Base64Text(b);
    Base64Shape(b);
    Base64RoundTrip(b);
    HexAccepted(s);
    if HexDecoded(s).Some? {
      assert |HexDecoded(s).value| <= |s| / 2;
      if |b| % 3 != 0 {
        PaddingIsNotHex(b);
      }
    }
  }

  lemma CleanedEnds(s: string)
    requires s != "" && s[|s| - 1] == '='
    ensures var t := Cleaned(s); t != "" && t[|t| - 1] == '='
  {
    if HasPrefix(s) {
      assert s[1] != '=' && |s| > 2;
    }
  }

  lemma PaddingIsNotHex(b: seq<byte>)
    requires |b| % 3 != 0
    ensures HexDecoded(Base64Text(b)).None?
  {
    var s := Base64Text(b);
    Base64Shape(b);
    assert s[|s| - 1] == '=';
    CleanedEnds(s);
    CleanedEnds(Cleaned(s));
  }

  /** So every length that is not a multiple of three is safe, a 64-byte signature's included. */
  lemma DetectPaddedBase64(b: seq<byte>)
    requires |b| % 3 != 0
    ensures DecodeSignature(Text(Base64Text(b))) == Some(b)
  {
    PaddingIsNotHex(b);
    DetectBase64(b);
  }

  /** Three bytes whose base64 text is "abcd" come back as two. */
  lemma ThreeBytesMisread()
    ensures Base64Text([105, 183, 29]) == "abcd"
    ensures DecodeSignature(Text("abcd")) == Some([0xab, 0xcd])
  {
    assert [105, 183, 29][3..] == [] && Sextets([]) == [];
    assert Sextets([105, 183, 29]) == [26, 27, 28, 29];
    assert Unpadded([105, 183, 29]) == "abcd";
    assert PairsDecoded("abcd") == [0xab, 0xcd];
  }

  // --------------------------------------------------------------- fixed points

  lemma HexAlphabet(v: nat)
    requires v < 16
    ensures HexDigit(v) == "0123456789abcdef"[v]
  {
  }

  lemma Base64Alphabet(v: nat)
    requires v < 64
    ensures v < 26 ==> SextetChar(v) == "ABCDEFGHIJKLMNOPQRSTUVWXYZ"[v]
    ensures 26 <= v < 52 ==> SextetChar(v) == "abcdefghijklmnopqrstuvwxyz"[v - 26]
    ensures 52 <= v ==> SextetChar(v) == "0123456789+/"[v - 52]
  {
    var upper, lower, rest := "ABCDEFGHIJKLMNOPQRSTUVWXYZ", "abcdefghijklmnopqrstuvwxyz", "0123456789+/";
    assert forall i :: 0 <= i < 26 ==> upper[i] as int == i + 65;
    assert forall i :: 0 <= i < 26 ==> lower[i] as int == i + 97;
    assert forall i :: 0 <= i < 10 ==> rest[i] as int == i + 48;
  }

  /** Test vectors of section 10 of RFC 4648: "f" and "fooba". */
  lemma Base64Vectors()
    ensures Base64Text([102]) == "Zg=="
    ensures Base64Text([102, 111, 111, 98, 97]) == "Zm9vYmE="
  {
    assert Sextets([102]) == [25, 32];
    assert Unpadded([102]) == "Zg";
    assert [102, 111, 111, 98, 97][3..] == [98, 97];
    assert Sextets([98, 97]) == [24, 38, 4];
    assert Sextets([102, 111, 111, 98, 97]) == [25, 38, 61, 47, 24, 38, 4];
    assert Unpadded([102, 111, 111, 98, 97]) == "Zm9vYmE";
  }

  /** Section 10 again, in the lower case the encoder writes: "foo". */
  lemma HexVector()
    ensures ToHex([102, 111, 111], false) == "666f6f" && ToHex([102, 111, 111], true) == "0x666f6f"
  {
    assert [102, 111, 111][1..] == [111, 111] && [111, 111][1..] == [111] && [111][1..] == [];
    assert HexText([111]) == "6f" && HexText([111, 111]) == "6f6f";
  }

  /** Base64 text is alphabet characters and up to two '=', in blocks of four. */
  lemma Base64ValidIff(s: string)
    ensures IsValidBase64(s) <==> |s| % 4 == 0 && exists data, k ::
              0 <= k <= 2 && s == data + Equals(k) && forall i :: 0 <= i < |data| ==> IsSextetChar(data[i])
  {
    var n := DataLength(s);
    if IsValidBase64(s) {
      assert s == s[..n] + Equals(|s| - n);
    }
    if data, k :| 0 <= k <= 2 && s == data + Equals(k) && forall i :: 0 <= i < |data| ==> IsSextetChar(data[i]) {
      DataLengthIs(s, |data|);
    }
  }

  /** Bytes are their own signature; text is one exactly when it decodes as hex or is valid
      base64. */
  lemma DecodedIff(bytes: seq<byte>, s: string)
    ensures DecodeSignature(Raw(bytes)) == Some(bytes)
    ensures DecodeSignature(Text(s)).Some? <==> HexDecoded(s).Some? || IsValidBase64(s)
    ensures HexDecoded(s).Some? ==> DecodeSignature(Text(s)) == HexDecoded(s)
  {
    HexAccepted(s);
  }
}
