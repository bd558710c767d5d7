/** The XDR form of the host's values (RFC 4506, sections 4.2, 4.5, 4.10, 4.13
    and 4.15), and the payload a session key signs. */
module Xdr {
  import opened Prelude
  import opened Radix

  const U128_LIMIT: int := 0x1_0000_0000_0000_0000_0000_0000_0000_0000
  const U256_LIMIT: int := 0x1_0000_0000_0000_0000_0000_0000_0000_0000_0000_0000_0000_0000_0000_0000_0000_0000

  type u128 = x: int | 0 <= x < U128_LIMIT
  type u256 = x: int | 0 <= x < U256_LIMIT
  type i256 = x: int | -(U256_LIMIT / 2) <= x < U256_LIMIT / 2

  /** The values a contract can hold (the host's `Val`, serialised as `ScVal`). */
  datatype ScVal =
    | Bool(b: bool)
    | Void
    | Error(kind: u32, code: u32)
    | U32(u32: u32)
    | I32(i32: i32)
    | U64(u64: u64)
    | I64(i64: i64)
    | Timepoint(timepoint: u64)
    | Duration(duration: u64)
    | U128(u128: u128)
    | I128(i128: i128)
    | U256(u256: u256)
    | I256(i256: i256)
    | Bytes(bytes: seq<byte>)
    | String(str: seq<byte>)
    | Symbol(sym: seq<byte>)
    | Vec(items: seq<ScVal>)
    | Map(entries: seq<Entry>)
    | Addr(address: Address)

  datatype Entry = Entry(key: ScVal, val: ScVal)

  /** Every length fits the 32-bit count that precedes it. */
  predicate Encodable(v: ScVal) {
    match v
    case Bytes(bs) => |bs| < U32_LIMIT
    case String(bs) => |bs| < U32_LIMIT
    case Symbol(bs) => |bs| < U32_LIMIT
    case Vec(items) => |items| < U32_LIMIT && forall x | x in items :: Encodable(x)
    case Map(entries) =>
      |entries| < U32_LIMIT && forall e: Entry | e in entries :: Encodable(e.key) && Encodable(e.val)
    case _ => true
  }

  /** The low k bytes of n, most significant first. */
  function BigEndian(n: nat, k: nat): (s: seq<byte>)
    ensures |s| == k
  {
    if k == 0 then [] else BigEndian(n / 256, k - 1) + [n % 256]
  }

  function Word(n: nat): (s: seq<byte>)
    ensures |s| == 4
  {
    BigEndian(n, 4)
  }

  /** Two's complement: the non-negative residue of n modulo `limit`. */
  function Residue(n: int, limit: nat): nat
    requires -(limit as int) <= n < limit
  {
    if n < 0 then n + limit else n
  }

  /** The union discriminant (section 4.15) of a value. */
  function Tag(v: ScVal): nat {
    match v
    case Bool(_) => 0
    case Void => 1
    case Error(_, _) => 2
    case U32(_) => 3
    case I32(_) => 4
    case U64(_) => 5
    case I64(_) => 6
    case Timepoint(_) => 7
    case Duration(_) => 8
    case U128(_) => 9
    case I128(_) => 10
    case U256(_) => 11
    case I256(_) => 12
    case Bytes(_) => 13
    case String(_) => 14
    case Symbol(_) => 15
    case Vec(_) => 16
    case Map(_) => 17
    case Addr(_) => 18
  }

  predicate IsScalar(v: ScVal) {
    Tag(v) <= 12
  }

  /** Byte width of a scalar arm; it depends on the discriminant alone. */
  function Width(tag: nat): nat {
    if tag == 1 then 0
    else if tag == 0 || tag == 3 || tag == 4 then 4
    else if tag == 9 || tag == 10 then 16
    else if tag == 11 || tag == 12 then 32
    else 8
  }

  /** The number a scalar arm writes, big-endian, in `Width` bytes. */
  function Number(v: ScVal): nat
    requires IsScalar(v)
  {
    match v
    case Bool(b) => if b then 1 else 0
    case Void => 0
    case Error(kind, code) => kind * U32_LIMIT + code
    case U32(n) => n
    case I32(n) => Residue(n, U32_LIMIT)
    case U64(n) => n
    case I64(n) => Residue(n, U64_LIMIT)
    case Timepoint(n) => n
    case Duration(n) => n
    case U128(n) => n
    case I128(n) => Residue(n, U128_LIMIT)
    case U256(n) => n
    case I256(n) => Residue(n, U256_LIMIT)
  }

  /** Variable-length opaque data: count, bytes, zeros up to a multiple of four
      (section 4.10). */
  function Opaque(bs: seq<byte>): seq<byte> {
    Word(|bs|) + bs + seq((4 - |bs| % 4) % 4, i => 0)
  }

  /** The address kind, and the rest of its arm: for an account, its key type and key. */
  function AddressParts(a: Address): (nat, seq<byte>) {
    match a
    case Account(key) => (0, Word(0) + key)
    case Contract(id) => (1, id)
  }

  function EncodeAddress(a: Address): seq<byte> {
    Word(AddressParts(a).0) + AddressParts(a).1
  }

  /** A value: its discriminant, then the arm's body. */
  function Encode(v: ScVal): seq<byte> {
    Word(Tag(v)) + Body(v)
  }

  function Body(v: ScVal): seq<byte>
    decreases v, 0
  {
    match v
    case Bytes(bs) => Opaque(bs)
    case String(bs) => Opaque(bs)
    case Symbol(bs) => Opaque(bs)
    case Vec(items) => Word(1) + (Word(|items|) + EncodeItems(items))
    case Map(entries) => Word(1) + (Word(|entries|) + EncodeEntries(entries))
    case Addr(a) => EncodeAddress(a)
    case _ => BigEndian(Number(v), Width(Tag(v)))
  }

  function EncodeItems(items: seq<ScVal>): seq<byte>
    decreases items
  {
    if items == [] then [] else Word(Tag(items[0])) + Body(items[0]) + EncodeItems(items[1..])
  }

  function EncodeEntries(entries: seq<Entry>): seq<byte>
    decreases entries
  {
    if entries == [] then [] else EncodeEntry(entries[0]) + EncodeEntries(entries[1..])
  }

  function EncodeEntry(e: Entry): seq<byte>
    decreases e
  {
    Word(Tag(e.key)) + Body(e.key) + (Word(Tag(e.val)) + Body(e.val))
  }

  // ------------------------------------------------------------ fixed widths

  lemma FixedSplit(p: seq<byte>, x: seq<byte>, q: seq<byte>, y: seq<byte>)
    requires |p| == |q| && p + x == q + y
    ensures p == q && x == y
  {
    assert p == (p + x)[..|p|] && q == (q + y)[..|p|];
    assert x == (p + x)[|p|..] && y == (q + y)[|p|..];
  }

  lemma {:induction false} BigEndianInjective(m: nat, n: nat, k: nat)
    requires m < Pow(256, k) && n < Pow(256, k)
    requires BigEndian(m, k) == BigEndian(n, k)
    ensures m == n
  {
    if k > 0 {
      FixedSplit(BigEndian(m / 256, k - 1), [m % 256], BigEndian(n / 256, k - 1), [n % 256]);
      BigEndianInjective(m / 256, n / 256, k - 1);
      assert [m % 256][0] == [n % 256][0];
    }
  }

  lemma WordInjective(m: nat, n: nat)
    requires m < U32_LIMIT && n < U32_LIMIT && Word(m) == Word(n)
    ensures m == n
  {
    assert Pow(256, 4) == U32_LIMIT;
    BigEndianInjective(m, n, 4);
  }

  lemma Widths()
    ensures Pow(256, 4) == U32_LIMIT && Pow(256, 8) == U64_LIMIT
    ensures Pow(256, 16) == U128_LIMIT && Pow(256, 32) == U256_LIMIT
  {
    assert Pow(256, 4) == U32_LIMIT;
    assert Pow(256, 8) == U64_LIMIT;
    assert Pow(256, 16) == U128_LIMIT;
    PowAdd(256, 16, 16);
    assert U128_LIMIT * U128_LIMIT == U256_LIMIT;
  }

  lemma ScalarBody(a: ScVal)
    requires IsScalar(a)
    ensures Body(a) == BigEndian(Number(a), Width(Tag(a))) && Number(a) < Pow(256, Width(Tag(a)))
  {
    Widths();
  }

  lemma ScalarIsNumber(a: ScVal, b: ScVal)
    requires IsScalar(a) && IsScalar(b) && Tag(a) == Tag(b) && Number(a) == Number(b)
    ensures a == b
  {
  }

  /** Two scalars of one type that write the same number are equal. */
  lemma ScalarInjective(a: ScVal, b: ScVal)
    requires IsScalar(a) && Tag(a) == Tag(b)
    requires Body(a) == Body(b)
    ensures a == b
  {
    ScalarBody(a);
    ScalarBody(b);
    BigEndianInjective(Number(a), Number(b), Width(Tag(a)));
    ScalarIsNumber(a, b);
  }

  lemma OpaqueSplit(p: seq<byte>, x: seq<byte>, q: seq<byte>, y: seq<byte>)
    requires |p| < U32_LIMIT && |q| < U32_LIMIT
    requires Opaque(p) + x == Opaque(q) + y
    ensures p == q && x == y
  {
    var padP, padQ: seq<byte> := seq((4 - |p| % 4) % 4, i => 0), seq((4 - |q| % 4) % 4, i => 0);
    assert Opaque(p) + x == Word(|p|) + (p + (padP + x));
    assert Opaque(q) + y == Word(|q|) + (q + (padQ + y));
    FixedSplit(Word(|p|), p + (padP + x), Word(|q|), q + (padQ + y));
    WordInjective(|p|, |q|);
    FixedSplit(p, padP + x, q, padQ + y);
    FixedSplit(padP, x, padQ, y);
  }

  lemma AddressSplit(a: Address, x: seq<byte>, b: Address, y: seq<byte>)
    requires EncodeAddress(a) + x == EncodeAddress(b) + y
    ensures a == b && x == y
  {
    var (kindA, restA) := AddressParts(a);
    var (kindB, restB) := AddressParts(b);
    assert EncodeAddress(a) + x == Word(kindA) + (restA + x);
    assert EncodeAddress(b) + y == Word(kindB) + (restB + y);
    FixedSplit(Word(kindA), restA + x, Word(kindB), restB + y);
    WordInjective(kindA, kindB);
    FixedSplit(restA, x, restB, y);
    if a.Account? {
      FixedSplit(Word(0), a.key, Word(0), b.key);
    }
  }

  // ------------------------------------------------------------- prefix-free

  lemma TagSplit(a: ScVal, x: seq<byte>, b: ScVal, y: seq<byte>)
    requires Encode(a) + x == Encode(b) + y
    ensures Tag(a) == Tag(b) && Body(a) + x == Body(b) + y
  {
    Assoc(Word(Tag(a)), Body(a), x);
    Assoc(Word(Tag(b)), Body(b), y);
    FixedSplit(Word(Tag(a)), Body(a) + x, Word(Tag(b)), Body(b) + y);
    WordInjective(Tag(a), Tag(b));
  }

  /** No encoding is a proper prefix of another, so a concatenation of encodings
      splits in one way only. */
  lemma {:induction false} PrefixFree(a: ScVal, x: seq<byte>, b: ScVal, y: seq<byte>)
    requires Encodable(a) && Encodable(b)
    requires Encode(a) + x == Encode(b) + y
    ensures a == b && x == y
    decreases a, 1
  {
    TagSplit(a, x, b, y);
    BodyPrefixFree(a, x, b, y);
  }

  lemma {:induction false} BodyPrefixFree(a: ScVal, x: seq<byte>, b: ScVal, y: seq<byte>)
    requires Encodable(a) && Encodable(b) && Tag(a) == Tag(b)
    requires Body(a) + x == Body(b) + y
    ensures a == b && x == y
    decreases a, 0
  {
    match a
    case Bytes(bs) => OpaqueSplit(bs, x, b.bytes, y);
    case String(bs) => OpaqueSplit(bs, x, b.str, y);
    case Symbol(bs) => OpaqueSplit(bs, x, b.sym, y);
    case Addr(address) => AddressSplit(address, x, b.address, y);
    case Vec(items) =>
      CountSplit(|items|, EncodeItems(items), x, |b.items|, EncodeItems(b.items), y);
      ItemsPrefixFree(items, x, b.items, y);
    case Map(entries) =>
      CountSplit(|entries|, EncodeEntries(entries), x, |b.entries|, EncodeEntries(b.entries), y);
      EntriesPrefixFree(entries, x, b.entries, y);
    case _ =>
      FixedSplit(Body(a), x, Body(b), y);
      ScalarInjective(a, b);
  }

  lemma CountSplit(m: nat, p: seq<byte>, x: seq<byte>, n: nat, q: seq<byte>, y: seq<byte>)
    requires m < U32_LIMIT && n < U32_LIMIT
    requires Word(1) + (Word(m) + p) + x == Word(1) + (Word(n) + q) + y
    ensures m == n && p + x == q + y
  {
    assert Word(1) + (Word(m) + p) + x == Word(1) + (Word(m) + (p + x));
    assert Word(1) + (Word(n) + q) + y == Word(1) + (Word(n) + (q + y));
    FixedSplit(Word(1), Word(m) + (p + x), Word(1), Word(n) + (q + y));
    FixedSplit(Word(m), p + x, Word(n), q + y);
    WordInjective(m, n);
  }

  lemma {:induction false} ItemsPrefixFree(a: seq<ScVal>, x: seq<byte>, b: seq<ScVal>, y: seq<byte>)
    requires |a| == |b|
    requires forall v | v in a :: Encodable(v)
    requires forall v | v in b :: Encodable(v)
    requires EncodeItems(a) + x == EncodeItems(b) + y
    ensures a == b && x == y
    decreases a, 0
  {
    if a == [] {
      assert EncodeItems(a) + x == x && EncodeItems(b) + y == y;
    } else {
      var restA, restB := EncodeItems(a[1..]) + x, EncodeItems(b[1..]) + y;
      assert EncodeItems(a) + x == Encode(a[0]) + restA;
      assert EncodeItems(b) + y == Encode(b[0]) + restB;
      PrefixFree(a[0], restA, b[0], restB);
      ItemsPrefixFree(a[1..], x, b[1..], y);
      assert a == [a[0]] + a[1..] && b == [b[0]] + b[1..];
    }
  }

  lemma Assoc(p: seq<byte>, q: seq<byte>, r: seq<byte>)
    ensures (p + q) + r == p + (q + r)
  {
  }

  lemma {:induction false} EntryPrefixFree(a: Entry, x: seq<byte>, b: Entry, y: seq<byte>)
    requires Encodable(a.key) && Encodable(a.val) && Encodable(b.key) && Encodable(b.val)
    requires EncodeEntry(a) + x == EncodeEntry(b) + y
    ensures a == b && x == y
    decreases a, 2
  {
    Assoc(Encode(a.key), Encode(a.val), x);
    Assoc(Encode(b.key), Encode(b.val), y);
    PrefixFree(a.key, Encode(a.val) + x, b.key, Encode(b.val) + y);
    PrefixFree(a.val, x, b.val, y);
  }

  lemma {:induction false} EntriesPrefixFree(a: seq<Entry>, x: seq<byte>, b: seq<Entry>, y: seq<byte>)
    requires |a| == |b|
    requires forall e: Entry | e in a :: Encodable(e.key) && Encodable(e.val)
    requires forall e: Entry | e in b :: Encodable(e.key) && Encodable(e.val)
    requires EncodeEntries(a) + x == EncodeEntries(b) + y
    ensures a == b && x == y
    decreases a, 0
  {
    if a == [] {
      assert EncodeEntries(a) + x == x && EncodeEntries(b) + y == y;
    } else {
      Assoc(EncodeEntry(a[0]), EncodeEntries(a[1..]), x);
      Assoc(EncodeEntry(b[0]), EncodeEntries(b[1..]), y);
      EntryPrefixFree(a[0], EncodeEntries(a[1..]) + x, b[0], EncodeEntries(b[1..]) + y);
      EntriesPrefixFree(a[1..], x, b[1..], y);
      assert a == [a[0]] + a[1..] && b == [b[0]] + b[1..];
    }
  }

  // ------------------------------------------------------------ the payload

  /** What a session key signs for one call of `execute`: the four encodings in a row. */
  function SigningPayload(to: Address, fn: seq<byte>, args: seq<ScVal>, nonce: u64): seq<byte> {
    EncodeItems([Addr(to), Symbol(fn), Vec(args), U64(nonce)])
  }

  /** Equal concatenations of equally many encodings come from equal values. */
  lemma ConcatenationInjective(a: seq<ScVal>, b: seq<ScVal>)
    requires |a| == |b|
    requires forall v | v in a :: Encodable(v)
    requires forall v | v in b :: Encodable(v)
    requires EncodeItems(a) == EncodeItems(b)
    ensures a == b
  {
    assert EncodeItems(a) + [] == EncodeItems(b) + [];
    ItemsPrefixFree(a, [], b, []);
  }

  /** Equal payload bytes mean the same call. */
  lemma SigningPayloadInjective(
      to: Address, fn: seq<byte>, args: seq<ScVal>, nonce: u64,
      to': Address, fn': seq<byte>, args': seq<ScVal>, nonce': u64)
    requires Encodable(Symbol(fn)) && Encodable(Vec(args))
    requires Encodable(Symbol(fn')) && Encodable(Vec(args'))
    requires SigningPayload(to, fn, args, nonce) == SigningPayload(to', fn', args', nonce')
    ensures to == to' && fn == fn' && args == args' && nonce == nonce'
  {
    var a, b := [Addr(to), Symbol(fn), Vec(args), U64(nonce)], [Addr(to'), Symbol(fn'), Vec(args'), U64(nonce')];
    ConcatenationInjective(a, b);
    assert a[0] == b[0] && a[1] == b[1] && a[2] == b[2] && a[3] == b[3];
  }

  // ------------------------------------------------------- what the bytes are

  /** Big-endian bytes are the number's digits in base 256. */
  lemma {:induction false} BigEndianIsRadix(n: nat, k: nat)
    requires n < Pow(256, k)
    ensures FromDigits(BigEndian(n, k), 256) == n
  {
    if k > 0 {
      BigEndianIsRadix(n / 256, k - 1);
      FromDigitsSnoc(BigEndian(n / 256, k - 1), n % 256, 256);
    }
  }

  lemma SmallWord(n: nat)
    requires n < 256
    ensures Word(n) == [0, 0, 0, n]
  {
    assert BigEndian(n / 256, 3) == [0, 0, 0];
  }

  lemma Starts(v: ScVal, tag: byte)
    requires Tag(v) == tag
    ensures Encode(v)[..4] == [0, 0, 0, tag]
  {
    SmallWord(tag);
  }

  /** A value starts with its type's discriminant, in the ledger's order of types. */
  lemma Discriminant(v: ScVal)
    ensures Encode(v)[..3] == [0, 0, 0]
    ensures v.Bool? ==> Encode(v)[3] == 0
    ensures v.Void? ==> Encode(v)[3] == 1
    ensures v.Error? ==> Encode(v)[3] == 2
    ensures v.U32? ==> Encode(v)[3] == 3
    ensures v.I32? ==> Encode(v)[3] == 4
    ensures v.U64? ==> Encode(v)[3] == 5
    ensures v.I64? ==> Encode(v)[3] == 6
    ensures v.Timepoint? ==> Encode(v)[3] == 7
    ensures v.Duration? ==> Encode(v)[3] == 8
    ensures v.U128? ==> Encode(v)[3] == 9
    ensures v.I128? ==> Encode(v)[3] == 10
    ensures v.U256? ==> Encode(v)[3] == 11
    ensures v.I256? ==> Encode(v)[3] == 12
    ensures v.Bytes? ==> Encode(v)[3] == 13
    ensures v.String? ==> Encode(v)[3] == 14
    ensures v.Symbol? ==> Encode(v)[3] == 15
    ensures v.Vec? ==> Encode(v)[3] == 16
    ensures v.Map? ==> Encode(v)[3] == 17
    ensures v.Addr? ==> Encode(v)[3] == 18
  {
    Starts(v, Tag(v));
  }

  /** An i128 is written in 16 bytes, a negative one as its two's complement. */
  lemma AmountBytes(n: i128)
    ensures var bytes := Encode(I128(n))[4..];
            |bytes| == 16
            && FromDigits(bytes, 256) == if n < 0 then n + 0x1_0000_0000_0000_0000_0000_0000_0000_0000 else n
  {
    Widths();
    BigEndianIsRadix(Number(I128(n)), 16);
    assert Encode(I128(n))[4..] == BigEndian(Number(I128(n)), 16);
  }

  lemma ItemsCons(v: ScVal, rest: seq<ScVal>)
    ensures EncodeItems([v] + rest) == Encode(v) + EncodeItems(rest)
  {
    assert ([v] + rest)[1..] == rest;
  }

  /** The payload is the target, the function, the arguments and the nonce, in this order. */
  lemma PayloadParts(to: Address, fn: seq<byte>, args: seq<ScVal>, nonce: u64)
    ensures SigningPayload(to, fn, args, nonce)
         == Encode(Addr(to)) + (Encode(Symbol(fn)) + (Encode(Vec(args)) + Encode(U64(nonce))))
  {
    var a, b, c, d := Addr(to), Symbol(fn), Vec(args), U64(nonce);
    assert [a, b, c, d] == [a] + ([b] + ([c] + ([d] + [])));
    ItemsCons(a, [b] + ([c] + ([d] + [])));
    ItemsCons(b, [c] + ([d] + []));
    ItemsCons(c, [d] + []);
    ItemsCons(d, []);
  }

  lemma ContractBytes(id: Bytes32)
    ensures Encode(Addr(Contract(id))) == [0, 0, 0, 18] + [0, 0, 0, 1] + id
  {
    SmallWord(18);
    SmallWord(1);
  }

  lemma PayBytes()
    ensures Encode(Symbol([112, 97, 121])) == [0, 0, 0, 15] + ([0, 0, 0, 3] + [112, 97, 121] + [0])
  {
    SmallWord(15);
    OpaqueThree([112, 97, 121]);
  }

  lemma OpaqueThree(bs: seq<byte>)
    requires |bs| == 3
    ensures Opaque(bs) == [0, 0, 0, 3] + bs + [0]
  {
    SmallWord(3);
    assert seq((4 - |bs| % 4) % 4, i => 0) == [0];
  }

  lemma SmallBigEndian(n: nat)
    requires n < 256
    ensures BigEndian(n, 8) == [0, 0, 0, 0, 0, 0, 0, n]
    ensures BigEndian(n, 16) == [0, 0, 0, 0, 0, 0, 0, 0, 0, 0, 0, 0, 0, 0, 0, n]
  {
    assert BigEndian(0, 7) == [0, 0, 0, 0, 0, 0, 0];
    assert BigEndian(0, 15) == [0, 0, 0, 0, 0, 0, 0, 0, 0, 0, 0, 0, 0, 0, 0];
  }

  lemma FiveBytes()
    ensures Encode(I128(5)) == [0, 0, 0, 10] + [0, 0, 0, 0, 0, 0, 0, 0, 0, 0, 0, 0, 0, 0, 0, 5]
  {
    SmallWord(10);
    SmallBigEndian(5);
  }

  lemma OneItemBytes(v: ScVal)
    ensures Encode(Vec([v])) == [0, 0, 0, 16] + ([0, 0, 0, 1] + ([0, 0, 0, 1] + Encode(v)))
  {
    SmallWord(16);
    SmallWord(1);
    ItemsCons(v, []);
    assert [v] + [] == [v] && Encode(v) + [] == Encode(v);
  }

  lemma SevenBytes()
    ensures Encode(U64(7)) == [0, 0, 0, 5] + [0, 0, 0, 0, 0, 0, 0, 7]
  {
    SmallWord(5);
    SmallBigEndian(7);
  }

  /** For instance, contract `id`, "pay", one i128 of 5, nonce 7. */
  lemma PayloadBytes(id: Bytes32)
    ensures SigningPayload(Contract(id), [112, 97, 121], [I128(5)], 7)
         == ([0, 0, 0, 18] + [0, 0, 0, 1] + id)
            + (([0, 0, 0, 15] + ([0, 0, 0, 3] + [112, 97, 121] + [0]))
            + (([0, 0, 0, 16] + ([0, 0, 0, 1] + ([0, 0, 0, 1]
                + ([0, 0, 0, 10] + [0, 0, 0, 0, 0, 0, 0, 0, 0, 0, 0, 0, 0, 0, 0, 5]))))
            + ([0, 0, 0, 5] + [0, 0, 0, 0, 0, 0, 0, 7])))
  {
    PayloadParts(Contract(id), [112, 97, 121], [I128(5)], 7);
    ContractBytes(id);
    PayBytes();
    FiveBytes();
    OneItemBytes(I128(5));
    SevenBytes();
  }
}
