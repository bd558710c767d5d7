/** BIP32 derivation paths (packages/crypto/src/bip32.ts); the path levels are
    those of BIP-44, section "Path levels". */
module Bip32 {
  import opened Prelude
  import opened DecimalText

  const STELLAR_COIN_TYPE: nat := 148
  const BIP44_PURPOSE: nat := 44
  const MAX_BIP32_INDEX: nat := 0x7FFF_FFFF

  datatype Segment = Segment(index: nat, hardened: bool)

  datatype PathError = Blank | NoMaster | EmptySegment | BadNumber | IndexTooLarge

  // ------------------------------------------------------------------ parsing

  /** `split('/')`. */
  function Split(s: string): (parts: seq<string>)
    ensures parts != []
  {
    var k := Find(s, '/');
    if k == |s| then [s] else [s[..k]] + Split(s[k + 1..])
  }

  function Join(parts: seq<string>): string
    requires parts != []
  {
    if |parts| == 1 then parts[0] else parts[0] + "/" + Join(parts[1..])
  }

  function ParseSegment(part: string): Result<Segment, PathError> {
    if part == "" then Err(EmptySegment)
    else
      var hardened := part[|part| - 1] == '\'' || part[|part| - 1] == 'h';
      var digits := if hardened then part[..|part| - 1] else part;
      if digits == "" || !AllDigits(digits) then Err(BadNumber)
      else if NumberOf(digits) > MAX_BIP32_INDEX then Err(IndexTooLarge)
      else Ok(Segment(NumberOf(digits), hardened))
  }

  /** The segments of a list of parts, or the error of the first bad one. */
  function ParseSegments(parts: seq<string>): (r: Result<seq<Segment>, PathError>)
    ensures r.Ok? ==> |r.value| == |parts|
  {
    if parts == [] then Ok([])
    else
      var first := ParseSegment(parts[0]);
      if first.Err? then Err(first.error)
      else
        var rest := ParseSegments(parts[1..]);
        if rest.Err? then Err(rest.error) else Ok([first.value] + rest.value)
  }

  function Parsed(path: string): Result<seq<Segment>, PathError> {
    var trimmed := Trim(path);
    if trimmed == "" then Err(Blank)
    else
      var parts := Split(trimmed);
      if parts[0] != "m" then Err(NoMaster) else ParseSegments(parts[1..])
  }

  /** Parsing one more part. */
  lemma {:induction false} ParseSnoc(parts: seq<string>, part: string)
    ensures var front, last := ParseSegments(parts), ParseSegment(part);
            ParseSegments(parts + [part]) ==
              if front.Err? then front
              else if last.Err? then Err(last.error)
              else Ok(front.value + [last.value])
  {
    if parts == [] {
      assert parts + [part] == [part] && [part][1..] == [];
      if ParseSegment(part).Ok? {
        var v := ParseSegment(part).value;
        assert [v] + [] == [] + [v];
      }
    } else {
      assert (parts + [part])[1..] == parts[1..] + [part];
      ParseSnoc(parts[1..], part);
      var first, rest, last := ParseSegment(parts[0]), ParseSegments(parts[1..]), ParseSegment(part);
      if first.Ok? && rest.Ok? && last.Ok? {
        assert [first.value] + (rest.value + [last.value]) == ([first.value] + rest.value) + [last.value];
      }
    }
  }

  /** The first error is the result. */
  lemma {:induction false} ParseStops(parts: seq<string>, more: seq<string>)
    requires ParseSegments(parts).Err?
    ensures ParseSegments(parts + more) == ParseSegments(parts)
  {
    assert (parts + more)[1..] == parts[1..] + more;
    if ParseSegment(parts[0]).Ok? {
      ParseStops(parts[1..], more);
    }
  }

  method ParseBIP32Path(path: string) returns (r: Result<seq<Segment>, PathError>)
    ensures r == Parsed(path)
  {
    var trimmed := Trim(path);
    if trimmed == "" {
      return Err(Blank);
    }
    var parts := Split(trimmed);
    if parts[0] != "m" {
      return Err(NoMaster);
    }
    r := ParseParts(parts[1..]);
  }

  method ParseParts(parts: seq<string>) returns (r: Result<seq<Segment>, PathError>)
    ensures r == ParseSegments(parts)
  {
    var segments: seq<Segment> := [];
    for i := 0 to |parts|
      invariant ParseSegments(parts[..i]) == Ok(segments)
    {
      assert parts[..i + 1] == parts[..i] + [parts[i]];
      ParseSnoc(parts[..i], parts[i]);
      var segment := ParseSegment(parts[i]);
      if segment.Err? {
        assert parts == parts[..i + 1] + parts[i + 1..];
        ParseStops(parts[..i + 1], parts[i + 1..]);
        return Err(segment.error);
      }
      segments := segments + [segment.value];
    }
    assert parts[..|parts|] == parts;
    return Ok(segments);
  }

  // --------------------------------------------------------------- formatting

  function SegmentText(s: Segment): string {
    NumberText(s.index) + if s.hardened then "'" else ""
  }

  function SegmentTexts(segments: seq<Segment>): (parts: seq<string>)
    ensures |parts| == |segments|
  {
    seq(|segments|, i requires 0 <= i < |segments| => SegmentText(segments[i]))
  }

  function FormatBIP32Path(segments: seq<Segment>): string {
    if segments == [] then "m" else "m/" + Join(SegmentTexts(segments))
  }

  ghost predicate Indexed(segments: seq<Segment>) {
    forall i :: 0 <= i < |segments| ==> segments[i].index <= MAX_BIP32_INDEX
  }

  lemma ParseDigitText(digits: string, hardened: bool)
    requires digits != "" && AllDigits(digits) && NumberOf(digits) <= MAX_BIP32_INDEX
    ensures ParseSegment(digits + if hardened then "'" else "") == Ok(Segment(NumberOf(digits), hardened))
  {
    var text := digits + if hardened then "'" else "";
    assert IsDigit(digits[|digits| - 1]);
    if hardened {
      assert text[..|text| - 1] == digits;
    } else {
      assert text == digits;
    }
  }

  lemma DigitTextPlain(digits: string, hardened: bool)
    requires digits != "" && AllDigits(digits)
    ensures var text := digits + if hardened then "'" else "";
            Find(text, '/') == |text| && !IsWhite(text[|text| - 1])
  {
    var text := digits + if hardened then "'" else "";
    assert IsDigit(digits[|digits| - 1]);
    FindFirst(text, '/', |text|);
  }

  lemma ParseSegmentText(s: Segment)
    requires s.index <= MAX_BIP32_INDEX
    ensures ParseSegment(SegmentText(s)) == Ok(s)
    ensures Find(SegmentText(s), '/') == |SegmentText(s)|
    ensures SegmentText(s) != "" && !IsWhite(SegmentText(s)[|SegmentText(s)| - 1])
  {
    NumberTextValue(s.index);
    ParseDigitText(NumberText(s.index), s.hardened);
    DigitTextPlain(NumberText(s.index), s.hardened);
  }

  lemma SegmentTextsSnoc(front: seq<Segment>, last: Segment)
    ensures SegmentTexts(front + [last]) == SegmentTexts(front) + [SegmentText(last)]
  {
  }

  lemma {:induction false} ParseSegmentTexts(segments: seq<Segment>)
    requires Indexed(segments)
    ensures ParseSegments(SegmentTexts(segments)) == Ok(segments)
  {
    if segments == [] {
      assert SegmentTexts(segments) == [];
    } else {
      var front, last := segments[..|segments| - 1], segments[|segments| - 1];
      ParseSegmentTexts(front);
      ParseSegmentText(last);
      assert segments == front + [last];
      SegmentTextsSnoc(front, last);
      ParseSnoc(SegmentTexts(front), SegmentText(last));
    }
  }

  ghost predicate NoSlashes(parts: seq<string>) {
    forall i :: 0 <= i < |parts| ==> Find(parts[i], '/') == |parts[i]|
  }

  lemma {:induction false} SplitJoin(parts: seq<string>)
    requires parts != [] && NoSlashes(parts)
    ensures Split(Join(parts)) == parts
  {
    if |parts| > 1 {
      SplitJoin(parts[1..]);
      SplitFirst(parts[0], Join(parts[1..]));
      assert parts == [parts[0]] + parts[1..];
    } else {
      assert parts == [parts[0]];
    }
  }

  lemma SplitFirst(first: string, rest: string)
    requires Find(first, '/') == |first|
    ensures Split(first + "/" + rest) == [first] + Split(rest)
  {
    var s := first + "/" + rest;
    FindFirst(s, '/', |first|);
    assert s[..|first|] == first && s[|first| + 1..] == rest;
  }

  lemma {:induction false} JoinEnds(parts: seq<string>)
    requires parts != [] && parts[|parts| - 1] != ""
    ensures Join(parts) != ""
    ensures Join(parts)[|Join(parts)| - 1] == parts[|parts| - 1][|parts[|parts| - 1]| - 1]
  {
    if |parts| > 1 {
      JoinEnds(parts[1..]);
    }
  }

  lemma ParsedJoin(parts: seq<string>)
    requires parts != [] && NoSlashes(parts)
    requires var last := parts[|parts| - 1]; last != "" && !IsWhite(last[|last| - 1])
    ensures Parsed("m/" + Join(parts)) == ParseSegments(parts)
  {
    var path := "m/" + Join(parts);
    JoinEnds(parts);
    assert path[|path| - 1] == Join(parts)[|Join(parts)| - 1];
    assert Trim(path) == path;
    assert path == "m" + "/" + Join(parts);
    FindFirst("m", '/', 1);
    SplitFirst("m", Join(parts));
    SplitJoin(parts);
  }

  lemma SegmentTextsFacts(segments: seq<Segment>)
    requires Indexed(segments)
    ensures NoSlashes(SegmentTexts(segments))
    ensures segments != [] ==>
              var last := SegmentTexts(segments)[|segments| - 1]; last != "" && !IsWhite(last[|last| - 1])
  {
    forall i | 0 <= i < |segments|
      ensures var t := SegmentTexts(segments)[i]; Find(t, '/') == |t| && t != "" && !IsWhite(t[|t| - 1])
    {
      ParseSegmentText(segments[i]);
    }
  }

  /** Parsing a formatted path gives the segments back. */
  lemma ParseFormat(segments: seq<Segment>)
    requires Indexed(segments)
    ensures Parsed(FormatBIP32Path(segments)) == Ok(segments)
  {
    if segments == [] {
      FindFirst("m", '/', 1);
      assert Trim("m") == "m" && ["m"][1..] == [];
    } else {
      SegmentTextsFacts(segments);
      ParsedJoin(SegmentTexts(segments));
      ParseSegmentTexts(segments);
    }
  }

  lemma {:induction false} ParsedIndexed(parts: seq<string>)
    requires ParseSegments(parts).Ok?
    ensures Indexed(ParseSegments(parts).value)
  {
    if parts != [] {
      ParsedIndexed(parts[1..]);
    }
  }

  /** Formatting a parsed path is a canonical form: it parses to the same segments,
      and two paths share it exactly when they parse alike. */
  lemma CanonicalForm(p: string, q: string)
    requires Parsed(p).Ok? && Parsed(q).Ok?
    ensures Parsed(FormatBIP32Path(Parsed(p).value)) == Parsed(p)
    ensures FormatBIP32Path(Parsed(p).value) == FormatBIP32Path(Parsed(q).value) <==> Parsed(p) == Parsed(q)
  {
    ParsedIndexed(Split(Trim(p))[1..]);
    ParsedIndexed(Split(Trim(q))[1..]);
    ParseFormat(Parsed(p).value);
    ParseFormat(Parsed(q).value);
  }

  // ------------------------------------------------------- the Stellar layout

  predicate IsStandardStellarPath(path: string) {
    var r := Parsed(path);
    && r.Ok? && |r.value| >= 3
    && r.value[0] == Segment(BIP44_PURPOSE, true)
    && r.value[1] == Segment(STELLAR_COIN_TYPE, true)
    && r.value[2].hardened
    && |r.value| - 3 <= 2
  }

  function DeriveMainAccountPath(accountIndex: int): Option<string> {
    if accountIndex < 0 || accountIndex > MAX_BIP32_INDEX then None
    else Some("m/44'/148'/" + NumberText(accountIndex) + "'")
  }

  function DeriveSessionKeyPath(sessionIndex: int, accountIndex: int): Option<string> {
    if sessionIndex < 0 || sessionIndex > MAX_BIP32_INDEX then None
    else if accountIndex < 0 || accountIndex > MAX_BIP32_INDEX then None
    else Some("m/44'/148'/" + NumberText(accountIndex) + "'/2'/" + NumberText(sessionIndex) + "'")
  }

  function MainSegments(account: nat): seq<Segment> {
    [Segment(BIP44_PURPOSE, true), Segment(STELLAR_COIN_TYPE, true), Segment(account, true)]
  }

  function SessionSegments(session: nat, account: nat): seq<Segment> {
    MainSegments(account) + [Segment(2, true), Segment(session, true)]
  }

  lemma FixedTexts()
    ensures SegmentText(Segment(BIP44_PURPOSE, true)) == "44'"
    ensures SegmentText(Segment(STELLAR_COIN_TYPE, true)) == "148'"
    ensures SegmentText(Segment(2, true)) == "2'"
  {
    TextOf2();
    TextOf44();
    TextOf148();
  }

  lemma TextOf2()
    ensures NumberText(2) == "2"
  {
    assert DigitsOf("2") == [2] && [2][..0] == [];
    NumberTextUnique(2, "2");
  }

  lemma TextOf44()
    ensures NumberText(44) == "44"
  {
    assert DigitsOf("44") == [4, 4] && [4, 4][..1] == [4] && [4][..0] == [];
    NumberTextUnique(44, "44");
  }

  lemma TextOf148()
    ensures NumberText(148) == "148"
  {
    assert DigitsOf("148") == [1, 4, 8] && [1, 4, 8][..2] == [1, 4] && [1, 4][..1] == [1] && [1][..0] == [];
    NumberTextUnique(148, "148");
  }

  lemma Join3(a: string, b: string, c: string)
    ensures Join([a, b, c]) == a + "/" + b + "/" + c
  {
    assert [a, b, c][1..] == [b, c] && [b, c][1..] == [c];
    assert Join([b, c]) == b + "/" + c;
  }

  lemma Join5(a: string, b: string, c: string, d: string, e: string)
    ensures Join([a, b, c, d, e]) == a + "/" + b + "/" + (c + "/" + d + "/" + e)
  {
    assert [a, b, c, d, e][1..] == [b, c, d, e] && [b, c, d, e][1..] == [c, d, e];
    Join3(c, d, e);
    assert Join([b, c, d, e]) == b + "/" + (c + "/" + d + "/" + e);
  }

  lemma TextsOf3(a: Segment, b: Segment, c: Segment)
    ensures SegmentTexts([a, b, c]) == [SegmentText(a), SegmentText(b), SegmentText(c)]
  {
  }

  lemma TextsOf5(a: Segment, b: Segment, c: Segment, d: Segment, e: Segment)
    ensures SegmentTexts([a, b, c] + [d, e])
         == [SegmentText(a), SegmentText(b), SegmentText(c), SegmentText(d), SegmentText(e)]
  {
    assert [a, b, c] + [d, e] == [a, b, c, d, e];
  }

  lemma MainTexts(account: nat)
    ensures SegmentTexts(MainSegments(account)) == ["44'", "148'", SegmentText(Segment(account, true))]
  {
    FixedTexts();
    TextsOf3(Segment(BIP44_PURPOSE, true), Segment(STELLAR_COIN_TYPE, true), Segment(account, true));
  }

  lemma SessionTexts(session: nat, account: nat)
    ensures SegmentTexts(SessionSegments(session, account))
         == ["44'", "148'", SegmentText(Segment(account, true)), "2'", SegmentText(Segment(session, true))]
  {
    FixedTexts();
    TextsOf5(Segment(BIP44_PURPOSE, true), Segment(STELLAR_COIN_TYPE, true), Segment(account, true),
             Segment(2, true), Segment(session, true));
  }

  lemma MainTemplate(a: string)
    ensures "m/44'/148'/" + a + "'" == "m/" + ("44'" + "/" + "148'" + "/" + (a + "'"))
  {
  }

  lemma SessionTemplate(a: string, s: string)
    ensures "m/44'/148'/" + a + "'/2'/" + s + "'"
         == "m/" + ("44'" + "/" + "148'" + "/" + ((a + "'") + "/" + "2'" + "/" + (s + "'")))
  {
  }

  /** Each template is the formatted path of its segments. */
  lemma MainPath(account: nat)
    ensures "m/44'/148'/" + NumberText(account) + "'" == FormatBIP32Path(MainSegments(account))
  {
    MainTexts(account);
    Join3("44'", "148'", SegmentText(Segment(account, true)));
    MainTemplate(NumberText(account));
  }

  lemma SessionPath(session: nat, account: nat)
    ensures "m/44'/148'/" + NumberText(account) + "'/2'/" + NumberText(session) + "'"
         == FormatBIP32Path(SessionSegments(session, account))
  {
    SessionTexts(session, account);
    Join5("44'", "148'", SegmentText(Segment(account, true)), "2'", SegmentText(Segment(session, true)));
    SessionTemplate(NumberText(account), NumberText(session));
  }

  lemma MainBuilt(account: int)
    ensures DeriveMainAccountPath(account) ==
      if 0 <= account <= MAX_BIP32_INDEX then Some(FormatBIP32Path(MainSegments(account))) else None
  {
    if 0 <= account {
      MainPath(account);
    }
  }

  lemma SessionBuilt(session: int, account: int)
    ensures DeriveSessionKeyPath(session, account) ==
      if 0 <= session <= MAX_BIP32_INDEX && 0 <= account <= MAX_BIP32_INDEX
      then Some(FormatBIP32Path(SessionSegments(session, account))) else None
  {
    if 0 <= session && 0 <= account {
      SessionPath(session, account);
    }
  }

  /** Valid segment lists with the same formatted path are equal. */
  lemma FormatInjective(a: seq<Segment>, b: seq<Segment>)
    requires Indexed(a) && Indexed(b)
    ensures FormatBIP32Path(a) == FormatBIP32Path(b) ==> a == b
  {
    ParseFormat(a);
    ParseFormat(b);
  }

  lemma StandardFormat(segments: seq<Segment>)
    requires Indexed(segments) && 3 <= |segments| <= 5
    requires segments[..3] == MainSegments(segments[2].index)
    ensures IsStandardStellarPath(FormatBIP32Path(segments))
  {
    ParseFormat(segments);
    assert segments[..3][0] == segments[0] && segments[..3][1] == segments[1] && segments[..3][2] == segments[2];
  }

  /** The account builder accepts exactly the BIP32 indices; its paths are standard,
      and parse to the three segments of the account. */
  lemma MainIsStandard(account: int)
    ensures DeriveMainAccountPath(account).Some? <==> 0 <= account <= MAX_BIP32_INDEX
    ensures DeriveMainAccountPath(account).Some? ==>
              && IsStandardStellarPath(DeriveMainAccountPath(account).value)
              && Parsed(DeriveMainAccountPath(account).value) == Ok(MainSegments(account))
  {
    MainBuilt(account);
    if 0 <= account <= MAX_BIP32_INDEX {
      StandardFormat(MainSegments(account));
      ParseFormat(MainSegments(account));
    }
  }

  lemma SessionFormatStandard(session: nat, account: nat)
    requires session <= MAX_BIP32_INDEX && account <= MAX_BIP32_INDEX
    ensures IsStandardStellarPath(FormatBIP32Path(SessionSegments(session, account)))
    ensures Parsed(FormatBIP32Path(SessionSegments(session, account))) == Ok(SessionSegments(session, account))
  {
    StandardFormat(SessionSegments(session, account));
    ParseFormat(SessionSegments(session, account));
  }

  /** Likewise the session builder, with its five segments. */
  lemma SessionIsStandard(session: int, account: int)
    ensures DeriveSessionKeyPath(session, account).Some?
        <==> 0 <= session <= MAX_BIP32_INDEX && 0 <= account <= MAX_BIP32_INDEX
    ensures DeriveSessionKeyPath(session, account).Some? ==>
              && IsStandardStellarPath(DeriveSessionKeyPath(session, account).value)
              && Parsed(DeriveSessionKeyPath(session, account).value) == Ok(SessionSegments(session, account))
  {
    SessionBuilt(session, account);
    if 0 <= session <= MAX_BIP32_INDEX && 0 <= account <= MAX_BIP32_INDEX {
      SessionFormatStandard(session, account);
    }
  }

  /** Distinct indices give distinct account paths. */
  lemma MainInjective(a: int, a': int)
    requires DeriveMainAccountPath(a).Some? && DeriveMainAccountPath(a) == DeriveMainAccountPath(a')
    ensures a == a'
  {
    MainBuilt(a);
    MainBuilt(a');
    FormatInjective(MainSegments(a), MainSegments(a'));
    assert MainSegments(a)[2] == MainSegments(a')[2];
  }

  lemma SessionFormatInjective(s: nat, a: nat, s': nat, a': nat)
    requires s <= MAX_BIP32_INDEX && a <= MAX_BIP32_INDEX && s' <= MAX_BIP32_INDEX && a' <= MAX_BIP32_INDEX
    requires FormatBIP32Path(SessionSegments(s, a)) == FormatBIP32Path(SessionSegments(s', a'))
    ensures s == s' && a == a'
  {
    FormatInjective(SessionSegments(s, a), SessionSegments(s', a'));
    assert SessionSegments(s, a)[2] == SessionSegments(s', a')[2];
    assert SessionSegments(s, a)[4] == SessionSegments(s', a')[4];
  }

  /** And distinct session paths. */
  lemma SessionInjective(s: int, a: int, s': int, a': int)
    requires DeriveSessionKeyPath(s, a).Some? && DeriveSessionKeyPath(s, a) == DeriveSessionKeyPath(s', a')
    ensures s == s' && a == a'
  {
    SessionBuilt(s, a);
    SessionBuilt(s', a');
    SessionFormatInjective(s, a, s', a');
  }

  lemma FormatsDiffer(account: nat, s: nat, a: nat)
    requires account <= MAX_BIP32_INDEX && s <= MAX_BIP32_INDEX && a <= MAX_BIP32_INDEX
    ensures FormatBIP32Path(MainSegments(account)) != FormatBIP32Path(SessionSegments(s, a))
  {
    var short, long := MainSegments(account), SessionSegments(s, a);
    assert |short| != |long|;
    FormatInjective(short, long);
  }

  /** No account path is a session path. */
  lemma BuildersNeverCollide(account: int, s: int, a: int)
    requires DeriveMainAccountPath(account).Some?
    ensures DeriveMainAccountPath(account) != DeriveSessionKeyPath(s, a)
  {
    MainBuilt(account);
    SessionBuilt(s, a);
    if 0 <= s <= MAX_BIP32_INDEX && 0 <= a <= MAX_BIP32_INDEX {
      FormatsDiffer(account, s, a);
    }
  }

  ghost predicate Spells(part: string, s: Segment, digits: string) {
    && digits != "" && AllDigits(digits) && NumberOf(digits) == s.index
    && if s.hardened then part == digits + "'" || part == digits + "h" else part == digits
  }

  /** A segment is digits, with a mark behind them when hardened, of a valid index. */
  lemma SegmentIff(part: string, s: Segment)
    ensures ParseSegment(part) == Ok(s) <==> s.index <= 0x7FFF_FFFF && exists digits :: Spells(part, s, digits)
  {
    if ParseSegment(part) == Ok(s) {
      var digits := if s.hardened then part[..|part| - 1] else part;
      assert s.hardened ==> part == digits + [part[|part| - 1]];
      assert Spells(part, s, digits);
    }
    if digits :| Spells(part, s, digits) {
      assert IsDigit(digits[|digits| - 1]);
      assert s.hardened ==> part[..|part| - 1] == digits;
    }
  }

  /** Parts parse exactly when each does, to the segments in order. */
  lemma {:induction false} PartsIff(parts: seq<string>, segments: seq<Segment>)
    ensures ParseSegments(parts) == Ok(segments) <==>
            |segments| == |parts| && forall i :: 0 <= i < |parts| ==> ParseSegment(parts[i]) == Ok(segments[i])
  {
    if parts != [] && segments != [] {
      PartsIff(parts[1..], segments[1..]);
      if ParseSegments(parts) == Ok(segments) {
        assert segments[1..] == ParseSegments(parts[1..]).value;
        forall i | 0 <= i < |parts| ensures ParseSegment(parts[i]) == Ok(segments[i]) {
          assert i > 0 ==> parts[i] == parts[1..][i - 1] && segments[i] == segments[1..][i - 1];
        }
      }
      if |segments| == |parts| && forall i :: 0 <= i < |parts| ==> ParseSegment(parts[i]) == Ok(segments[i]) {
        forall i | 0 <= i < |parts[1..]| ensures ParseSegment(parts[1..][i]) == Ok(segments[1..][i]) {
          assert ParseSegment(parts[i + 1]) == Ok(segments[i + 1]);
        }
        assert segments == [segments[0]] + segments[1..];
      }
    }
  }

  /** Standard are exactly the paths 44' / 148' / hardened account, with at most two more
      levels. */
  lemma StandardIff(segments: seq<Segment>)
    requires Indexed(segments)
    ensures IsStandardStellarPath(FormatBIP32Path(segments)) <==>
            && 3 <= |segments| <= 5 && segments[0] == Segment(44, true) && segments[1] == Segment(148, true)
            && segments[2].hardened
  {
    ParseFormat(segments);
  }

  /** Why a path is refused before its segments are read. */
  lemma PathRefusals(path: string)
    ensures Trim(path) == "" ==> Parsed(path) == Err(Blank)
    ensures Trim(path) != "" && Trim(path)[0] != 'm' ==> Parsed(path) == Err(NoMaster)
  {
  }

  /** Why a segment is. */
  lemma SegmentRefusals(part: string)
    ensures ParseSegment("") == Err(EmptySegment)
    ensures part != "" && AllDigits(part) && NumberOf(part) > 0x7FFF_FFFF ==> ParseSegment(part) == Err(IndexTooLarge)
    ensures part != "" && !IsDigit(part[0]) ==> ParseSegment(part) == Err(BadNumber)
  {
    if part != "" && AllDigits(part) {
      assert IsDigit(part[|part| - 1]);
    }
    if part != "" && !IsDigit(part[0]) {
      assert |part| > 1 ==> part[..|part| - 1][0] == part[0];
    }
  }
}
