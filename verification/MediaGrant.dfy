/** Media playback grants: the canonical query, the signing input, and verification. */
module MediaGrant {
  import opened Wrappers
  import opened Text
  import Decimal
  import Base64Url

  const MODE := "playback"
  const MAX_GRANT_LIFETIME_SECONDS := 3600
  const MAX_CLOCK_SKEW_SECONDS := 60
  const MAX_KEY_ID_BYTES := 64
  const MAX_PATH_BYTES := 512
  const MAX_EXPIRES_DIGITS := 10
  const SIGNATURE_BYTES := 32
  const SIGNATURE_BASE64URL_LENGTH := 43
  const QUERY_NAMES := ["expires", "keyId", "mode", "signature"]
  const QUERY_SEPARATOR_BYTES := |QUERY_NAMES| * 2 - 1
  const MAX_QUERY_BYTES := |QUERY_NAMES[0] + QUERY_NAMES[1] + QUERY_NAMES[2] + QUERY_NAMES[3]| + QUERY_SEPARATOR_BYTES
                           + MAX_EXPIRES_DIGITS + MAX_KEY_ID_BYTES + |MODE| + SIGNATURE_BASE64URL_LENGTH
  const MAX_SAFE_INTEGER := 0x1F_FFFF_FFFF_FFFF

  // ----- text -----

  /** The bytes that UTF-8 needs for the text. */
  function ByteLength(s: string): nat {
    if s == [] then 0
    else
      (if s[0] < '\U{80}' then 1 else if s[0] < '\U{800}' then 2 else if s[0] < '\U{10000}' then 3 else 4)
      + ByteLength(s[1..])
  }

  predicate IsAscii(s: string) {
    forall i :: 0 <= i < |s| ==> s[i] < '\U{80}'
  }

  lemma {:induction false} AsciiByteLength(s: string)
    requires IsAscii(s)
    ensures ByteLength(s) == |s|
  {
    if s != [] {
      AsciiByteLength(s[1..]);
    }
  }

  function DigitText(digits: seq<Decimal.Digit>): (r: string)
    ensures |r| == |digits| && forall i :: 0 <= i < |r| ==> r[i] == '0' + (digits[i] as char)
  {
    seq(|digits|, i requires 0 <= i < |digits| => '0' + (digits[i] as char))
  }

  function DecimalText(n: nat): string {
    DigitText(Decimal.Digits(n))
  }

  predicate AllDigits(text: string) {
    forall i :: 0 <= i < |text| ==> IsAsciiDigit(text[i])
  }

  function TextDigits(text: string): (r: seq<Decimal.Digit>)
    requires AllDigits(text)
    ensures |r| == |text| && forall i :: 0 <= i < |r| ==> r[i] == (text[i] - '0') as int
  {
    seq(|text|, i requires 0 <= i < |text| => (text[i] - '0') as int)
  }

  /** Digits without a leading zero, at most ten. */
  predicate IsExpires(text: string) {
    text != [] && |text| <= MAX_EXPIRES_DIGITS && AllDigits(text) && text[0] != '0'
  }

  function ExpiresValue(text: string): nat
    requires IsExpires(text)
  {
    Decimal.Value(TextDigits(text))
  }

  predicate ValidKeyId(keyId: string) {
    && |keyId| <= MAX_KEY_ID_BYTES
    && keyId != [] && IsAsciiAlphanumeric(keyId[0]) && forall i :: 0 <= i < |keyId| ==> Base64Url.IsSymbol(keyId[i])
  }

  predicate IsSegment(segment: string) {
    && segment != [] && Base64Url.IsSymbol(segment[0])
    && forall i :: 0 <= i < |segment| ==> Base64Url.IsSymbol(segment[i]) || segment[i] == '.'
  }

  predicate ValidMediaPath(path: string) {
    && path != [] && path[0] == '/'
    && ByteLength(path) <= MAX_PATH_BYTES
    && var segments := Split(path[1..], '/');
       forall i :: 0 <= i < |segments| ==> IsSegment(segments[i])
  }

  /** A letter, a digit, `-` or `_`; a path may hold dots besides. */
  predicate IsWordCharacter(c: char) {
    c in UPPER || c in LOWER || c in DIGITS || c in "-_"
  }

  lemma SymbolsAre(c: char)
    ensures Base64Url.IsSymbol(c) <==> IsWordCharacter(c)
  {
    InRanges(c);
    hide UPPER, LOWER, DIGITS;
  }

  /** A slash has a word character behind it; anything else is a word character or a dot. */
  predicate FitsAt(text: string, i: nat)
    requires i < |text|
  {
    if text[i] == '/' then i + 1 < |text| && IsWordCharacter(text[i + 1])
    else IsWordCharacter(text[i]) || text[i] == '.'
  }

  /** Parts that start with a word character and go on with word characters and dots, with one slash between them. */
  ghost predicate HasParts(text: string) {
    text != [] && IsWordCharacter(text[0]) && forall i :: 0 <= i < |text| ==> FitsAt(text, i)
  }

  lemma SegmentMeans(segment: string)
    requires '/' !in segment
    ensures IsSegment(segment) <==> HasParts(segment)
  {
    hide UPPER, LOWER, DIGITS, Base64Url.IsSymbol, IsWordCharacter;
    forall c: char ensures Base64Url.IsSymbol(c) <==> IsWordCharacter(c) {
      SymbolsAre(c);
    }
    forall i | 0 <= i < |segment|
      ensures FitsAt(segment, i) <==> Base64Url.IsSymbol(segment[i]) || segment[i] == '.' {
      assert segment[i] in segment;
    }
    hide FitsAt;
  }

  lemma SlashIsNoWord()
    ensures !IsWordCharacter('/')
  {
    SymbolsAre('/');
  }

  lemma PartsJoin(first: string, rest: string)
    requires '/' !in first
    ensures HasParts(first + (['/'] + rest)) <==> HasParts(first) && HasParts(rest)
  {
    var all := first + (['/'] + rest);
    SlashIsNoWord();
    hide IsWordCharacter;
    forall i | 0 <= i < |first| ensures FitsAt(all, i) <==> FitsAt(first, i) {
      assert all[i] == first[i] && first[i] in first;
    }
    assert FitsAt(all, |first|) <==> rest != [] && IsWordCharacter(rest[0]);
    forall i | 0 <= i < |rest| ensures FitsAt(all, |first| + 1 + i) <==> FitsAt(rest, i) {
      assert all[|first| + 1 + i] == rest[i];
    }
    hide FitsAt;
    forall i | |first| < i < |all| ensures FitsAt(all, i) <==> FitsAt(rest, i - |first| - 1) {
      assert i == |first| + 1 + (i - |first| - 1);
    }
    assert all[0] == if first == [] then '/' else first[0];
  }

  /** Every part of a split text is a segment. */
  predicate AreSegments(pieces: seq<string>) {
    forall i :: 0 <= i < |pieces| ==> IsSegment(pieces[i])
  }

  lemma AreSegmentsCons(piece: string, pieces: seq<string>)
    ensures AreSegments([piece] + pieces) <==> IsSegment(piece) && AreSegments(pieces)
  {
    hide IsSegment;
    var all := [piece] + pieces;
    assert all[0] == piece && forall i :: 0 <= i < |pieces| ==> all[i + 1] == pieces[i];
    assert forall i :: 0 < i < |all| ==> all[i] == pieces[i - 1];
  }

  lemma {:induction false} SegmentsMean(text: string)
    ensures AreSegments(Split(text, '/')) <==> HasParts(text)
    decreases |text|
  {
    hide IsSegment, HasParts, IndexOf, AreSegments;
    var k := IndexOf(text, '/');
    IndexOfIsFirst(text, '/');
    var first := text[..k];
    SegmentMeans(first);
    if k == |text| {
      assert Split(text, '/') == [first] + [] && first == text;
      AreSegmentsCons(first, []);
      NoSegments();
    } else {
      var rest := text[k + 1..];
      SegmentsMean(rest);
      PartsJoin(first, rest);
      assert text == first + (['/'] + rest);
      AreSegmentsCons(first, Split(rest, '/'));
    }
  }

  lemma NoSegments()
    ensures AreSegments([])
  {
  }

  /**
    A path is valid exactly when it has at most 512 characters and every slash, the first character
    being one, has a word character behind it; besides them there are word characters and dots only.
   */
  lemma MediaPathIsExact(path: string)
    ensures ValidMediaPath(path) <==> 0 < |path| <= 512 && path[0] == '/' && HasParts(path[1..])
  {
    if path != [] {
      SegmentsMean(path[1..]);
      if HasParts(path[1..]) && path[0] == '/' {
        PartsAreAscii(path);
        AsciiByteLength(path);
      }
    }
    hide Split, IsSegment, HasParts, ByteLength;
  }

  lemma FitsIsAscii(text: string, i: nat)
    requires i < |text| && FitsAt(text, i)
    ensures text[i] < '\U{80}'
  {
    SymbolsAre(text[i]);
    hide IsWordCharacter;
  }

  lemma PartsAreAscii(path: string)
    requires path != [] && path[0] == '/' && HasParts(path[1..])
    ensures IsAscii(path)
  {
    var rest := path[1..];
    hide FitsAt, IsWordCharacter;
    forall i | 0 <= i < |rest| ensures rest[i] < '\U{80}' {
      FitsIsAscii(rest, i);
    }
    assert forall i :: 1 <= i < |path| ==> path[i] == rest[i - 1];
  }

  lemma KeyIdIsExact(keyId: string)
    ensures ValidKeyId(keyId)
            <==> 1 <= |keyId| <= 64 && keyId[0] !in "-_" && forall c <- keyId :: IsWordCharacter(c)
  {
    forall c: char
      ensures Base64Url.IsSymbol(c) <==> IsWordCharacter(c)
      ensures IsAsciiAlphanumeric(c) <==> IsWordCharacter(c) && c !in "-_"
    {
      SymbolsAre(c);
    }
    hide IsWordCharacter, IsAsciiAlphanumeric, Base64Url.IsSymbol;
    assert forall i :: 0 <= i < |keyId| ==> keyId[i] in keyId;
  }

  // ----- the query -----

  datatype Grant = Grant(expires: nat, keyId: string, signature: seq<byte>)

  predicate IsGrant(g: Grant) {
    0 < g.expires < Decimal.Power(MAX_EXPIRES_DIGITS) && ValidKeyId(g.keyId) && |g.signature| == SIGNATURE_BYTES
  }

  function QueryPart(index: nat, value: string): string
    requires index < 4
  {
    QUERY_NAMES[index] + ("=" + value)
  }

  function QueryParts(values: seq<string>): (r: seq<string>)
    requires |values| == 4
    ensures |r| == 4 && forall i :: 0 <= i < 4 ==> r[i] == QueryPart(i, values[i])
  {
    [QueryPart(0, values[0]), QueryPart(1, values[1]), QueryPart(2, values[2]), QueryPart(3, values[3])]
  }

  function GrantValues(g: Grant): seq<string> {
    [DecimalText(g.expires), g.keyId, MODE, Base64Url.Encode(g.signature)]
  }

  /** The query a signer writes for a grant. */
  function PrintQuery(g: Grant): string {
    Join(QueryParts(GrantValues(g)), "&")
  }

  /** The value of one part, if the part has the name expected there and a value. */
  function PartValue(index: nat, part: string): Option<string>
    requires index < 4
  {
    var prefix := QUERY_NAMES[index] + "=";
    if prefix <= part && |part| > |prefix| then Some(part[|prefix|..]) else None
  }

  predicate HasValues(parts: seq<string>) {
    |parts| == 4 && forall i :: 0 <= i < 4 ==> PartValue(i, parts[i]).Some?
  }

  function GrantOf(values: seq<string>): Option<Grant>
    requires |values| == 4
  {
    if values[2] != MODE || !ValidKeyId(values[1]) then None
    else if !IsExpires(values[0]) then None
    else if |values[3]| != SIGNATURE_BASE64URL_LENGTH then None
    else
      var signature := Base64Url.DecodeCanonical(values[3]);
      if signature.None? || |signature.value| != SIGNATURE_BYTES then None
      else Some(Grant(ExpiresValue(values[0]), values[1], signature.value))
  }

  /** Parsing without the bound on the length of the whole query. */
  function ParsedUnbounded(query: string): Option<Grant> {
    var parts := Split(query, '&');
    if !HasValues(parts) then None
    else GrantOf([PartValue(0, parts[0]).value, PartValue(1, parts[1]).value, PartValue(2, parts[2]).value,
                  PartValue(3, parts[3]).value])
  }

  function Parsed(query: string): Option<Grant> {
    if ByteLength(query) > MAX_QUERY_BYTES then None else ParsedUnbounded(query)
  }

  /** The loop of `parseQuery`, which collects the four values in order. */
  method ParseQuery(query: string) returns (r: Option<Grant>)
    ensures r == Parsed(query)
  {
    hide GrantOf, Split, ByteLength;
    if ByteLength(query) > MAX_QUERY_BYTES {
      return None;
    }
    var parts := Split(query, '&');
    if |parts| != |QUERY_NAMES| {
      return None;
    }
    var values: seq<string> := [];
    for index := 0 to |parts|
      invariant |values| == index && forall i :: 0 <= i < index ==> PartValue(i, parts[i]) == Some(values[i])
    {
      var prefix := QUERY_NAMES[index] + "=";
      if !(prefix <= parts[index]) || parts[index][|prefix|..] == [] {
        return None;
      }
      values := values + [parts[index][|prefix|..]];
    }
    assert values == [values[0], values[1], values[2], values[3]];
    r := GrantOf(values);
  }

  // ----- one query per grant -----

  lemma DigitTextRoundTrip(digits: seq<Decimal.Digit>)
    ensures AllDigits(DigitText(digits)) && TextDigits(DigitText(digits)) == digits
  {
  }

  lemma ExpiresRoundTrip(n: nat)
    requires 0 < n < Decimal.Power(MAX_EXPIRES_DIGITS)
    ensures IsExpires(DecimalText(n)) && ExpiresValue(DecimalText(n)) == n
  {
    hide Decimal.Digits, Decimal.Power, Decimal.Value;
    Decimal.ValueOfDigits(n);
    Decimal.LengthBound(n, MAX_EXPIRES_DIGITS);
    DigitTextRoundTrip(Decimal.Digits(n));
    assert DecimalText(n)[0] == '0' + (Decimal.Digits(n)[0] as char);
    hide AllDigits, TextDigits, DigitText;
  }

  lemma ExpiresIsCanonical(text: string)
    requires IsExpires(text)
    ensures 0 < ExpiresValue(text) < Decimal.Power(MAX_EXPIRES_DIGITS) && DecimalText(ExpiresValue(text)) == text
  {
    var digits := TextDigits(text);
    Decimal.DigitsOfValue(digits);
    Decimal.ValueBound(digits);
    PowersGrow(|digits|, MAX_EXPIRES_DIGITS);
    forall i | 0 <= i < |text| ensures DigitText(digits)[i] == text[i] {
    }
  }

  lemma {:induction false} PowersGrow(a: nat, b: nat)
    requires a <= b
    ensures Decimal.Power(a) <= Decimal.Power(b)
    decreases b
  {
    if a < b {
      PowersGrow(a, b - 1);
    }
  }

  lemma ExpiresMeans(text: string, n: nat)
    ensures IsExpires(text) && ExpiresValue(text) == n
         <==> 0 < n < Decimal.Power(MAX_EXPIRES_DIGITS) && text == DecimalText(n)
  {
    hide Decimal.Power, DecimalText;
    if IsExpires(text) {
      ExpiresIsCanonical(text);
    }
    if 0 < n < Decimal.Power(MAX_EXPIRES_DIGITS) {
      ExpiresRoundTrip(n);
    }
  }

  lemma SignatureMeans(text: string, bytes: seq<byte>)
    requires |bytes| == SIGNATURE_BYTES
    ensures |text| == SIGNATURE_BASE64URL_LENGTH && Base64Url.DecodeCanonical(text) == Some(bytes)
         <==> text == Base64Url.Encode(bytes)
  {
    hide Base64Url.DecodeCanonical;
    Base64Url.DecodeCanonicalIsExact(text, bytes);
    Base64Url.SextetCount(bytes);
  }

  lemma GrantOfMeans(values: seq<string>, g: Grant)
    requires |values| == 4
    ensures GrantOf(values) == Some(g) <==> IsGrant(g) && values == GrantValues(g)
  {
    hide Base64Url.DecodeCanonical, Base64Url.Encode, DecimalText, IsExpires, ExpiresValue, ValidKeyId, Decimal.Power;
    ExpiresMeans(values[0], g.expires);
    if |g.signature| == SIGNATURE_BYTES {
      SignatureMeans(values[3], g.signature);
    }
    if GrantOf(values) == Some(g) {
      assert values == GrantValues(g);
    }
  }

  lemma PartMeans(index: nat, part: string, value: string)
    requires index < 4
    ensures PartValue(index, part) == Some(value) <==> value != [] && part == QueryPart(index, value)
  {
    var prefix := QUERY_NAMES[index] + "=";
    assert QueryPart(index, value) == prefix + value;
    if prefix <= part {
      assert part == prefix + part[|prefix|..];
    }
  }

  lemma ValuesArePlain(g: Grant, i: nat)
    requires IsGrant(g) && i < 4
    ensures var value := GrantValues(g)[i]; value != [] && IsAscii(value) && '&' !in value
  {
    if i == 0 {
      ExpiresRoundTrip(g.expires);
    } else if i == 3 {
      Base64Url.EncodedIsText(g.signature);
    }
    hide Decimal.Power, Decimal.Digits, Base64Url.ToSextets;
  }

  lemma NoAmpersand(g: Grant, i: nat)
    requires IsGrant(g) && i < 4
    ensures GrantValues(g)[i] != []
    ensures IsAscii(QueryPart(i, GrantValues(g)[i])) && '&' !in QueryPart(i, GrantValues(g)[i])
  {
    ValuesArePlain(g, i);
    hide GrantValues, IsGrant;
    assert IsAscii(QUERY_NAMES[i]) && '&' !in QUERY_NAMES[i];
  }

  lemma QueryIsShort(g: Grant)
    requires IsGrant(g)
    ensures ByteLength(PrintQuery(g)) <= MAX_QUERY_BYTES
  {
    var parts := QueryParts(GrantValues(g));
    forall i | 0 <= i < 4 ensures IsAscii(parts[i]) {
      NoAmpersand(g, i);
    }
    ExpiresRoundTrip(g.expires);
    Base64Url.SextetCount(g.signature);
    hide Decimal.Digits, IsExpires, Base64Url.ToSextets, QueryPart;
    JoinFour(parts);
    AsciiByteLength(PrintQuery(g));
    PartLengths(g);
  }

  lemma JoinFour(parts: seq<string>)
    requires |parts| == 4
    ensures Join(parts, "&") == parts[0] + ("&" + (parts[1] + ("&" + (parts[2] + ("&" + parts[3])))))
  {
    assert parts[1..][1..] == parts[2..] && parts[2..][1..] == parts[3..];
    assert Join(parts[3..], "&") == parts[3];
    assert Join(parts[2..], "&") == parts[2] + ("&" + parts[3]);
    assert Join(parts[1..], "&") == parts[1] + ("&" + Join(parts[2..], "&"));
  }

  lemma PartLengths(g: Grant)
    requires IsGrant(g)
    ensures forall i :: 0 <= i < 4 ==> |QueryPart(i, GrantValues(g)[i])| == |QUERY_NAMES[i]| + 1 + |GrantValues(g)[i]|
    ensures |GrantValues(g)[0]| <= MAX_EXPIRES_DIGITS && |GrantValues(g)[1]| <= MAX_KEY_ID_BYTES
    ensures |GrantValues(g)[2]| == |MODE| && |GrantValues(g)[3]| == SIGNATURE_BASE64URL_LENGTH
  {
    ExpiresRoundTrip(g.expires);
    Base64Url.SextetCount(g.signature);
  }

  lemma ParsedPrintsBack(query: string, g: Grant)
    requires ParsedUnbounded(query) == Some(g)
    ensures IsGrant(g) && query == PrintQuery(g)
  {
    hide Split, Join, GrantValues, GrantOf, IsGrant, PartValue, QueryPart;
    var parts := Split(query, '&');
    var values :=
        [PartValue(0, parts[0]).value, PartValue(1, parts[1]).value, PartValue(2, parts[2]).value,
         PartValue(3, parts[3]).value];
    GrantOfMeans(values, g);
    forall i | 0 <= i < 4 ensures parts[i] == QueryPart(i, values[i]) {
      PartMeans(i, parts[i], values[i]);
    }
    assert parts == QueryParts(values);
    JoinOfSplit(query, '&');
  }

  lemma PrintedParses(g: Grant)
    requires IsGrant(g)
    ensures ParsedUnbounded(PrintQuery(g)) == Some(g)
  {
    hide Split, Join, DecimalText, Base64Url.Encode, GrantOf, IsGrant, PartValue, QueryPart;
    var values := GrantValues(g);
    forall i | 0 <= i < 4
      ensures '&' !in QueryPart(i, values[i]) && PartValue(i, QueryPart(i, values[i])) == Some(values[i])
    {
      NoAmpersand(g, i);
      PartMeans(i, QueryPart(i, values[i]), values[i]);
    }
    SplitOfJoin(QueryParts(values), '&');
    GrantOfMeans(values, g);
  }

  lemma ParsedUnboundedMeans(query: string, g: Grant)
    ensures ParsedUnbounded(query) == Some(g) <==> IsGrant(g) && query == PrintQuery(g)
  {
    hide ParsedUnbounded, PrintQuery, IsGrant;
    if ParsedUnbounded(query) == Some(g) {
      ParsedPrintsBack(query, g);
    }
    if IsGrant(g) {
      PrintedParses(g);
    }
  }

  /**
    Exactly one query is accepted per grant: a query parses to a grant exactly when the grant is
    valid and the query is what printing it gives.
   */
  lemma ParseQueryIsExact(query: string, g: Grant)
    ensures Parsed(query) == Some(g) <==> IsGrant(g) && query == PrintQuery(g)
  {
    ParsedUnboundedMeans(query, g);
    if IsGrant(g) {
      QueryIsShort(g);
    }
  }

  /** The bound on the whole query never rejects one that the other checks accept. */
  lemma LengthBoundIsRedundant(query: string)
    ensures Parsed(query) == ParsedUnbounded(query)
  {
    hide ByteLength, ParsedUnbounded;
    if ParsedUnbounded(query).Some? {
      ParsedUnboundedMeans(query, ParsedUnbounded(query).value);
      QueryIsShort(ParsedUnbounded(query).value);
    }
  }

  // ----- the signing input -----

  function SigningInput(path: string, expires: nat, keyId: string): string {
    Join([path, DecimalText(expires), MODE, keyId], "\n")
  }

  lemma PathHasNoNewline(path: string)
    requires ValidMediaPath(path)
    ensures '\n' !in path
  {
    var segments := Split(path[1..], '/');
    assert forall segment <- segments :: IsSegment(segment);
    hide ValidMediaPath;
    JoinOfSplit(path[1..], '/');
    hide Split, Join;
    forall i | 0 <= i < |segments| ensures '\n' !in segments[i] {
      assert IsSegment(segments[i]);
    }
    JoinHasNone(segments, "/", '\n');
    assert path == [path[0]] + path[1..];
  }

  lemma {:induction false} JoinHasNone(pieces: seq<string>, separator: string, c: char)
    requires c !in separator && forall i :: 0 <= i < |pieces| ==> c !in pieces[i]
    ensures c !in Join(pieces, separator)
  {
    if |pieces| > 1 {
      JoinHasNone(pieces[1..], separator, c);
    }
  }

  lemma InputParts(path: string, expires: nat, keyId: string)
    requires ValidMediaPath(path) && ValidKeyId(keyId)
    ensures Split(SigningInput(path, expires, keyId), '\n') == [path, DecimalText(expires), MODE, keyId]
  {
    PathHasNoNewline(path);
    assert '\n' !in DecimalText(expires) && '\n' !in keyId;
    hide ValidMediaPath, Split;
    SplitOfJoin([path, DecimalText(expires), MODE, keyId], '\n');
  }

  lemma DecimalTextIsInjective(a: nat, b: nat)
    requires DecimalText(a) == DecimalText(b)
    ensures a == b
  {
    Decimal.ValueOfDigits(a);
    Decimal.ValueOfDigits(b);
    var x, y := Decimal.Digits(a), Decimal.Digits(b);
    assert |x| == |DecimalText(a)| == |y|;
    forall i | 0 <= i < |x| ensures x[i] == y[i] {
      assert DecimalText(a)[i] == DecimalText(b)[i];
    }
    assert x == y;
  }

  /** Two different grants never have the same bytes signed. */
  lemma SigningInputIsInjective(path: string, expires: nat, keyId: string, path2: string, expires2: nat, keyId2: string)
    requires ValidMediaPath(path) && ValidKeyId(keyId) && ValidMediaPath(path2) && ValidKeyId(keyId2)
    requires SigningInput(path, expires, keyId) == SigningInput(path2, expires2, keyId2)
    ensures path == path2 && expires == expires2 && keyId == keyId2
  {
    InputParts(path, expires, keyId);
    InputParts(path2, expires2, keyId2);
    hide ValidMediaPath, ValidKeyId, SigningInput, DecimalText, Split;
    var a, b := [path, DecimalText(expires), MODE, keyId], [path2, DecimalText(expires2), MODE, keyId2];
    assert a[0] == b[0] && a[1] == b[1] && a[3] == b[3];
    DecimalTextIsInjective(expires, expires2);
  }

  // ----- verification -----

  datatype Key = Key(keyId: string, mac: string -> seq<byte>)

  datatype Ring = Ring(current: Key, previous: Option<Key>)

  datatype Request = Request(verb: string, path: string, query: string, now: int)

  datatype Rejection =
    | InvalidMethod | InvalidPath | InvalidQuery | Expired | ExpiryTooFar | UnknownKey | InvalidSignature

  datatype Decision = Granted(keyId: string, expires: nat) | Rejected(reason: Rejection)

  /** Accumulates the differences of all bytes before it decides. */
  method ConstantTimeEqual(left: seq<bv8>, right: seq<bv8>) returns (equal: bool)
    ensures equal <==> left == right
  {
    if |left| != |right| {
      return false;
    }
    var difference: bv8 := 0;
    for index := 0 to |left|
      invariant difference == 0 <==> left[..index] == right[..index]
    {
      assert left[..index + 1] == left[..index] + [left[index]]
          && right[..index + 1] == right[..index] + [right[index]];
      NoDifference(difference, left[index], right[index]);
      difference := difference | (left[index] ^ right[index]);
    }
    assert left[..|left|] == left && right[..|left|] == right;
    equal := difference == 0;
  }

  lemma NoDifference(d: bv8, a: bv8, b: bv8)
    ensures d | (a ^ b) == 0 <==> d == 0 && a == b
  {
  }

  function ExpiryError(expires: nat, now: int): Option<Rejection> {
    if expires <= now then Some(Expired)
    else if expires - now > MAX_GRANT_LIFETIME_SECONDS + MAX_CLOCK_SKEW_SECONDS then Some(ExpiryTooFar)
    else None
  }

  function SelectKey(ring: Ring, keyId: string): Option<Key> {
    if ring.current.keyId == keyId then Some(ring.current)
    else if ring.previous.Some? && ring.previous.value.keyId == keyId then ring.previous
    else None
  }

  predicate IsSafeInteger(n: int) {
    -MAX_SAFE_INTEGER <= n <= MAX_SAFE_INTEGER
  }

  function VerifyMediaGrant(ring: Ring, request: Request): Decision {
    if request.verb != "GET" && request.verb != "HEAD" then Rejected(InvalidMethod)
    else if !ValidMediaPath(request.path) then Rejected(InvalidPath)
    else
      var grant := Parsed(request.query);
      if grant.None? || !IsSafeInteger(request.now) then Rejected(InvalidQuery)
      else
        var expiry := ExpiryError(grant.value.expires, request.now);
        if expiry.Some? then Rejected(expiry.value)
        else
          var key := SelectKey(ring, grant.value.keyId);
          if key.None? then Rejected(UnknownKey)
          else if (key.value.mac)(SigningInput(request.path, grant.value.expires, key.value.keyId))
              != grant.value.signature
          then Rejected(InvalidSignature)
          else Granted(key.value.keyId, grant.value.expires)
  }

  /** The grant a holder of the key signs for a path and an expiry. */
  function SignedGrant(key: Key, path: string, expires: nat): Grant {
    Grant(expires, key.keyId, (key.mac)(SigningInput(path, expires, key.keyId)))
  }

  /** The query is, character for character, the one that the holder of the key signs. */
  predicate SignedWith(key: Key, request: Request, expires: nat) {
    var grant := SignedGrant(key, request.path, expires);
    IsGrant(grant) && request.query == PrintQuery(grant)
  }

  /** A key of the ring: the current one, or the retiring one, which no ring lets share its ID. */
  ghost predicate InRing(ring: Ring, key: Key) {
    key == ring.current || (ring.previous == Some(key) && key.keyId != ring.current.keyId)
  }

  predicate IsAcceptable(request: Request, expires: nat) {
    && (request.verb == "GET" || request.verb == "HEAD")
    && ValidMediaPath(request.path)
    && IsSafeInteger(request.now)
    && request.now < expires <= request.now + MAX_GRANT_LIFETIME_SECONDS + MAX_CLOCK_SKEW_SECONDS
  }

  lemma SelectedMeans(ring: Ring, key: Key)
    ensures SelectKey(ring, key.keyId) == Some(key) <==> InRing(ring, key)
    ensures SelectKey(ring, key.keyId).Some? ==> SelectKey(ring, key.keyId).value.keyId == key.keyId
  {
  }

  /**
    Verification is exact: a request is granted until an instant under a key ID exactly when method,
    path, clock and expiry are acceptable and a key of the ring, the current or the retiring one, has
    this ID and signed the query.
   */
  lemma VerifyIsExact(ring: Ring, request: Request, keyId: string, expires: nat)
    ensures VerifyMediaGrant(ring, request) == Granted(keyId, expires)
            <==> && IsAcceptable(request, expires)
                 && exists key :: InRing(ring, key) && key.keyId == keyId && SignedWith(key, request, expires)
  {
    hide ValidMediaPath, IsGrant, PrintQuery, SigningInput, Parsed;
    var selected := SelectKey(ring, keyId);
    if selected.Some? {
      SelectedMeans(ring, selected.value);
      ParseQueryIsExact(request.query, SignedGrant(selected.value, request.path, expires));
    }
    if key :| InRing(ring, key) && key.keyId == keyId && SignedWith(key, request, expires) {
      SelectedMeans(ring, key);
    }
  }

  /** In particular both keys of a ring grant what they signed. */
  lemma RingKeysGrant(ring: Ring, key: Key, request: Request, expires: nat)
    requires InRing(ring, key)
    requires IsAcceptable(request, expires) && SignedWith(key, request, expires)
    ensures VerifyMediaGrant(ring, request) == Granted(key.keyId, expires)
  {
    hide IsAcceptable, SignedWith;
    VerifyIsExact(ring, request, key.keyId, expires);
  }

  /** The grant that the query carries, if it is one that some signer could have printed. */
  ghost predicate Carries(query: string, grant: Grant) {
    IsGrant(grant) && query == PrintQuery(grant)
  }

  /** A rejection names the first of the checks that fails, in this order. */
  lemma RejectionIsExact(ring: Ring, request: Request)
    ensures var r := VerifyMediaGrant(ring, request);
            var verb := request.verb == "GET" || request.verb == "HEAD";
            var path := ValidMediaPath(request.path);
            && (r == Rejected(InvalidMethod) <==> !verb)
            && (r == Rejected(InvalidPath) <==> verb && !path)
            && (r == Rejected(InvalidQuery)
                <==> verb && path && (!IsSafeInteger(request.now) || !exists grant :: Carries(request.query, grant)))
            && forall grant :: verb && path && IsSafeInteger(request.now) && Carries(request.query, grant) ==>
                 var early := grant.expires <= request.now;
                 var late := grant.expires > request.now + 3660;
                 var known := exists key :: InRing(ring, key) && key.keyId == grant.keyId;
                 && (r == Rejected(Expired) <==> early)
                 && (r == Rejected(ExpiryTooFar) <==> late)
                 && (r == Rejected(UnknownKey) <==> !early && !late && !known)
                 && (r == Rejected(InvalidSignature)
                     <==> !early && !late && known && !exists key :: InRing(ring, key) && key.keyId == grant.keyId
                                                                    && SignedWith(key, request, grant.expires))
  {
    hide ValidMediaPath, SigningInput, IsGrant, PrintQuery, Parsed;
    forall grant ensures Carries(request.query, grant) <==> Parsed(request.query) == Some(grant) {
      ParseQueryIsExact(request.query, grant);
    }
    if Parsed(request.query).Some? {
      var grant := Parsed(request.query).value;
      assert Carries(request.query, grant);
      var selected := SelectKey(ring, grant.keyId);
      if selected.Some? {
        SelectedMeans(ring, selected.value);
        var signed := SignedGrant(selected.value, request.path, grant.expires);
        assert SignedWith(selected.value, request, grant.expires) <==> Carries(request.query, signed);
        assert Carries(request.query, signed) <==> signed == grant;
      }
      forall key | InRing(ring, key) && key.keyId == grant.keyId ensures selected == Some(key) {
        SelectedMeans(ring, key);
      }
    }
  }
}
