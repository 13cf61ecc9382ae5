/** The form of personal access tokens, their generation, and the checks before one is stored. */
module ApiTokens {
  import opened Wrappers
  import opened Text
  import opened TokenTable

  const SECRET_LENGTH := 32
  const DISPLAY_PREFIX_LENGTH := 8
  const MAX_NAME_LENGTH := 100
  const MAX_GRANTS := 64
  const MAX_GRANT_LENGTH := 128

  /** The largest multiple of 62 below 256; bytes from here on are drawn again. */
  const LIMIT := 248

  datatype Format = Format(marker: string)

  datatype FormatError = MissingSeparator | InvalidMarker

  datatype TokenError = InvalidName | InvalidExpiry | InvalidGrants | Storage

  /** The i-th character of the base62 alphabet. */
  function Base62(i: nat): char
    requires i < 62
  {
    if i < 10 then '0' + (i as char) else if i < 36 then 'A' + ((i - 10) as char) else 'a' + ((i - 36) as char)
  }

  predicate InAlphabet(c: char) {
    exists i: nat :: i < 62 && Base62(i) == c
  }

  function NewFormat(marker: string): Result<Format, FormatError> {
    if marker == [] || marker[|marker| - 1] != '_' then Failure(MissingSeparator)
    else
      var body := marker[..|marker| - 1];
      if body == [] || exists i :: 0 <= i < |body| && !IsAsciiAlphanumeric(body[i]) then Failure(InvalidMarker)
      else Success(Format(marker))
  }

  predicate IsWellFormed(format: Format, presented: string) {
    && |presented| == |format.marker| + SECRET_LENGTH
    && format.marker <= presented
    && forall i :: |format.marker| <= i < |presented| ==> InAlphabet(presented[i])
  }

  predicate IsMarkerBody(body: string) {
    body != [] && forall i :: 0 <= i < |body| ==> IsAsciiAlphanumeric(body[i])
  }

  /** The accepted markers are exactly the nonempty alphanumeric texts with an underscore behind them. */
  lemma MarkersAre(marker: string)
    ensures NewFormat(marker).Success? <==> exists body :: IsMarkerBody(body) && marker == body + "_"
    ensures NewFormat(marker) == Failure(MissingSeparator) <==> !exists body :: marker == body + "_"
  {
    if marker != [] && marker[|marker| - 1] == '_' {
      var body := marker[..|marker| - 1];
      assert marker == body + "_";
      assert forall other :: marker == other + "_" ==> other == body by {
        forall other | marker == other + "_" ensures other == body {
          assert other == (other + "_")[..|other|];
        }
      }
    }
  }

  /** A marker ends at the first underscore of every text that starts with it. */
  lemma MarkerEnds(marker: string, text: string)
    requires NewFormat(marker).Success? && marker <= text
    ensures text[|marker| - 1] == '_' && forall i :: 0 <= i < |marker| - 1 ==> text[i] != '_'
  {
    var body := marker[..|marker| - 1];
    assert forall i :: 0 <= i < |body| ==> body[i] == text[i] && IsAsciiAlphanumeric(body[i]);
  }

  /** No text starts with the markers of two formats, so a credential names at most one of them. */
  lemma MarkersDoNotCollide(a: string, b: string, text: string)
    requires NewFormat(a).Success? && NewFormat(b).Success? && a <= text && b <= text
    ensures a == b
  {
    MarkerEnds(a, text);
    MarkerEnds(b, text);
    assert |a| == |b|;
  }

  /** The marker of a token can be read off the token: it ends at the only underscore. */
  lemma TokenNamesItsFormat(marker: string, token: string)
    requires NewFormat(marker).Success? && IsWellFormed(NewFormat(marker).value, token)
    ensures forall i :: 0 <= i < |token| ==> (token[i] == '_' <==> i == |marker| - 1)
  {
    MarkerEnds(marker, token);
    forall i | |marker| <= i < |token| ensures token[i] != '_' {
      AlphabetIsAlphanumeric(token[i]);
    }
  }

  // ----- generating -----

  /** The characters that a stream of random bytes yields. */
  function Characters(bytes: seq<byte>): string {
    if bytes == [] then ""
    else
      var last := bytes[|bytes| - 1];
      Characters(bytes[..|bytes| - 1]) + (if last < LIMIT then [Base62(last % 62)] else "")
  }

  function Concatenated(draws: seq<seq<byte>>): seq<byte> {
    if draws == [] then [] else Concatenated(draws[..|draws| - 1]) + draws[|draws| - 1]
  }

  function Prefix(s: string, n: nat): string {
    if |s| <= n then s else s[..n]
  }

  lemma {:induction false} CharactersGrow(first: seq<byte>, second: seq<byte>)
    ensures Characters(first + second) == Characters(first) + Characters(second)
  {
    if second == [] {
      assert first + second == first;
    } else {
      CharactersGrow(first, second[..|second| - 1]);
      assert (first + second)[..|first + second| - 1] == first + second[..|second| - 1];
    }
  }

  /** Draws buffers until enough characters were accepted; None while the draws given do not suffice. */
  method Generate(format: Format, draws: seq<seq<byte>>) returns (r: Option<string>)
    ensures var characters := Characters(Concatenated(draws));
            r == if |characters| >= SECRET_LENGTH then Some(format.marker + characters[..SECRET_LENGTH]) else None
  {
    var secret, next := format.marker, 0;
    while |secret| < |format.marker| + SECRET_LENGTH
      invariant next <= |draws|
      invariant secret == format.marker + Prefix(Characters(Concatenated(draws[..next])), SECRET_LENGTH)
      decreases |draws| - next
    {
      if next == |draws| {
        assert draws[..next] == draws;
        return None;
      }
      var buffer := draws[next];
      ghost var before := Concatenated(draws[..next]);
      assert before + buffer[..0] == before;
      for i := 0 to |buffer|
        invariant secret == format.marker + Prefix(Characters(before + buffer[..i]), SECRET_LENGTH)
      {
        CharactersStep(before, buffer, i);
        hide Characters;
        if buffer[i] < LIMIT && |secret| < |format.marker| + SECRET_LENGTH {
          secret := secret + [Base62(buffer[i] % 62)];
        }
      }
      assert buffer[..|buffer|] == buffer && draws[..next + 1][..next] == draws[..next];
      assert Concatenated(draws[..next + 1]) == before + buffer;
      next := next + 1;
    }
    FirstCharactersStay(draws, next);
    hide Characters, Concatenated;
    r := Some(secret);
  }

  lemma CharactersStep(before: seq<byte>, buffer: seq<byte>, i: nat)
    requires i < |buffer|
    ensures Characters(before + buffer[..i + 1])
         == Characters(before + buffer[..i]) + (if buffer[i] < LIMIT then [Base62(buffer[i] % 62)] else "")
  {
    assert (before + buffer[..i + 1])[..|before| + i] == before + buffer[..i];
  }

  lemma FirstCharactersStay(draws: seq<seq<byte>>, next: nat)
    requires next <= |draws| && |Characters(Concatenated(draws[..next]))| >= SECRET_LENGTH
    ensures var characters := Characters(Concatenated(draws));
            |characters| >= SECRET_LENGTH
                && characters[..SECRET_LENGTH] == Prefix(Characters(Concatenated(draws[..next])), SECRET_LENGTH)
  {
    hide Characters, Concatenated;
    ConcatenatedSplits(draws, next);
    var first, rest := Concatenated(draws[..next]), Concatenated(draws[next..]);
    CharactersGrow(first, rest);
    assert (Characters(first) + Characters(rest))[..SECRET_LENGTH] == Prefix(Characters(first), SECRET_LENGTH);
  }

  lemma {:induction false} ConcatenatedSplits(draws: seq<seq<byte>>, n: nat)
    requires n <= |draws|
    ensures Concatenated(draws) == Concatenated(draws[..n]) + Concatenated(draws[n..])
  {
    if n == |draws| {
      assert draws[..n] == draws;
    } else {
      var front := draws[..|draws| - 1];
      ConcatenatedSplits(front, n);
      assert front[..n] == draws[..n] && draws[n..][..|draws| - n - 1] == front[n..];
    }
  }

  lemma {:induction false} CharactersInAlphabet(bytes: seq<byte>)
    ensures forall i :: 0 <= i < |Characters(bytes)| ==> InAlphabet(Characters(bytes)[i])
  {
    if bytes != [] {
      CharactersInAlphabet(bytes[..|bytes| - 1]);
      var last := bytes[|bytes| - 1];
      assert last < LIMIT ==> InAlphabet(Base62(last % 62));
    }
  }

  /** Every generated secret has the exact shape the service accepts. */
  lemma GeneratedIsWellFormed(format: Format, bytes: seq<byte>)
    requires |Characters(bytes)| >= SECRET_LENGTH
    ensures IsWellFormed(format, format.marker + Characters(bytes)[..SECRET_LENGTH])
  {
    CharactersInAlphabet(bytes);
  }

  /** Below the limit exactly four bytes give each character, so no character is more likely. */
  lemma CharactersAreEquallyLikely(i: nat, b: byte)
    requires i < 62
    ensures b < LIMIT ==> (Base62(b % 62) == Base62(i) <==> b in {i, i + 62, i + 124, i + 186})
    ensures i + 186 < LIMIT
  {
    assert forall j: nat :: j < 62 && Base62(j) == Base62(i) ==> j == i;
  }

  /** The alphabet is the ASCII letters and digits, so the marker's underscore is outside it. */
  lemma AlphabetIsAlphanumeric(c: char)
    ensures InAlphabet(c) <==> IsAsciiAlphanumeric(c)
  {
    if IsAsciiDigit(c) {
      assert Base62((c - '0') as nat) == c;
    } else if 'A' <= c <= 'Z' {
      assert Base62(10 + (c - 'A') as nat) == c;
    } else if 'a' <= c <= 'z' {
      assert Base62(36 + (c - 'a') as nat) == c;
    }
  }

  const ALPHABET := (DIGITS + UPPER) + LOWER

  /** The digits stand for themselves, and the letters follow them in order. */
  lemma AlphabetIs(i: nat)
    requires i < 62
    ensures |ALPHABET| == 62 && Base62(i) == ALPHABET[i]
  {
    RangesAre();
    hide UPPER, LOWER, DIGITS;
  }

  // ----- preparing -----

  predicate IsValidGrant(grant: string) {
    && grant != [] && |grant| <= MAX_GRANT_LENGTH
    && forall i :: 0 <= i < |grant|
          ==> grant[i] == '\U{21}' || '\U{23}' <= grant[i] <= '\U{5B}' || '\U{5D}' <= grant[i] <= '\U{7E}'
  }

  function ValidateTokenFields(name: string, grants: set<string>, expiresAt: Option<Instant>,
                               now: Instant): Result<(), TokenError> {
    if name == [] || |name| > MAX_NAME_LENGTH then Failure(InvalidName)
    else if expiresAt.Some? && expiresAt.value <= now then Failure(InvalidExpiry)
    else if |grants| > MAX_GRANTS || exists grant <- grants :: !IsValidGrant(grant) then Failure(InvalidGrants)
    else Success(())
  }

  datatype NewToken = NewToken(name: string, expiresAt: Option<Instant>, grants: set<string>)

  function DisplayPrefix(format: Format, secret: string): string
    requires |secret| >= |format.marker| + DISPLAY_PREFIX_LENGTH
  {
    secret[..|format.marker| + DISPLAY_PREFIX_LENGTH]
  }

  /** Validates first, then uses the generated secret (None when no randomness is available). */
  function PrepareAt(format: Format, hash: string -> Digest, generated: Option<string>, id: TokenId, owner: OwnerId,
                     request: NewToken, now: Instant)
    : Result<Record, TokenError>
    requires generated.Some? ==> IsWellFormed(format, generated.value)
  {
    var name := Trim(request.name);
    match ValidateTokenFields(name, request.grants, request.expiresAt, now)
    case Failure(error) => Failure(error)
    case Success(_) =>
      if generated.None? then Failure(Storage)
      else Success(Record(id, owner, name, hash(generated.value), DisplayPrefix(format, generated.value),
                          request.grants, now, request.expiresAt))
  }

  /** The store's own validation of a record it is handed. */
  function FromRecord(record: Record): Result<Record, TokenError> {
    var trimmed := record.(name := Trim(record.name));
    match ValidateTokenFields(trimmed.name, trimmed.grants, trimmed.expiresAt, trimmed.createdAt)
    case Failure(error) => Failure(error)
    case Success(_) => Success(trimmed)
  }

  lemma TrimIsIdempotent(s: string)
    ensures Trim(Trim(s)) == Trim(s)
  {
    var started := TrimStart(s);
    var r := TrimEnd(started);
    if r != [] {
      assert r[0] == started[0];
    }
  }

  /**
    What the service prepares, the database takes: the store's second validation accepts it
    unchanged, it meets every CHECK constraint, it is active when created, and the part kept for
    display is a proper prefix of the secret.
   */
  lemma PreparedIsStorable(format: Format, hash: string -> Digest, secret: string, id: TokenId, owner: OwnerId,
                           request: NewToken, now: Instant)
    requires IsWellFormed(format, secret) && |hash(secret)| == 32
    ensures var r := PrepareAt(format, hash, Some(secret), id, owner, request, now);
            r.Success? ==>
              && FromRecord(r.value) == r
              && MeetsChecks(r.value)
              && r.value.createdAt == now && IsActiveAt(NewRow(r.value).token, now)
              && r.value.secretHash == hash(secret)
              && r.value.id == id && r.value.ownerId == owner && r.value.name == Trim(request.name)
              && r.value.grants == request.grants && r.value.expiresAt == request.expiresAt
              && r.value.displayPrefix < secret && |r.value.displayPrefix| == |format.marker| + 8
  {
    TrimIsIdempotent(request.name);
    ValidFieldsMeetChecks(Trim(request.name), request.grants, request.expiresAt, now);
    hide ValidateTokenFields, Trim, InAlphabet;
  }

  lemma ValidFieldsMeetChecks(name: string, grants: set<string>, expiresAt: Option<Instant>, now: Instant)
    ensures ValidateTokenFields(name, grants, expiresAt, now).Success? ==>
              && 1 <= |name| <= MAX_NAME_LENGTH && |grants| <= MAX_GRANTS
              && (expiresAt.Some? ==> expiresAt.value > now)
  {
  }

  /** What a grant may be: 1 to 128 printable ASCII characters other than space, quote and backslash. */
  lemma GrantIsExact(grant: string)
    ensures IsValidGrant(grant)
            <==> 1 <= |grant| <= 128 && forall c <- grant :: ' ' < c <= '~' && c != '"' && c != '\\'
  {
    if forall c <- grant :: ' ' < c <= '~' && c != '"' && c != '\\' {
      assert forall i :: 0 <= i < |grant| ==> grant[i] in grant;
    }
  }

  /** Some token with these fields could be active from now on. */
  ghost predicate CouldBeActive(expiresAt: Option<Instant>, now: Instant) {
    exists token: Token :: token.expiresAt == expiresAt && IsActiveAt(token, now)
  }

  /**
    The validation and the table's constraints agree: a record whose digest has 32 bytes and whose
    shown part is not empty meets the constraints exactly when the validation refuses it for nothing
    but the form of a grant.
   */
  lemma ValidationIsExact(record: Record)
    requires |record.secretHash| == 32 && record.displayPrefix != []
    ensures var r := ValidateTokenFields(record.name, record.grants, record.expiresAt, record.createdAt);
            var grants := |record.grants| <= 64 && forall grant <- record.grants :: IsValidGrant(grant);
            && (r.Success? <==> MeetsChecks(record) && grants)
            && (r == Failure(InvalidName) <==> record.name == [] || |record.name| > 100)
            && (r == Failure(InvalidExpiry)
                <==> 1 <= |record.name| <= 100 && !CouldBeActive(record.expiresAt, record.createdAt))
            && (r == Failure(InvalidGrants)
                <==> 1 <= |record.name| <= 100 && CouldBeActive(record.expiresAt, record.createdAt) && !grants)
  {
    hide IsValidGrant;
    var token := NewRow(record).token;
    assert token.expiresAt == record.expiresAt && token.revokedAt.None?;
  }
}
