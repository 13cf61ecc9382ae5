/** Masking the string literals of a source text, byte for byte, so that offsets keep their meaning. */
module IdentityCode {
  import opened Text
  import opened Utf8

  const NEWLINE: byte := 0x0A
  const SPACE: byte := 0x20
  const DOUBLE_QUOTE: byte := 0x22
  const SINGLE_QUOTE: byte := 0x27
  const UNDERSCORE: byte := 0x5F
  const BACKSLASH: byte := 0x5C
  const BACKTICK: byte := 0x60

  predicate IsQuote(b: byte) {
    b == SINGLE_QUOTE || b == DOUBLE_QUOTE || b == BACKTICK
  }

  predicate IsLetter(b: byte) {
    0x41 <= b <= 0x5A || 0x61 <= b <= 0x7A
  }

  /** In Rust, a single quote before a name that is not closed after one character. */
  predicate IsLifetime(s: seq<byte>, i: nat, rust: bool)
    requires i < |s|
  {
    && rust && s[i] == SINGLE_QUOTE
    && i + 1 < |s| && (IsLetter(s[i + 1]) || s[i + 1] == UNDERSCORE)
    && !(i + 2 < |s| && s[i + 2] == SINGLE_QUOTE)
  }

  predicate StartsLiteral(s: seq<byte>, i: nat, rust: bool)
    requires i < |s|
  {
    IsQuote(s[i]) && !IsLifetime(s, i, rust)
  }

  /** The index after the literal whose inside is scanned from i on; a backslash hides the next byte. */
  function LiteralEnd(s: seq<byte>, i: nat, quote: byte): (end: nat)
    ensures end <= |s|
    ensures i <= |s| ==> i <= end
    ensures i < |s| ==> i < end
    ensures i < end < |s| ==> s[end - 1] == quote
    decreases |s| - i
  {
    if i >= |s| then |s|
    else if s[i] == BACKSLASH then LiteralEnd(s, i + 2, quote)
    else if s[i] == quote then i + 1
    else LiteralEnd(s, i + 1, quote)
  }

  function Blank(s: seq<byte>): (r: seq<byte>)
    ensures |r| == |s|
    ensures forall i :: 0 <= i < |r| ==> r[i] == if s[i] == NEWLINE then NEWLINE else SPACE
  {
    seq(|s|, i requires 0 <= i < |s| => if s[i] == NEWLINE then NEWLINE else SPACE)
  }

  /** The masked text from index i on, where no literal is open. */
  function MaskFrom(s: seq<byte>, i: nat, rust: bool): (r: seq<byte>)
    requires i <= |s|
    ensures |r| == |s| - i
    decreases |s| - i
  {
    if i == |s| then []
    else if !StartsLiteral(s, i, rust) then [s[i]] + MaskFrom(s, i + 1, rust)
    else
      var end := LiteralEnd(s, i + 1, s[i]);
      Blank(s[i..end]) + MaskFrom(s, end, rust)
  }

  function Mask(s: seq<byte>, rust: bool): seq<byte> {
    MaskFrom(s, 0, rust)
  }

  lemma MaskStep(s: seq<byte>, i: nat, rust: bool)
    requires i < |s|
    ensures !StartsLiteral(s, i, rust) ==> MaskFrom(s, i, rust) == [s[i]] + MaskFrom(s, i + 1, rust)
    ensures var end := LiteralEnd(s, i + 1, s[i]);
            StartsLiteral(s, i, rust) ==> i < end && MaskFrom(s, i, rust) == Blank(s[i..end]) + MaskFrom(s, end, rust)
  {
    hide StartsLiteral, LiteralEnd, Blank;
  }

  /** The array holds the masked text before `index` and the source from there on. */
  ghost predicate MaskedUpTo(code: seq<byte>, bytes: seq<byte>, index: nat, rust: bool) {
    index <= |bytes| == |code| && code[index..] == bytes[index..]
        && code[..index] + MaskFrom(bytes, index, rust) == Mask(bytes, rust)
  }

  /** Overwrites the literals in place, scanning with a moving index. */
  method MaskInPlace(code: array<byte>, rust: bool)
    modifies code
    ensures code[..] == Mask(old(code[..]), rust)
  {
    var bytes := code[..];
    var index := 0;
    assert [] + MaskFrom(bytes, 0, rust) == Mask(bytes, rust);
    while index < |bytes|
      invariant MaskedUpTo(code[..], bytes, index, rust)
    {
      if !StartsLiteral(bytes, index, rust) {
        CopyStep(code[..], bytes, index, rust);
        index := index + 1;
        continue;
      }
      var start := index;
      index := SkipLiteral(bytes, start);
      BlankStep(code[..], bytes, start, index, rust);
      BlankInPlace(code, start, index);
    }
    NothingLeft(bytes, rust);
    assert code[..][..index] + [] == code[..];
  }

  lemma NothingLeft(s: seq<byte>, rust: bool)
    ensures MaskFrom(s, |s|, rust) == []
  {
  }

  lemma CopyStep(code: seq<byte>, bytes: seq<byte>, i: nat, rust: bool)
    requires i < |bytes| && !StartsLiteral(bytes, i, rust) && MaskedUpTo(code, bytes, i, rust)
    ensures MaskedUpTo(code, bytes, i + 1, rust)
  {
    MaskStep(bytes, i, rust);
    hide StartsLiteral, MaskFrom, Mask;
    assert code[i..][0] == bytes[i..][0];
    assert code[..i + 1] == code[..i] + [bytes[i]];
    Regroup(code[..i], [bytes[i]], MaskFrom(bytes, i + 1, rust));
    assert code[i..][1..] == code[i + 1..] && bytes[i..][1..] == bytes[i + 1..];
  }

  lemma BlankStep(code: seq<byte>, bytes: seq<byte>, start: nat, end: nat, rust: bool)
    requires start < |bytes| && StartsLiteral(bytes, start, rust) && end == LiteralEnd(bytes, start + 1, bytes[start])
    requires MaskedUpTo(code, bytes, start, rust)
    ensures start < end && MaskedUpTo((code[..start] + Blank(code[start..end])) + code[end..], bytes, end, rust)
  {
    MaskStep(bytes, start, rust);
    hide StartsLiteral, LiteralEnd, MaskFrom, Mask, Blank;
    Splice(code[..start], bytes, start, end);
    assert code == code[..start] + bytes[start..];
    Regroup(code[..start], Blank(bytes[start..end]), MaskFrom(bytes, end, rust));
    var after := (code[..start] + Blank(code[start..end])) + code[end..];
    assert after[..end] == code[..start] + Blank(code[start..end]) && after[end..] == code[end..];
  }

  lemma Splice(done: seq<byte>, bytes: seq<byte>, start: nat, end: nat)
    requires |done| == start <= end <= |bytes|
    ensures var code := done + bytes[start..];
            code[..start] == done && code[start..end] == bytes[start..end] && code[end..] == bytes[end..]
  {
  }

  method SkipLiteral(bytes: seq<byte>, start: nat) returns (end: nat)
    requires start < |bytes|
    ensures end == LiteralEnd(bytes, start + 1, bytes[start])
  {
    var quote, index := bytes[start], start + 1;
    while index < |bytes|
      invariant start < index
      invariant LiteralEnd(bytes, index, quote) == LiteralEnd(bytes, start + 1, quote)
    {
      if bytes[index] == BACKSLASH {
        index := index + 2;
      } else if bytes[index] == quote {
        return index + 1;
      } else {
        index := index + 1;
      }
    }
    end := |bytes|;
  }

  method BlankInPlace(code: array<byte>, start: nat, end: nat)
    requires start <= end <= code.Length
    modifies code
    ensures code[..] == (old(code[..])[..start] + Blank(old(code[..])[start..end])) + old(code[..])[end..]
  {
    for k := start to end
      invariant forall j :: 0 <= j < code.Length ==>
                  code[j] == if start <= j < k && old(code[j]) != NEWLINE then SPACE else old(code[j])
    {
      if code[k] != NEWLINE {
        code[k] := SPACE;
      }
    }
  }

  // ----- what masking keeps -----

  /** The byte lies in a literal found when scanning from i on. */
  predicate InLiteral(s: seq<byte>, i: nat, rust: bool, k: nat)
    requires i <= |s|
    decreases |s| - i
  {
    i < |s| &&
    if !StartsLiteral(s, i, rust) then InLiteral(s, i + 1, rust, k)
    else
      var end := LiteralEnd(s, i + 1, s[i]);
      i <= k < end || InLiteral(s, end, rust, k)
  }

  lemma {:induction false} MaskedByte(s: seq<byte>, i: nat, rust: bool, k: nat)
    requires i <= k < |s|
    ensures MaskFrom(s, i, rust)[k - i] == if InLiteral(s, i, rust, k) && s[k] != NEWLINE then SPACE else s[k]
    decreases |s| - i
  {
    MaskStep(s, i, rust);
    hide StartsLiteral, LiteralEnd, MaskFrom;
    if !StartsLiteral(s, i, rust) {
      if k > i {
        MaskedByte(s, i + 1, rust, k);
      } else {
        LiteralsLieAhead(s, i + 1, rust, k);
      }
    } else {
      var end := LiteralEnd(s, i + 1, s[i]);
      if k >= end {
        MaskedByte(s, end, rust, k);
      } else {
        assert Blank(s[i..end])[k - i] == if s[i..end][k - i] == NEWLINE then NEWLINE else SPACE;
      }
    }
  }

  lemma {:induction false} LiteralsLieAhead(s: seq<byte>, i: nat, rust: bool, k: nat)
    requires k < i <= |s|
    ensures !InLiteral(s, i, rust, k)
    decreases |s| - i
  {
    if i < |s| {
      if !StartsLiteral(s, i, rust) {
        LiteralsLieAhead(s, i + 1, rust, k);
      } else {
        LiteralsLieAhead(s, LiteralEnd(s, i + 1, s[i]), rust, k);
      }
    }
  }

  /**
    Masking keeps the length and every line end, adds no line end, and changes only bytes inside
    literals, which become spaces.
   */
  lemma MaskKeepsPositions(s: seq<byte>, rust: bool, k: nat)
    requires k < |s|
    ensures |Mask(s, rust)| == |s|
    ensures Mask(s, rust)[k] == NEWLINE <==> s[k] == NEWLINE
    ensures !InLiteral(s, 0, rust, k) ==> Mask(s, rust)[k] == s[k]
    ensures InLiteral(s, 0, rust, k) && s[k] != NEWLINE ==> Mask(s, rust)[k] == SPACE
  {
    MaskedByte(s, 0, rust, k);
  }

  lemma QuoteIsAscii(s: seq<byte>, i: nat, rust: bool, end: nat)
    requires i < |s| && StartsLiteral(s, i, rust) && end == LiteralEnd(s, i + 1, s[i]) < |s|
    ensures IsAscii(s[end - 1])
  {
  }

  lemma BlankIsValid(s: seq<byte>)
    ensures Valid(Blank(s))
  {
    AsciiIsValid(Blank(s));
  }

  lemma {:induction false} MaskFromIsValid(s: seq<byte>, i: nat, rust: bool)
    requires i <= |s| && Valid(s[i..])
    ensures Valid(MaskFrom(s, i, rust))
    decreases |s| - i
  {
    hide StartsLiteral, LiteralEnd, MaskFrom, Valid, CharacterLength;
    if i == |s| {
      assert s[i..] == [] && MaskFrom(s, i, rust) == [];
    }
    if i < |s| {
      if StartsLiteral(s, i, rust) {
        MaskStep(s, i, rust);
        var end := LiteralEnd(s, i + 1, s[i]);
        if end < |s| {
          QuoteIsAscii(s, i, rust, end);
          CutAfter(s[i..], end - 1 - i);
          assert s[i..][end - i..] == s[end..];
        } else {
          assert s[end..] == [];
          AsciiIsValid([]);
        }
        MaskFromIsValid(s, end, rust);
        BlankIsValid(s[i..end]);
        ValidSum(Blank(s[i..end]), MaskFrom(s, end, rust));
      } else {
        CharacterIsKept(s, i, rust);
      }
    }
  }

  /** A character that is not a quote is copied whole: its further bytes are no quotes either. */
  lemma CharacterIsCopied(s: seq<byte>, i: nat, rust: bool, n: nat)
    requires i < |s| && !StartsLiteral(s, i, rust)
    requires n == CharacterLength(s[i..]) > 0
    ensures MaskFrom(s, i, rust) == s[i..i + n] + MaskFrom(s, i + n, rust)
  {
    hide MaskFrom, CharacterLength, StartsLiteral;
    TailsInside(s[i..]);
    assert forall k :: i + 1 <= k < i + n ==> s[k] == s[i..][k - i];
    MaskStep(s, i, rust);
    TailsAreKept(s, i + 1, i + n, rust);
    assert s[i..i + n] == [s[i]] + s[i + 1..i + n];
  }

  lemma {:induction false} CharacterIsKept(s: seq<byte>, i: nat, rust: bool)
    requires i < |s| && Valid(s[i..]) && !StartsLiteral(s, i, rust)
    ensures Valid(MaskFrom(s, i, rust))
    decreases |s| - i, 0
  {
    hide MaskFrom, Valid, CharacterLength, StartsLiteral;
    ValidStep(s[i..]);
    var n := CharacterLength(s[i..]);
    assert s[i..][n..] == s[i + n..] && s[i..][..n] == s[i..i + n];
    MaskFromIsValid(s, i + n, rust);
    CutBeforeNext(s[i..]);
    CharacterIsCopied(s, i, rust, n);
    ValidSum(s[i..i + n], MaskFrom(s, i + n, rust));
  }

  lemma CutBeforeNext(s: seq<byte>)
    requires s != [] && Valid(s)
    ensures Valid(s[..CharacterLength(s)])
  {
    var n := CharacterLength(s);
    LengthWithin(s, n);
    assert s[..n][n..] == [];
  }

  lemma TailIsNoQuote(s: seq<byte>, i: nat, rust: bool)
    requires i < |s| && IsTail(s[i])
    ensures !StartsLiteral(s, i, rust)
  {
  }

  lemma {:induction false} TailsAreKept(s: seq<byte>, i: nat, end: nat, rust: bool)
    requires i <= end <= |s| && forall k :: i <= k < end ==> IsTail(s[k])
    ensures MaskFrom(s, i, rust) == s[i..end] + MaskFrom(s, end, rust)
    decreases end - i
  {
    hide StartsLiteral, LiteralEnd, MaskFrom;
    if i < end {
      TailIsNoQuote(s, i, rust);
      MaskStep(s, i, rust);
      TailsAreKept(s, i + 1, end, rust);
      assert s[i..end] == [s[i]] + s[i + 1..end];
    }
  }

  /** Masking valid UTF-8 gives valid UTF-8, so turning the bytes back into text cannot fail. */
  lemma MaskIsValid(s: seq<byte>, rust: bool)
    requires Valid(s)
    ensures Valid(Mask(s, rust))
  {
    assert s[0..] == s;
    MaskFromIsValid(s, 0, rust);
  }

  /** An offset that the masked text shows code at is a character boundary with the same byte in the source. */
  lemma OffsetsAgree(s: seq<byte>, rust: bool, k: nat)
    requires Valid(s) && k < |s|
    requires IsAscii(Mask(s, rust)[k]) && Mask(s, rust)[k] != SPACE && Mask(s, rust)[k] != NEWLINE
    ensures s[k] == Mask(s, rust)[k]
    ensures Valid(s[..k]) && Valid(s[k..]) && Valid(Mask(s, rust)[..k]) && Valid(Mask(s, rust)[k..])
  {
    MaskKeepsPositions(s, rust, k);
    MaskIsValid(s, rust);
    hide Mask, Valid;
    CutBefore(s, k);
    CutBefore(Mask(s, rust), k);
  }

  // ----- masking twice -----

  /** A masked text contains no start of a literal. */
  lemma {:induction false} MaskLeavesNoLiteral(s: seq<byte>, i: nat, rust: bool, t: seq<byte>, k: nat)
    requires i <= |s| == |t| && t[i..] == MaskFrom(s, i, rust)
    requires i <= k < |s|
    ensures !StartsLiteral(t, k, rust)
    decreases |s| - i
  {
    if StartsLiteral(s, i, rust) {
      var end := LiteralEnd(s, i + 1, s[i]);
      assert t[end..] == MaskFrom(s, i, rust)[end - i..] == MaskFrom(s, end, rust);
      if k >= end {
        MaskLeavesNoLiteral(s, end, rust, t, k);
      } else {
        assert t[k] == t[i..][k - i] == Blank(s[i..end])[k - i];
      }
    } else {
      assert t[i + 1..] == MaskFrom(s, i, rust)[1..] == MaskFrom(s, i + 1, rust);
      assert t[i] == t[i..][0] == s[i];
      if k > i {
        MaskLeavesNoLiteral(s, i + 1, rust, t, k);
      } else if IsQuote(s[i]) {
        LifetimeStays(s, i, rust, t);
      }
    }
  }

  lemma LifetimeStays(s: seq<byte>, i: nat, rust: bool, t: seq<byte>)
    requires i < |s| == |t| && t[i..] == MaskFrom(s, i, rust)
    requires IsLifetime(s, i, rust)
    ensures IsLifetime(t, i, rust)
  {
    assert t[i] == t[i..][0] == s[i];
    assert !StartsLiteral(s, i + 1, rust);
    var next := MaskFrom(s, i + 1, rust);
    assert t[i + 1] == t[i..][1] == next[0] == s[i + 1];
    if i + 2 < |s| {
      assert t[i + 2] == t[i..][2] == next[1] == MaskFrom(s, i + 2, rust)[0];
      MaskedByte(s, i + 2, rust, i + 2);
    }
  }

  lemma {:induction false} NoLiteralsIsUnchanged(t: seq<byte>, i: nat, rust: bool)
    requires i <= |t| && forall k :: i <= k < |t| ==> !StartsLiteral(t, k, rust)
    ensures MaskFrom(t, i, rust) == t[i..]
    decreases |t| - i
  {
    if i < |t| {
      NoLiteralsIsUnchanged(t, i + 1, rust);
    }
  }

  /** Masking is idempotent, with and without Rust's lifetimes. */
  lemma MaskIsIdempotent(s: seq<byte>, rust: bool)
    ensures Mask(Mask(s, rust), rust) == Mask(s, rust)
  {
    var t := Mask(s, rust);
    assert t[0..] == t;
    forall k | 0 <= k < |t| ensures !StartsLiteral(t, k, rust) {
      MaskLeavesNoLiteral(s, 0, rust, t, k);
    }
    NoLiteralsIsUnchanged(t, 0, rust);
  }
}
