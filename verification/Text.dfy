/** Bytes, and the text operations of the standard libraries the sources use. */
module Text {
  type byte = b: int | 0 <= b < 256

  /** Unicode white space. */
  predicate IsWhitespace(c: char) {
    || '\t' <= c <= '\r' || c == ' ' || c == '\U{85}' || c == '\U{A0}' || c == '\U{1680}'
    || '\U{2000}' <= c <= '\U{200A}' || c == '\U{2028}' || c == '\U{2029}' || c == '\U{202F}'
    || c == '\U{205F}' || c == '\U{3000}'
  }

  function TrimStart(s: string): (r: string)
    ensures |r| <= |s| && r == s[|s| - |r|..]
    ensures r == [] || !IsWhitespace(r[0])
  {
    if s != [] && IsWhitespace(s[0]) then TrimStart(s[1..]) else s
  }

  function TrimEnd(s: string): (r: string)
    ensures |r| <= |s| && r == s[..|r|]
    ensures r == [] || !IsWhitespace(r[|r| - 1])
  {
    if s != [] && IsWhitespace(s[|s| - 1]) then TrimEnd(s[..|s| - 1]) else s
  }

  function Trim(s: string): string {
    TrimEnd(TrimStart(s))
  }

  predicate IsAsciiLetter(c: char) {
    'a' <= c <= 'z' || 'A' <= c <= 'Z'
  }

  predicate IsAsciiDigit(c: char) {
    '0' <= c <= '9'
  }

  predicate IsAsciiAlphanumeric(c: char) {
    IsAsciiLetter(c) || IsAsciiDigit(c)
  }

  const UPPER := "ABCDEFGHIJKLMNOPQRSTUVWXYZ"
  const LOWER := "abcdefghijklmnopqrstuvwxyz"
  const DIGITS := "0123456789"

  lemma RangesAre()
    ensures |UPPER| == |LOWER| == 26 && |DIGITS| == 10
    ensures forall i :: 0 <= i < 26 ==> UPPER[i] == 'A' + (i as char) && LOWER[i] == 'a' + (i as char)
    ensures forall i :: 0 <= i < 10 ==> DIGITS[i] == '0' + (i as char)
  {
    assert UPPER[0] == 'A' && LOWER[0] == 'a' && DIGITS[0] == '0';
  }

  lemma InRanges(c: char)
    ensures c in UPPER || c in LOWER <==> IsAsciiLetter(c)
    ensures c in DIGITS <==> IsAsciiDigit(c)
  {
    RangesAre();
    hide UPPER, LOWER, DIGITS;
    if 'A' <= c <= 'Z' {
      assert UPPER[(c - 'A') as int] == c;
    } else if 'a' <= c <= 'z' {
      assert LOWER[(c - 'a') as int] == c;
    } else if '0' <= c <= '9' {
      assert DIGITS[(c - '0') as int] == c;
    }
  }

  /** The position of the first c, or the length when there is none. */
  function IndexOf<T(==)>(s: seq<T>, c: T): (i: nat)
    ensures i <= |s|
    ensures i < |s| ==> s[i] == c
  {
    if s == [] || s[0] == c then 0 else 1 + IndexOf(s[1..], c)
  }

  lemma {:induction false} IndexOfIsFirst<T>(s: seq<T>, c: T)
    ensures c !in s[..IndexOf(s, c)]
    ensures IndexOf(s, c) == |s| <==> c !in s
  {
    if s != [] && s[0] != c {
      IndexOfIsFirst(s[1..], c);
      assert s == [s[0]] + s[1..];
      assert s[..IndexOf(s, c)] == [s[0]] + s[1..][..IndexOf(s[1..], c)];
    }
  }

  lemma {:induction false} IndexOfIs<T>(s: seq<T>, c: T, i: nat)
    requires i < |s| && s[i] == c && forall j :: 0 <= j < i ==> s[j] != c
    ensures IndexOf(s, c) == i
  {
    if i > 0 {
      IndexOfIs(s[1..], c, i - 1);
    }
  }

  lemma Cut<T>(s: seq<T>, t: seq<T>, i: nat)
    requires i <= |s|
    ensures (s + t)[..i] == s[..i] && (s + t)[i..] == s[i..] + t
  {
  }

  lemma Regroup<T>(a: seq<T>, b: seq<T>, c: seq<T>)
    ensures a + (b + c) == (a + b) + c
  {
  }

  /** The pieces between the separators; there is always at least one. */
  function Split<T(==)>(s: seq<T>, c: T): (r: seq<seq<T>>)
    ensures |r| > 0
  {
    var i := IndexOf(s, c);
    if i == |s| then [s] else [s[..i]] + Split(s[i + 1..], c)
  }

  /** The pieces with the separator between them. */
  function Join<T>(pieces: seq<seq<T>>, separator: seq<T>): seq<T> {
    if pieces == [] then []
    else if |pieces| == 1 then pieces[0]
    else pieces[0] + (separator + Join(pieces[1..], separator))
  }

  lemma JoinCons<T>(piece: seq<T>, pieces: seq<seq<T>>, separator: seq<T>)
    requires pieces != []
    ensures Join([piece] + pieces, separator) == piece + (separator + Join(pieces, separator))
  {
    assert ([piece] + pieces)[1..] == pieces;
  }

  lemma {:induction false} JoinOfSplit<T>(s: seq<T>, c: T)
    ensures Join(Split(s, c), [c]) == s
    decreases |s|
  {
    hide IndexOf;
    var i := IndexOf(s, c);
    if i < |s| {
      JoinOfSplit(s[i + 1..], c);
      JoinCons(s[..i], Split(s[i + 1..], c), [c]);
      hide Join;
      assert s == s[..i] + ([c] + s[i + 1..]);
    }
  }

  lemma {:induction false} IndexOfFirst<T>(piece: seq<T>, c: T, rest: seq<T>)
    requires c !in piece
    ensures IndexOf(piece, c) == |piece|
    ensures IndexOf(piece + ([c] + rest), c) == |piece|
  {
    if piece != [] {
      IndexOfFirst(piece[1..], c, rest);
      assert (piece + ([c] + rest))[1..] == piece[1..] + ([c] + rest);
      assert piece[0] in piece;
    }
  }

  lemma SplitFirst<T>(piece: seq<T>, c: T, rest: seq<T>)
    requires c !in piece
    ensures Split(piece + ([c] + rest), c) == [piece] + Split(rest, c)
  {
    IndexOfFirst(piece, c, rest);
    hide IndexOf;
    var s := piece + ([c] + rest);
    assert s[..|piece|] == piece && s[|piece| + 1..] == rest;
  }

  /** Pieces without the separator survive joining and splitting. */
  lemma {:induction false} SplitOfJoin<T>(pieces: seq<seq<T>>, c: T)
    requires pieces != [] && forall i :: 0 <= i < |pieces| ==> c !in pieces[i]
    ensures Split(Join(pieces, [c]), c) == pieces
  {
    if |pieces| == 1 {
      IndexOfFirst(pieces[0], c, []);
    } else {
      var first, rest := pieces[0], Join(pieces[1..], [c]);
      SplitOfJoin(pieces[1..], c);
      IndexOfFirst(first, c, rest);
      var s := first + ([c] + rest);
      assert s[..|first|] == first && s[|first| + 1..] == rest;
    }
  }
}
