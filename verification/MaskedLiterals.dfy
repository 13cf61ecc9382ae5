/** What masking does to code and to literals as a writer puts them down, one after the other. */
module MaskedLiterals {
  import opened Text
  import opened IdentityCode

  /** Inside a literal: a byte as it is, or a backslash and the byte it hides. */
  datatype Piece = Plain(b: byte) | Escaped(b: byte)

  function Bytes(piece: Piece): seq<byte> {
    match piece
    case Plain(b) => [b]
    case Escaped(b) => [0x5C, b]
  }

  function Written(pieces: seq<Piece>): seq<byte> {
    if pieces == [] then [] else Bytes(pieces[0]) + Written(pieces[1..])
  }

  /** Only a backslash puts the quote, or a backslash, inside the literal. */
  predicate StayInside(pieces: seq<Piece>, quote: byte) {
    forall i :: 0 <= i < |pieces| ==> pieces[i].Plain? ==> pieces[i].b != quote && pieces[i].b != 0x5C
  }

  // ----- where a text stands does not matter -----

  /** The text s is what `all` holds from n on. */
  ghost predicate Holds(all: seq<byte>, n: nat, s: seq<byte>) {
    |all| == n + |s| && forall k :: 0 <= k < |s| ==> all[n + k] == s[k]
  }

  lemma {:induction false} EndMoves(all: seq<byte>, n: nat, s: seq<byte>, i: nat, quote: byte)
    requires Holds(all, n, s)
    ensures LiteralEnd(all, n + i, quote) == n + LiteralEnd(s, i, quote)
    decreases |s| - i
  {
    if i < |s| {
      assert all[n + i] == s[i];
      if s[i] == BACKSLASH {
        EndMoves(all, n, s, i + 2, quote);
      } else if s[i] != quote {
        EndMoves(all, n, s, i + 1, quote);
      }
    }
  }

  lemma StartMoves(all: seq<byte>, n: nat, s: seq<byte>, i: nat, rust: bool)
    requires Holds(all, n, s) && i < |s|
    ensures StartsLiteral(all, n + i, rust) == StartsLiteral(s, i, rust)
  {
    assert all[n + i] == s[i];
    assert i + 1 < |s| ==> all[n + (i + 1)] == s[i + 1];
    assert i + 2 < |s| ==> all[n + (i + 2)] == s[i + 2];
  }

  lemma SliceMoves(all: seq<byte>, n: nat, s: seq<byte>, i: nat, end: nat)
    requires Holds(all, n, s) && i <= end <= |s|
    ensures all[n + i..n + end] == s[i..end]
  {
  }

  lemma {:induction false} MaskMoves(all: seq<byte>, n: nat, s: seq<byte>, i: nat, rust: bool)
    requires Holds(all, n, s) && i <= |s|
    ensures MaskFrom(all, n + i, rust) == MaskFrom(s, i, rust)
    decreases |s| - i
  {
    hide MaskFrom, Holds;
    if i < |s| {
      var masked, end := OneMove(all, n, s, i, rust);
      MaskMoves(all, n, s, end, rust);
    } else {
      AtTheEnd(all, n, s, rust);
    }
  }

  lemma AtTheEnd(all: seq<byte>, n: nat, s: seq<byte>, rust: bool)
    requires Holds(all, n, s)
    ensures n + |s| == |all| && MaskFrom(all, n + |s|, rust) == [] == MaskFrom(s, |s|, rust)
  {
  }

  /** What both texts mask first, and where they go on. */
  lemma OneMove(all: seq<byte>, n: nat, s: seq<byte>, i: nat, rust: bool) returns (masked: seq<byte>, end: nat)
    requires Holds(all, n, s) && i < |s|
    ensures i < end <= |s| && n + end <= |all|
    ensures MaskFrom(s, i, rust) == masked + MaskFrom(s, end, rust)
    ensures MaskFrom(all, n + i, rust) == masked + MaskFrom(all, n + end, rust)
  {
    hide MaskFrom, StartsLiteral, LiteralEnd, Blank, Holds;
    AtTheEnd(all, n, s, rust);
    if StartsLiteral(s, i, rust) {
      LiteralMoves(all, n, s, i, rust);
      EndIsAhead(s, i, s[i]);
      end := LiteralEnd(s, i + 1, s[i]);
      masked := Blank(s[i..end]);
    } else {
      CodeMoves(all, n, s, i, rust);
      masked, end := [s[i]], i + 1;
    }
  }

  lemma LiteralStep(s: seq<byte>, i: nat, end: nat, literal: seq<byte>, rust: bool)
    requires i < end <= |s| && StartsLiteral(s, i, rust)
    requires LiteralEnd(s, i + 1, s[i]) == end && s[i..end] == literal
    ensures MaskFrom(s, i, rust) == Blank(literal) + MaskFrom(s, end, rust)
  {
    hide StartsLiteral, LiteralEnd, Blank, MaskFrom;
    MaskStep(s, i, rust);
  }

  lemma EndIsAhead(s: seq<byte>, i: nat, quote: byte)
    requires i < |s|
    ensures i < LiteralEnd(s, i + 1, quote) <= |s|
  {
  }

  lemma LiteralMoves(all: seq<byte>, n: nat, s: seq<byte>, i: nat, rust: bool)
    requires Holds(all, n, s) && i < |s| && StartsLiteral(s, i, rust)
    ensures var end := LiteralEnd(s, i + 1, s[i]);
            && MaskFrom(s, i, rust) == Blank(s[i..end]) + MaskFrom(s, end, rust)
            && MaskFrom(all, n + i, rust) == Blank(s[i..end]) + MaskFrom(all, n + end, rust)
  {
    EndIsAhead(s, i, s[i]);
    var end := LiteralEnd(s, i + 1, s[i]);
    LiteralStep(s, i, end, s[i..end], rust);
    LiteralIsThere(all, n, s, i, end, rust);
    hide StartsLiteral, LiteralEnd, Blank, MaskFrom, Holds;
    LiteralStep(all, n + i, n + end, s[i..end], rust);
  }

  lemma LiteralIsThere(all: seq<byte>, n: nat, s: seq<byte>, i: nat, end: nat, rust: bool)
    requires Holds(all, n, s) && i < end <= |s| && StartsLiteral(s, i, rust) && LiteralEnd(s, i + 1, s[i]) == end
    ensures n + end <= |all| && StartsLiteral(all, n + i, rust)
    ensures LiteralEnd(all, n + i + 1, all[n + i]) == n + end && all[n + i..n + end] == s[i..end]
  {
    StartMoves(all, n, s, i, rust);
    EndMoves(all, n, s, i + 1, s[i]);
    SliceMoves(all, n, s, i, end);
    assert all[n + i] == s[i];
  }

  lemma CodeMoves(all: seq<byte>, n: nat, s: seq<byte>, i: nat, rust: bool)
    requires Holds(all, n, s) && i < |s| && !StartsLiteral(s, i, rust)
    ensures MaskFrom(s, i, rust) == [s[i]] + MaskFrom(s, i + 1, rust)
    ensures MaskFrom(all, n + i, rust) == [s[i]] + MaskFrom(all, n + i + 1, rust)
  {
    StartMoves(all, n, s, i, rust);
    assert all[n + i] == s[i];
    hide StartsLiteral, LiteralEnd, Blank, Holds, MaskFrom;
    MaskStep(s, i, rust);
    MaskStep(all, n + i, rust);
  }

  lemma EndShifts(prefix: seq<byte>, s: seq<byte>, i: nat, quote: byte)
    ensures LiteralEnd(prefix + s, |prefix| + i, quote) == |prefix| + LiteralEnd(s, i, quote)
  {
    EndMoves(prefix + s, |prefix|, s, i, quote);
  }

  lemma RestShifts(prefix: seq<byte>, rest: seq<byte>, rust: bool)
    ensures MaskFrom(prefix + rest, |prefix|, rust) == Mask(rest, rust)
  {
    MaskMoves(prefix + rest, |prefix|, rest, 0, rust);
  }

  // ----- literals -----

  lemma PieceIsSkipped(piece: Piece, tail: seq<byte>, quote: byte)
    requires piece.Plain? ==> piece.b != quote && piece.b != 0x5C
    ensures LiteralEnd(Bytes(piece) + tail, 0, quote) == |Bytes(piece)| + LiteralEnd(tail, 0, quote)
  {
    var first := Bytes(piece);
    assert (first + tail)[0] == first[0];
    EndShifts(first, tail, 0, quote);
  }

  lemma {:induction false} ClosedEnd(pieces: seq<Piece>, quote: byte, rest: seq<byte>)
    requires StayInside(pieces, quote) && quote != 0x5C
    ensures LiteralEnd(Written(pieces) + ([quote] + rest), 0, quote) == |Written(pieces)| + 1
  {
    var closing := [quote] + rest;
    if pieces == [] {
      assert Written(pieces) + closing == closing;
    } else {
      ClosedEnd(pieces[1..], quote, rest);
      Regroup(Bytes(pieces[0]), Written(pieces[1..]), closing);
      hide LiteralEnd, Bytes;
      PieceIsSkipped(pieces[0], Written(pieces[1..]) + closing, quote);
    }
  }

  lemma {:induction false} OpenEnd(pieces: seq<Piece>, quote: byte, tail: seq<byte>)
    requires StayInside(pieces, quote) && quote != 0x5C && (tail == [] || tail == [0x5C])
    ensures LiteralEnd(Written(pieces) + tail, 0, quote) == |Written(pieces) + tail|
  {
    if pieces == [] {
      assert Written(pieces) + tail == tail;
    } else {
      OpenEnd(pieces[1..], quote, tail);
      Regroup(Bytes(pieces[0]), Written(pieces[1..]), tail);
      hide LiteralEnd, Bytes;
      PieceIsSkipped(pieces[0], Written(pieces[1..]) + tail, quote);
    }
  }

  // ----- the laws -----

  predicate IsQuoteByte(b: byte) {
    b == 0x22 || b == 0x27 || b == 0x60
  }

  /** In Rust, a single quote before these bytes names a lifetime. */
  predicate NamesLifetime(after: seq<byte>) {
    && after != []
    && (('A' as int <= after[0] <= 'Z' as int) || ('a' as int <= after[0] <= 'z' as int) || after[0] == '_' as int)
    && (|after| == 1 || after[1] != 0x27)
  }

  predicate OpensLiteral(b: byte, after: seq<byte>, rust: bool) {
    IsQuoteByte(b) && !(rust && b == 0x27 && NamesLifetime(after))
  }

  lemma OpensIsExact(b: byte, after: seq<byte>, rust: bool)
    ensures StartsLiteral([b] + after, 0, rust) <==> OpensLiteral(b, after, rust)
  {
    var s := [b] + after;
    assert forall k :: 0 <= k < |after| ==> s[k + 1] == after[k];
  }

  /** A byte of code, the quote of a lifetime included, is kept. */
  lemma CodeIsKept(b: byte, after: seq<byte>, rust: bool)
    requires !OpensLiteral(b, after, rust)
    ensures Mask([b] + after, rust) == [b] + Mask(after, rust)
  {
    OpensIsExact(b, after, rust);
    MaskStep([b] + after, 0, rust);
    hide MaskFrom, StartsLiteral, OpensLiteral, LiteralEnd;
    RestShifts([b], after, rust);
  }

  /** Masking from the start of a literal, given where it ends. */
  lemma MaskedUpToEnd(literal: seq<byte>, rest: seq<byte>, rust: bool)
    requires literal != [] && StartsLiteral(literal + rest, 0, rust)
    requires LiteralEnd(literal + rest, 1, literal[0]) == |literal|
    ensures Mask(literal + rest, rust) == Blank(literal) + Mask(rest, rust)
  {
    var s := literal + rest;
    hide MaskFrom, StartsLiteral, LiteralEnd, Blank;
    assert s[0] == literal[0] && s[0..|literal|] == literal;
    MaskStep(s, 0, rust);
    RestShifts(literal, rest, rust);
  }

  /** A literal is masked whole, with both quotes, and the text behind it on its own. */
  lemma LiteralIsMasked(quote: byte, pieces: seq<Piece>, rest: seq<byte>, rust: bool)
    requires StayInside(pieces, quote) && OpensLiteral(quote, Written(pieces) + ([quote] + rest), rust)
    ensures Mask([quote] + (Written(pieces) + ([quote] + rest)), rust)
         == Blank([quote] + (Written(pieces) + [quote])) + Mask(rest, rust)
  {
    var inside, literal := Written(pieces) + ([quote] + rest), [quote] + (Written(pieces) + [quote]);
    OpensIsExact(quote, inside, rust);
    ClosedEnd(pieces, quote, rest);
    EndShifts([quote], inside, 0, quote);
    hide Mask, StartsLiteral, OpensLiteral, LiteralEnd, Blank, Written, StayInside;
    assert [quote] + inside == literal + rest;
    MaskedUpToEnd(literal, rest, rust);
  }

  /** A literal that nothing closes is masked to the end, a last backslash included. */
  lemma OpenLiteralIsMasked(quote: byte, pieces: seq<Piece>, tail: seq<byte>, rust: bool)
    requires StayInside(pieces, quote) && (tail == [] || tail == [0x5C])
    requires OpensLiteral(quote, Written(pieces) + tail, rust)
    ensures Mask([quote] + (Written(pieces) + tail), rust) == Blank([quote] + (Written(pieces) + tail))
  {
    var inside := Written(pieces) + tail;
    var s := [quote] + inside;
    OpensIsExact(quote, inside, rust);
    OpenEnd(pieces, quote, tail);
    EndShifts([quote], inside, 0, quote);
    assert Mask([], rust) == [];
    hide Mask, StartsLiteral, OpensLiteral, LiteralEnd, Blank, Written, StayInside;
    assert s + [] == s && Blank(s) + [] == Blank(s);
    MaskedUpToEnd(s, [], rust);
  }
}
