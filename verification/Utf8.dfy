/** Well-formed UTF-8 (section 4 of RFC 3629). */
module Utf8 {
  import opened Text

  predicate IsAscii(b: byte) {
    b < 0x80
  }

  predicate IsTail(b: byte) {
    0x80 <= b <= 0xBF
  }

  /** The number of bytes of the character at the start, or 0 when there is none. */
  function CharacterLength(s: seq<byte>): (n: nat)
    ensures n <= |s| && n <= 4
    ensures n > 0 ==> (n == 1 <==> IsAscii(s[0]))
  {
    if s == [] then 0
    else if s[0] <= 0x7F then 1
    else if 0xC2 <= s[0] <= 0xDF && |s| >= 2 && IsTail(s[1]) then 2
    else if |s| >= 3 && IsTail(s[2])
         && ((s[0] == 0xE0 && 0xA0 <= s[1] <= 0xBF)
             || (0xE1 <= s[0] <= 0xEC && IsTail(s[1]))
             || (s[0] == 0xED && 0x80 <= s[1] <= 0x9F)
             || (0xEE <= s[0] <= 0xEF && IsTail(s[1]))) then 3
    else if |s| >= 4 && IsTail(s[2]) && IsTail(s[3])
         && ((s[0] == 0xF0 && 0x90 <= s[1] <= 0xBF)
             || (0xF1 <= s[0] <= 0xF3 && IsTail(s[1]))
             || (s[0] == 0xF4 && 0x80 <= s[1] <= 0x8F)) then 4
    else 0
  }

  lemma TailsInside(s: seq<byte>)
    ensures forall i :: 1 <= i < CharacterLength(s) ==> IsTail(s[i])
  {
  }

  predicate Valid(s: seq<byte>) {
    s == [] || (CharacterLength(s) > 0 && Valid(s[CharacterLength(s)..]))
  }

  lemma ValidStep(s: seq<byte>)
    requires s != []
    ensures Valid(s) <==> CharacterLength(s) > 0 && Valid(s[CharacterLength(s)..])
  {
  }

  lemma LengthOfPrefix(s: seq<byte>, t: seq<byte>)
    requires CharacterLength(s) > 0
    ensures CharacterLength(s + t) == CharacterLength(s)
  {
  }

  lemma {:induction false} ValidSum(s: seq<byte>, t: seq<byte>)
    requires Valid(s) && Valid(t)
    ensures Valid(s + t)
    decreases |s|
  {
    hide CharacterLength, Valid;
    if s == [] {
      assert s + t == t;
    } else {
      ValidStep(s);
      LengthOfPrefix(s, t);
      var n := CharacterLength(s);
      ValidSum(s[n..], t);
      ValidStep(s + t);
      assert (s + t)[n..] == s[n..] + t;
    }
  }

  lemma LengthWithin(s: seq<byte>, i: nat)
    requires CharacterLength(s) <= i <= |s|
    ensures CharacterLength(s) > 0 ==> CharacterLength(s[..i]) == CharacterLength(s)
  {
  }

  /** A byte that is not a tail starts a character, so the text can be cut before it. */
  lemma {:induction false} CutBefore(s: seq<byte>, i: nat)
    requires Valid(s) && i <= |s|
    requires i < |s| ==> !IsTail(s[i])
    ensures Valid(s[..i]) && Valid(s[i..])
    decreases |s|
  {
    if i == 0 {
      assert s[..0] == [] && s[0..] == s;
    } else {
      hide CharacterLength, Valid;
      ValidStep(s);
      var n := CharacterLength(s);
      CutIsOutside(s, i);
      CutBefore(s[n..], i - n);
      assert s[n..][..i - n] == s[..i][n..];
      assert s[n..][i - n..] == s[i..];
      LengthWithin(s, i);
      ValidStep(s[..i]);
    }
  }

  lemma CutIsOutside(s: seq<byte>, i: nat)
    requires 0 < i <= |s| && (i < |s| ==> !IsTail(s[i]))
    ensures CharacterLength(s) <= i
  {
    TailsInside(s);
    hide CharacterLength;
  }

  /** The text can also be cut after an ASCII byte. */
  lemma CutAfter(s: seq<byte>, i: nat)
    requires Valid(s) && i < |s| && IsAscii(s[i])
    ensures Valid(s[..i + 1]) && Valid(s[i + 1..])
  {
    CutBefore(s, i);
    AsciiIsValid([s[i]]);
    hide CharacterLength;
    var rest := s[i..];
    assert CharacterLength(rest) == 1 && rest[1..] == s[i + 1..];
    hide Valid;
    ValidSum(s[..i], [s[i]]);
    assert s[..i] + [s[i]] == s[..i + 1];
  }

  lemma {:induction false} AsciiIsValid(s: seq<byte>)
    requires forall i :: 0 <= i < |s| ==> IsAscii(s[i])
    ensures Valid(s)
  {
    if s != [] {
      AsciiIsValid(s[1..]);
    }
  }
}
