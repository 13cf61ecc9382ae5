/** Appending the assignments that a local environment file lacks. */
module ReconcileEnv {
  import opened Wrappers
  import opened Text

  type Bytes = seq<byte>

  const LF: byte := 0x0A
  const CR: byte := 0x0D
  const TAB: byte := 0x09
  const SPACE: byte := 0x20
  const EQUALS: byte := 0x3D

  /** "export" */
  const EXPORT: Bytes := [0x65, 0x78, 0x70, 0x6F, 0x72, 0x74]

  // ----- lines -----

  predicate IsBreak(b: byte) {
    b == LF || b == CR
  }

  predicate IsLine(line: Bytes) {
    forall k :: 0 <= k < |line| ==> !IsBreak(line[k])
  }

  /** The position of the first line end, or the length when there is none. */
  function BreakIndex(s: Bytes): (i: nat)
    ensures i <= |s|
    ensures IsLine(s[..i])
    ensures i < |s| ==> IsBreak(s[i])
  {
    if s == [] || IsBreak(s[0]) then 0 else 1 + BreakIndex(s[1..])
  }

  /** The length of the line end at i: two for CR LF, otherwise one. */
  function BreakLength(s: Bytes, i: nat): (n: nat)
    requires i < |s|
    ensures 1 <= n <= 2 && i + n <= |s|
  {
    if s[i] == CR && i + 1 < |s| && s[i + 1] == LF then 2 else 1
  }

  /** Lines end with LF, CR or CR LF; what follows the last end is a line only when it is not empty. */
  function SplitLines(s: Bytes): seq<Bytes>
    decreases |s|
  {
    if s == [] then [] else [s[..BreakIndex(s)]] + SplitLines(AfterLine(s))
  }

  /** What follows the first line and its end. */
  function AfterLine(s: Bytes): (rest: Bytes)
    ensures s != [] ==> |rest| < |s|
  {
    var i := BreakIndex(s);
    if i == |s| then [] else s[i + BreakLength(s, i)..]
  }

  // ----- the assignment pattern -----

  predicate IsBlank(b: byte) {
    b == SPACE || b == TAB
  }

  predicate IsKeyStart(b: byte) {
    0x41 <= b <= 0x5A || 0x61 <= b <= 0x7A || b == 0x5F
  }

  predicate IsKeyByte(b: byte) {
    IsKeyStart(b) || 0x30 <= b <= 0x39
  }

  function SkipBlanks(s: Bytes): (r: Bytes)
    ensures |r| <= |s|
    ensures r == [] || !IsBlank(r[0])
  {
    if s != [] && IsBlank(s[0]) then SkipBlanks(s[1..]) else s
  }

  predicate AreKeyBytes(s: Bytes) {
    forall k :: 0 <= k < |s| ==> IsKeyByte(s[k])
  }

  function KeyRun(s: Bytes): (n: nat)
    ensures n <= |s|
    ensures AreKeyBytes(s[..n])
    ensures n < |s| ==> !IsKeyByte(s[n])
  {
    if s == [] || !IsKeyByte(s[0]) then 0 else 1 + KeyRun(s[1..])
  }

  predicate StartsWithEquals(s: Bytes) {
    s != [] && s[0] == EQUALS
  }

  /** A key, blanks and an equals sign. */
  function KeyAtStart(s: Bytes): Option<Bytes> {
    if s == [] || !IsKeyStart(s[0]) then None
    else
      var n := KeyRun(s);
      if StartsWithEquals(SkipBlanks(s[n..])) then Some(s[..n]) else None
  }

  predicate StartsWithExport(s: Bytes) {
    EXPORT <= s && |s| > |EXPORT| && IsBlank(s[|EXPORT|])
  }

  /** The optional `export` is taken first; without a key behind it, it may be the key itself. */
  function KeyOf(line: Bytes): Option<Bytes> {
    var s := SkipBlanks(line);
    if StartsWithExport(s) && KeyAtStart(SkipBlanks(s[|EXPORT|..])).Some? then KeyAtStart(SkipBlanks(s[|EXPORT|..]))
    else KeyAtStart(s)
  }

  // ----- assignments -----

  type Found = seq<(Bytes, Bytes)>

  predicate HasKey(found: Found, key: Bytes) {
    exists i :: 0 <= i < |found| && found[i].0 == key
  }

  /** The first line of each key, in order. */
  function AddLine(found: Found, line: Bytes): Found {
    var key := KeyOf(line);
    if key.None? || HasKey(found, key.value) then found else found + [(key.value, line)]
  }

  function AddLines(found: Found, lines: seq<Bytes>): Found
    decreases |lines|
  {
    if lines == [] then found else AddLines(AddLine(found, lines[0]), lines[1..])
  }

  function Assigned(source: Bytes): Found {
    AddLines([], SplitLines(source))
  }

  method Assignments(source: Bytes) returns (found: Found)
    ensures found == Assigned(source)
  {
    hide KeyOf, HasKey;
    found := [];
    var lines := SplitLines(source);
    for i := 0 to |lines|
      invariant AddLines(found, lines[i..]) == AddLines([], lines)
    {
      assert lines[i..][1..] == lines[i + 1..];
      var key := KeyOf(lines[i]);
      if key.Some? && !HasKey(found, key.value) {
        found := found + [(key.value, lines[i])];
      }
    }
  }

  /** The assignments of the example whose key the current file does not have. */
  function MissingFrom(example: Found, current: Found): Found {
    if example == [] then []
    else MissingFrom(example[..|example| - 1], current)
         + (if HasKey(current, example[|example| - 1].0) then [] else [example[|example| - 1]])
  }

  function LinesOf(found: Found): (r: seq<Bytes>)
    ensures |r| == |found| && forall i :: 0 <= i < |r| ==> r[i] == found[i].1
  {
    seq(|found|, i requires 0 <= i < |found| => found[i].1)
  }

  function KeysOf(found: Found): (r: seq<Bytes>)
    ensures |r| == |found| && forall i :: 0 <= i < |r| ==> r[i] == found[i].0
  {
    seq(|found|, i requires 0 <= i < |found| => found[i].0)
  }

  predicate NeedsBreak(current: Bytes) {
    current != [] && !IsBreak(current[|current| - 1])
  }

  function Addition(missing: Found): Bytes {
    Join(LinesOf(missing), [LF]) + [LF]
  }

  function Missing(example: Bytes, current: Bytes): Found {
    MissingFrom(Assigned(example), Assigned(current))
  }

  function Reconciled(example: Bytes, current: Bytes): Bytes {
    var missing := Missing(example, current);
    if missing == [] then current
    else (current + (if NeedsBreak(current) then [LF] else [])) + Addition(missing)
  }

  /** The keys the file assigns and the example no longer lists. */
  function StaleKeys(example: Bytes, current: Bytes): seq<Bytes> {
    KeysOf(MissingFrom(Assigned(current), Assigned(example)))
  }

  /** An environment file, which may not exist yet. */
  class EnvFile {
    var content: Option<Bytes>

    constructor (content: Option<Bytes>)
      ensures this.content == content
    {
      this.content := content;
    }

    function Current(): Bytes
      reads this
    {
      if content.Some? then content.value else []
    }

    /** Writes the file only when something is missing, and returns the keys that were added. */
    method Reconcile(example: Bytes) returns (added: seq<Bytes>)
      modifies this
      ensures Current() == Reconciled(example, old(Current()))
      ensures added == KeysOf(Missing(example, old(Current())))
      ensures added == [] ==> content == old(content)
    {
      hide Assigned;
      var current := if content.Some? then content.value else [];
      var currentKeys := Assignments(current);
      var all := Assignments(example);
      var missing: Found := [];
      for i := 0 to |all|
        invariant missing == MissingFrom(all[..i], currentKeys)
        invariant content == old(content)
      {
        assert all[..i + 1][..i] == all[..i];
        if !HasKey(currentKeys, all[i].0) {
          missing := missing + [all[i]];
        }
      }
      assert all[..|all|] == all;
      if missing == [] {
        return [];
      }
      var separator := if NeedsBreak(current) then [LF] else [];
      content := Some((current + separator) + Addition(missing));
      added := KeysOf(missing);
    }
  }

  // ----- splitting what was put together -----

  lemma {:induction false} BreakIndexOfLine(line: Bytes, rest: Bytes)
    requires IsLine(line)
    ensures BreakIndex(line + ([LF] + rest)) == |line|
  {
    if line != [] {
      BreakIndexOfLine(line[1..], rest);
      assert (line + ([LF] + rest))[1..] == line[1..] + ([LF] + rest);
    }
  }

  lemma FirstLine(line: Bytes, rest: Bytes)
    requires IsLine(line)
    ensures SplitLines(line + ([LF] + rest)) == [line] + SplitLines(rest)
  {
    var s := line + ([LF] + rest);
    BreakIndexOfLine(line, rest);
    Cut(line, [LF] + rest, |line|);
    hide BreakIndex, SplitLines, IsLine;
    assert line[..|line|] == line && s[|line| + 1..] == rest;
    assert AfterLine(s) == rest;
    SplitStep(s);
  }

  lemma {:induction false} SplitJoined(lines: seq<Bytes>)
    requires lines != [] && forall i :: 0 <= i < |lines| ==> IsLine(lines[i])
    ensures SplitLines(Join(lines, [LF]) + [LF]) == lines
  {
    hide IsLine, SplitLines, Join;
    var first, others := lines[0], lines[1..];
    assert lines == [first] + others;
    if others == [] {
      FirstLine(first, []);
      NoLines();
      assert lines == [first];
      JoinOne(first);
      assert first + ([LF] + []) == first + [LF];
    } else {
      SplitJoined(others);
      var rest := Join(others, [LF]);
      FirstLine(first, rest + [LF]);
      JoinCons(first, others, [LF]);
      assert (first + ([LF] + rest)) + [LF] == first + ([LF] + (rest + [LF]));
    }
  }

  lemma JoinOne(line: Bytes)
    ensures Join([line], [LF]) == line
  {
  }

  lemma {:induction false} BreakIndexOfSum(s: Bytes, t: Bytes)
    requires BreakIndex(s) < |s|
    ensures BreakIndex(s + t) == BreakIndex(s)
  {
    assert (s + t)[0] == s[0];
    if !IsBreak(s[0]) {
      assert (s + t)[1..] == s[1..] + t;
      BreakIndexOfSum(s[1..], t);
    }
  }

  lemma AfterLineOfSum(s: Bytes, t: Bytes)
    requires BreakIndex(s) < |s|
    requires t != [] && s[|s| - 1] == CR ==> t[0] != LF
    ensures AfterLine(s + t) == AfterLine(s) + t
  {
    hide BreakIndex, IsLine, IsBreak, BreakLength, AfterLine;
    BreakIndexOfSum(s, t);
    var i := BreakIndex(s);
    BreakLengthOfSum(s, t, i);
    var n := BreakLength(s, i);
    calc {
      AfterLine(s + t);
    == { AfterBreak(s + t, i, n); }
      (s + t)[i + n..];
    == { Cut(s, t, i + n); }
      s[i + n..] + t;
    == { AfterBreak(s, i, n); }
      AfterLine(s) + t;
    }
  }

  lemma AfterBreak(s: Bytes, i: nat, n: nat)
    requires i == BreakIndex(s) < |s| && n == BreakLength(s, i)
    ensures AfterLine(s) == s[i + n..]
  {
    hide BreakIndex, BreakLength, IsLine, IsBreak;
  }

  lemma BreakLengthOfSum(s: Bytes, t: Bytes, i: nat)
    requires i < |s|
    requires t != [] && s[|s| - 1] == CR ==> t[0] != LF
    ensures BreakLength(s + t, i) == BreakLength(s, i)
  {
    assert (s + t)[i] == s[i];
  }

  /** A line end inside s ends the first line of s + t too, unless t completes a CR LF. */
  lemma SplitStepOfSum(s: Bytes, t: Bytes)
    requires BreakIndex(s) < |s|
    requires t != [] && s[|s| - 1] == CR ==> t[0] != LF
    ensures SplitLines(s + t) == [s[..BreakIndex(s)]] + SplitLines(AfterLine(s) + t)
  {
    hide SplitLines, BreakIndex, AfterLine, IsLine, IsBreak;
    BreakIndexOfSum(s, t);
    AfterLineOfSum(s, t);
    Cut(s, t, BreakIndex(s));
    SplitStep(s + t);
  }

  lemma SplitStep(s: Bytes)
    requires s != []
    ensures SplitLines(s) == [s[..BreakIndex(s)]] + SplitLines(AfterLine(s))
  {
  }

  lemma BreakBeforeEnd(s: Bytes)
    requires s != [] && IsBreak(s[|s| - 1])
    ensures BreakIndex(s) < |s|
  {
  }

  /** A text that ends with a line end, unless that splits CR LF, can be cut there. */
  lemma {:induction false} SplitAfterBreak(s: Bytes, t: Bytes)
    requires s != [] ==> IsBreak(s[|s| - 1])
    requires s != [] && t != [] && s[|s| - 1] == CR ==> t[0] != LF
    ensures SplitLines(s + t) == SplitLines(s) + SplitLines(t)
    decreases |s|
  {
    hide SplitLines, BreakIndex, AfterLine, IsBreak;
    if s == [] {
      assert s + t == t;
      NoLines();
    } else {
      BreakBeforeEnd(s);
      SplitStepOfSum(s, t);
      SplitStep(s);
      var tail := AfterLine(s);
      if tail != [] {
        LastByteStays(s);
      }
      SplitAfterBreak(tail, t);
      Regroup([s[..BreakIndex(s)]], SplitLines(tail), SplitLines(t));
    }
  }

  lemma NoLines()
    ensures SplitLines([]) == []
  {
  }

  /** Ending the last line adds no line. */
  lemma {:induction false} EndLastLine(s: Bytes)
    requires s != [] && !IsBreak(s[|s| - 1])
    ensures SplitLines(s + [LF]) == SplitLines(s)
    decreases |s|
  {
    hide SplitLines, BreakIndex, AfterLine, IsLine;
    SplitStep(s);
    if BreakIndex(s) == |s| {
      OneLine(s);
      FirstLine(s, []);
      assert s + ([LF] + []) == s + [LF];
    } else {
      SplitStepOfSum(s, [LF]);
      BreakIsNotLast(s);
      EndLastLine(AfterLine(s));
    }
  }

  lemma OneLine(s: Bytes)
    requires s != [] && BreakIndex(s) == |s|
    ensures IsLine(s) && SplitLines(s) == [s] && SplitLines([]) == []
  {
    assert s[..|s|] == s;
    hide BreakIndex, IsLine;
    assert AfterLine(s) == [];
    NoLines();
  }

  lemma BreakIsNotLast(s: Bytes)
    requires BreakIndex(s) < |s| && !IsBreak(s[|s| - 1])
    ensures AfterLine(s) != [] && AfterLine(s)[|AfterLine(s)| - 1] == s[|s| - 1]
  {
    hide BreakIndex, IsLine;
    assert IsBreak(s[BreakIndex(s) + BreakLength(s, BreakIndex(s)) - 1]);
  }

  lemma LastByteStays(s: Bytes)
    requires AfterLine(s) != []
    ensures s != [] && AfterLine(s)[|AfterLine(s)| - 1] == s[|s| - 1]
  {
    hide BreakIndex, BreakLength, IsLine;
  }

  lemma {:induction false} SplitGivesLines(s: Bytes)
    ensures forall i :: 0 <= i < |SplitLines(s)| ==> IsLine(SplitLines(s)[i])
    decreases |s|
  {
    if s != [] {
      SplitGivesLines(AfterLine(s));
    }
  }

  lemma JoinedStart(lines: seq<Bytes>)
    requires lines != [] && lines[0] != [] && IsLine(lines[0])
    ensures Join(lines, [LF]) + [LF] != [] && (Join(lines, [LF]) + [LF])[0] != LF
  {
    assert (Join(lines, [LF]) + [LF])[0] == lines[0][0];
  }

  /** Appending lines with the separator the source chooses appends exactly these lines. */
  lemma AppendedLines(current: Bytes, lines: seq<Bytes>)
    requires lines != [] && lines[0] != [] && forall i :: 0 <= i < |lines| ==> IsLine(lines[i])
    ensures SplitLines((current + (if NeedsBreak(current) then [LF] else [])) + (Join(lines, [LF]) + [LF]))
         == SplitLines(current) + lines
  {
    hide SplitLines;
    SplitJoined(lines);
    JoinedStart(lines);
    if NeedsBreak(current) {
      EndLastLine(current);
      SplitAfterBreak(current + [LF], Join(lines, [LF]) + [LF]);
    } else {
      assert current + [] == current;
      SplitAfterBreak(current, Join(lines, [LF]) + [LF]);
    }
  }

  // ----- the assignments of the new file -----

  /** Keys are pairwise different, and each entry's line is a line that assigns its key. */
  ghost predicate WellFound(found: Found) {
    && (forall i, j :: 0 <= i < j < |found| ==> found[i].0 != found[j].0)
    && (forall i :: 0 <= i < |found| ==> KeyOf(found[i].1) == Some(found[i].0) && IsLine(found[i].1))
  }

  lemma {:induction false} AddLinesWellFound(found: Found, lines: seq<Bytes>)
    requires WellFound(found) && forall i :: 0 <= i < |lines| ==> IsLine(lines[i])
    ensures WellFound(AddLines(found, lines)) && found <= AddLines(found, lines)
    decreases |lines|
  {
    hide KeyOf, IsLine;
    if lines != [] {
      assert WellFound(AddLine(found, lines[0]));
      AddLinesWellFound(AddLine(found, lines[0]), lines[1..]);
    }
  }

  lemma AssignedWellFound(source: Bytes)
    ensures WellFound(Assigned(source))
  {
    SplitGivesLines(source);
    AddLinesWellFound([], SplitLines(source));
  }

  lemma {:induction false} MissingKeys(example: Found, current: Found, key: Bytes)
    ensures HasKey(MissingFrom(example, current), key) <==> HasKey(example, key) && !HasKey(current, key)
  {
    if example != [] {
      var front, last := example[..|example| - 1], example[|example| - 1];
      MissingKeys(front, current, key);
      HasKeyAppend(front, last, key);
      HasKeyAppend(MissingFrom(front, current), last, key);
      assert front + [last] == example;
      hide HasKey;
      assert MissingFrom(front, current) + [] == MissingFrom(front, current);
    }
  }

  lemma {:induction false} MissingWithin(example: Found, current: Found)
    ensures forall entry <- MissingFrom(example, current) :: entry in example && !HasKey(current, entry.0)
  {
    hide HasKey;
    if example != [] {
      MissingWithin(example[..|example| - 1], current);
    }
  }

  lemma WellFoundAppend(found: Found, entry: (Bytes, Bytes))
    requires WellFound(found) && !HasKey(found, entry.0) && KeyOf(entry.1) == Some(entry.0) && IsLine(entry.1)
    ensures WellFound(found + [entry])
  {
    hide KeyOf, IsLine;
  }

  lemma WellFoundFront(found: Found)
    requires WellFound(found) && found != []
    ensures var front, last := found[..|found| - 1], found[|found| - 1];
            WellFound(front) && !HasKey(front, last.0) && KeyOf(last.1) == Some(last.0) && IsLine(last.1)
  {
    hide KeyOf, IsLine;
  }

  lemma {:induction false} MissingWellFound(example: Found, current: Found)
    requires WellFound(example)
    ensures WellFound(MissingFrom(example, current))
  {
    hide KeyOf, IsLine, HasKey, WellFound;
    if example == [] {
      WellFoundNothing();
    } else {
      var front, last := example[..|example| - 1], example[|example| - 1];
      WellFoundFront(example);
      MissingWellFound(front, current);
      var before := MissingFrom(front, current);
      MissingKeys(front, current, last.0);
      WellFoundAppend(before, last);
      assert before + [] == before;
    }
  }

  lemma WellFoundNothing()
    ensures WellFound([])
  {
  }

  lemma MissingMeans(example: Found, current: Found)
    requires WellFound(example)
    ensures var missing := MissingFrom(example, current);
            && WellFound(missing)
            && (forall i :: 0 <= i < |missing| ==> missing[i] in example && !HasKey(current, missing[i].0))
            && (forall key :: HasKey(missing, key) <==> HasKey(example, key) && !HasKey(current, key))
  {
    hide HasKey, MissingFrom, WellFound;
    MissingWellFound(example, current);
    MissingWithin(example, current);
    forall key ensures HasKey(MissingFrom(example, current), key) <==> HasKey(example, key) && !HasKey(current, key) {
      MissingKeys(example, current, key);
    }
  }

  lemma HasKeyAppend(found: Found, entry: (Bytes, Bytes), key: Bytes)
    ensures HasKey(found + [entry], key) <==> HasKey(found, key) || key == entry.0
  {
    var all := found + [entry];
    if HasKey(found, key) {
      var i :| 0 <= i < |found| && found[i].0 == key;
      assert all[i].0 == key;
    }
    assert all[|found|] == entry;
  }

  lemma HasKeyConcat(left: Found, right: Found, key: Bytes)
    ensures HasKey(left + right, key) <==> HasKey(left, key) || HasKey(right, key)
  {
    var all := left + right;
    if HasKey(left, key) {
      var i :| 0 <= i < |left| && left[i].0 == key;
      assert all[i].0 == key;
    }
    if HasKey(right, key) {
      var i :| 0 <= i < |right| && right[i].0 == key;
      assert all[|left| + i].0 == key;
    }
  }

  lemma {:induction false} AddLinesConcat(found: Found, first: seq<Bytes>, second: seq<Bytes>)
    ensures AddLines(found, first + second) == AddLines(AddLines(found, first), second)
    decreases |first|
  {
    if first == [] {
      assert first + second == second;
    } else {
      assert (first + second)[1..] == first[1..] + second;
      AddLinesConcat(AddLine(found, first[0]), first[1..], second);
    }
  }

  /** The first entry is new, and leaves the others new. */
  lemma FirstIsNew(found: Found, missing: Found)
    requires missing != [] && WellFound(missing) && forall i :: 0 <= i < |missing| ==> !HasKey(found, missing[i].0)
    ensures AddLine(found, missing[0].1) == found + [missing[0]]
    ensures WellFound(missing[1..])
    ensures forall i :: 0 <= i < |missing[1..]| ==> !HasKey(found + [missing[0]], missing[1..][i].0)
  {
    hide KeyOf, IsLine, HasKey;
    var first, others := missing[0], missing[1..];
    forall i | 0 <= i < |others| ensures !HasKey(found + [first], others[i].0) {
      HasKeyAppend(found, first, others[i].0);
    }
  }

  lemma {:induction false} NewKeysAreAdded(found: Found, missing: Found)
    requires WellFound(missing) && forall i :: 0 <= i < |missing| ==> !HasKey(found, missing[i].0)
    ensures AddLines(found, LinesOf(missing)) == found + missing
    decreases |missing|
  {
    hide WellFound, HasKey, AddLine;
    if missing == [] {
      assert found + missing == found;
    } else {
      var first, others := missing[0], missing[1..];
      FirstIsNew(found, missing);
      assert LinesOf(missing)[1..] == LinesOf(others);
      NewKeysAreAdded(found + [first], others);
      assert (found + [first]) + others == found + missing;
    }
  }

  lemma KeyedLineIsNotEmpty(line: Bytes)
    requires KeyOf(line).Some?
    ensures line != []
  {
    NoKeyInNothing();
    hide KeyOf;
  }

  lemma NoKeyInNothing()
    ensures KeyOf([]).None?
  {
    assert SkipBlanks([]) == [];
    hide SkipBlanks, KeyRun;
    assert !StartsWithExport([]) && KeyAtStart([]).None?;
  }

  /** Reconciliation appends exactly the missing assignments, in the example's order. */
  lemma ReconciledAssignments(example: Bytes, current: Bytes)
    ensures Assigned(Reconciled(example, current)) == Assigned(current) + Missing(example, current)
  {
    var missing := Missing(example, current);
    AssignedWellFound(example);
    MissingMeans(Assigned(example), Assigned(current));
    if missing == [] {
      assert Assigned(current) + missing == Assigned(current);
    } else {
      var lines := LinesOf(missing);
      KeyedLineIsNotEmpty(lines[0]);
      hide KeyOf, IsLine, HasKey, MissingFrom;
      AppendedLines(current, lines);
      AddLinesConcat([], SplitLines(current), lines);
      NewKeysAreAdded(Assigned(current), missing);
    }
  }

  /**
    What reconciliation promises: the old content stays in front, the first assignment of every
    existing key is unchanged, afterwards every key of the example is assigned, no other key
    appears, and a second run adds nothing.
   */
  lemma ReconcileKeepsAndCompletes(example: Bytes, current: Bytes)
    ensures var r := Reconciled(example, current);
            && current <= r
            && Assigned(current) <= Assigned(r)
            && (forall key :: HasKey(Assigned(r), key)
                  <==> HasKey(Assigned(current), key) || HasKey(Assigned(example), key))
            && Missing(example, r) == []
            && Reconciled(example, r) == r
  {
    var r := Reconciled(example, current);
    ReconciledAssignments(example, current);
    AssignedWellFound(example);
    MissingMeans(Assigned(example), Assigned(current));
    forall key
      ensures HasKey(Assigned(r), key) <==> HasKey(Assigned(current), key) || HasKey(Assigned(example), key)
    {
      HasKeyConcat(Assigned(current), Missing(example, current), key);
    }
    forall i | 0 <= i < |Assigned(example)| ensures HasKey(Assigned(r), Assigned(example)[i].0) {
      assert HasKey(Assigned(example), Assigned(example)[i].0);
    }
    NothingMissing(Assigned(example), Assigned(r));
  }

  lemma {:induction false} NothingMissing(found: Found, current: Found)
    requires forall i :: 0 <= i < |found| ==> HasKey(current, found[i].0)
    ensures MissingFrom(found, current) == []
  {
    if found != [] {
      NothingMissing(found[..|found| - 1], current);
    }
  }

  lemma {:induction false} MissingFromSum(left: Found, right: Found, current: Found)
    ensures MissingFrom(left + right, current) == MissingFrom(left, current) + MissingFrom(right, current)
    decreases |right|
  {
    hide HasKey;
    if right == [] {
      assert left + right == left;
    } else {
      var front, last := right[..|right| - 1], right[|right| - 1];
      MissingFromSum(left, front, current);
      assert (left + right)[..|left + right| - 1] == left + front;
    }
  }

  /** Added keys are listed in the example, so the warnings about stale keys stay the same. */
  lemma StaleKeysStay(example: Bytes, current: Bytes)
    ensures StaleKeys(example, Reconciled(example, current)) == StaleKeys(example, current)
  {
    ReconciledAssignments(example, current);
    AssignedWellFound(example);
    MissingMeans(Assigned(example), Assigned(current));
    var missing := Missing(example, current);
    forall i | 0 <= i < |missing| ensures HasKey(Assigned(example), missing[i].0) {
      assert HasKey(missing, missing[i].0);
    }
    NothingMissing(missing, Assigned(example));
    MissingFromSum(Assigned(current), missing, Assigned(example));
    assert MissingFrom(Assigned(current), Assigned(example)) + [] == MissingFrom(Assigned(current), Assigned(example));
  }

  // ----- the pattern read as a pattern -----

  predicate AllBlank(s: Bytes) {
    forall k :: 0 <= k < |s| ==> IsBlank(s[k])
  }

  predicate IsKey(key: Bytes) {
    key != [] && IsKeyStart(key[0]) && AreKeyBytes(key)
  }

  /** Key, blanks, equals sign, anything. */
  ghost predicate ReadsAs(s: Bytes, key: Bytes) {
    IsKey(key) && exists blanks, rest :: AllBlank(blanks) && s == key + (blanks + ([EQUALS] + rest))
  }

  lemma {:induction false} SkipBlanksSkips(blanks: Bytes, s: Bytes)
    requires AllBlank(blanks) && (s == [] || !IsBlank(s[0]))
    ensures SkipBlanks(blanks + s) == s
  {
    if blanks == [] {
      assert blanks + s == s;
    } else {
      assert (blanks + s)[1..] == blanks[1..] + s;
      SkipBlanksSkips(blanks[1..], s);
    }
  }

  lemma {:induction false} KeyRunRuns(key: Bytes, s: Bytes)
    requires AreKeyBytes(key) && (s == [] || !IsKeyByte(s[0]))
    ensures KeyRun(key + s) == |key|
  {
    if key == [] {
      assert key + s == s;
    } else {
      assert (key + s)[1..] == key[1..] + s;
      KeyRunRuns(key[1..], s);
    }
  }

  lemma KeyAtStartReads(s: Bytes, key: Bytes)
    requires KeyAtStart(s) == Some(key)
    ensures ReadsAs(s, key)
  {
    KeyIsKey(s, key);
    var n := KeyRun(s);
    var after := SkipBlanks(s[n..]);
    BlanksBefore(s[n..]);
    hide KeyRun, SkipBlanks, IsKey, AllBlank, BlanksOf, KeyAtStart;
    assert after == [EQUALS] + after[1..];
    assert s == key + s[n..];
    ReadsBuilt(key, BlanksOf(s[n..]), after[1..]);
  }

  lemma KeyIsKey(s: Bytes, key: Bytes)
    requires KeyAtStart(s) == Some(key)
    ensures IsKey(key) && key == s[..KeyRun(s)] && StartsWithEquals(SkipBlanks(s[KeyRun(s)..]))
  {
    hide SkipBlanks;
  }

  function BlanksOf(s: Bytes): Bytes {
    s[..|s| - |SkipBlanks(s)|]
  }

  lemma {:induction false} BlanksBefore(s: Bytes)
    ensures AllBlank(BlanksOf(s)) && s == BlanksOf(s) + SkipBlanks(s)
  {
    if s != [] && IsBlank(s[0]) {
      BlanksBefore(s[1..]);
      assert BlanksOf(s) == [s[0]] + BlanksOf(s[1..]);
      assert s == [s[0]] + s[1..];
    }
  }

  lemma ReadsBuilt(key: Bytes, blanks: Bytes, rest: Bytes)
    requires IsKey(key) && AllBlank(blanks)
    ensures ReadsAs(key + (blanks + ([EQUALS] + rest)), key)
  {
  }

  lemma ReadsAtStart(s: Bytes, key: Bytes)
    requires ReadsAs(s, key)
    ensures KeyAtStart(s) == Some(key)
  {
    hide KeyRun, SkipBlanks;
    var blanks, rest :| AllBlank(blanks) && s == key + (blanks + ([EQUALS] + rest));
    var tail := blanks + ([EQUALS] + rest);
    assert !IsKeyByte(tail[0]);
    KeyRunRuns(key, tail);
    SkipBlanksSkips(blanks, [EQUALS] + rest);
    hide AllBlank, IsKeyByte;
    assert s[|key|..] == tail && s[..|key|] == key && s[0] == key[0];
  }

  /** With `export` and blanks before a key. */
  ghost predicate ReadsExported(s: Bytes, key: Bytes) {
    exists gap, t :: AllBlank(gap) && gap != [] && s == EXPORT + (gap + t) && ReadsAs(t, key)
  }

  /** The script's pattern: blanks, an optional `export` with blanks behind it, and an assignment. */
  ghost predicate Matches(line: Bytes, key: Bytes) {
    exists blanks, s :: AllBlank(blanks) && line == blanks + s && (ReadsAs(s, key) || ReadsExported(s, key))
  }

  lemma ExportedReads(s: Bytes, key: Bytes)
    requires StartsWithExport(s) && ReadsAs(SkipBlanks(s[|EXPORT|..]), key)
    ensures ReadsExported(s, key)
  {
    var tail := s[|EXPORT|..];
    assert s == EXPORT + tail;
    BlanksBefore(tail);
    assert BlanksOf(tail) != [] by { assert IsBlank(tail[0]); }
    hide AllBlank, SkipBlanks, ReadsAs, BlanksOf;
  }

  /** The two readings of a line exclude each other: behind the key `export` comes the equals sign, and no key. */
  lemma ReadsOnce(s: Bytes, key: Bytes)
    requires ReadsAs(s, key) && StartsWithExport(s)
    ensures KeyAtStart(SkipBlanks(s[|EXPORT|..])).None?
  {
    hide KeyRun, SkipBlanks, KeyAtStart;
    var blanks, rest :| AllBlank(blanks) && s == key + (blanks + ([EQUALS] + rest));
    var tail, behind := blanks + ([EQUALS] + rest), s[|EXPORT|..];
    assert !IsKeyByte(tail[0]);
    KeyRunRuns(key, tail);
    assert s == EXPORT + behind && !IsKeyByte(behind[0]);
    KeyRunRuns(EXPORT, behind);
    assert behind == tail;
    SkipBlanksSkips(blanks, [EQUALS] + rest);
    NoKeyAtEquals(rest);
  }

  lemma NoKeyAtEquals(rest: Bytes)
    ensures KeyAtStart([EQUALS] + rest).None?
  {
    hide KeyRun, SkipBlanks;
    assert ([EQUALS] + rest)[0] == EQUALS;
  }

  lemma FirstByte(s: Bytes, key: Bytes)
    requires ReadsAs(s, key) || ReadsExported(s, key)
    ensures s != [] && !IsBlank(s[0])
  {
    if ReadsAs(s, key) {
      assert s[0] == key[0];
    } else {
      assert s[0] == EXPORT[0];
    }
  }

  lemma ExportedIsFound(s: Bytes, key: Bytes)
    requires ReadsExported(s, key)
    ensures StartsWithExport(s) && KeyAtStart(SkipBlanks(s[|EXPORT|..])) == Some(key)
  {
    hide KeyAtStart, SkipBlanks, ReadsAs;
    var gap, t :| AllBlank(gap) && gap != [] && s == EXPORT + (gap + t) && ReadsAs(t, key);
    assert s[|EXPORT|..] == gap + t && EXPORT <= s && s[|EXPORT|] == gap[0];
    FirstByte(t, key);
    SkipBlanksSkips(gap, t);
    ReadsAtStart(t, key);
  }

  lemma MatchDecides(line: Bytes, key: Bytes)
    requires Matches(line, key)
    ensures KeyOf(line) == Some(key)
  {
    hide KeyAtStart, SkipBlanks, ReadsAs, ReadsExported, StartsWithExport, AllBlank;
    var blanks, s :| AllBlank(blanks) && line == blanks + s && (ReadsAs(s, key) || ReadsExported(s, key));
    FirstByte(s, key);
    SkipBlanksSkips(blanks, s);
    if ReadsExported(s, key) {
      ExportedIsFound(s, key);
    } else {
      ReadsAtStart(s, key);
      if StartsWithExport(s) {
        ReadsOnce(s, key);
      }
    }
  }

  lemma FoundMatches(line: Bytes, key: Bytes)
    requires KeyOf(line) == Some(key)
    ensures Matches(line, key)
  {
    hide KeyAtStart, SkipBlanks, ReadsAs, ReadsExported, AllBlank, BlanksOf;
    BlanksBefore(line);
    var s := SkipBlanks(line);
    if KeyAtStart(s) == Some(key) {
      KeyAtStartReads(s, key);
    } else {
      KeyAtStartReads(SkipBlanks(s[|EXPORT|..]), key);
      ExportedReads(s, key);
    }
  }

  /** The recognizer takes exactly the lines, and finds exactly the keys, that the pattern matches. */
  lemma KeyOfIsExact(line: Bytes, key: Bytes)
    ensures KeyOf(line) == Some(key) <==> Matches(line, key)
  {
    hide KeyOf, Matches;
    if KeyOf(line) == Some(key) {
      FoundMatches(line, key);
    }
    if Matches(line, key) {
      MatchDecides(line, key);
    }
  }
}
