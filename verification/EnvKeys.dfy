/**
  Which lines of one environment file assign a key that another file does not, and what the lines of
  a file are.
 */
module EnvKeys {
  import opened Wrappers
  import opened Text
  import opened ReconcileEnv

  // ----- lines -----

  lemma LineBefore(line: Bytes, end: Bytes, rest: Bytes)
    requires IsLine(line) && end != [] && IsBreak(end[0])
    requires BreakLength(line + (end + rest), |line|) == |end|
    ensures SplitLines(line + (end + rest)) == [line] + SplitLines(rest)
  {
    var s := line + (end + rest);
    BreakStops(line, end + rest);
    SplitStep(s);
    AfterBreak(s, |line|, |end|);
    hide IsLine, BreakIndex, SplitLines, AfterLine, BreakLength;
    assert s[..|line|] == line;
    assert s[|line| + |end|..] == rest;
  }

  lemma ReturnEnds(line: Bytes, rest: Bytes)
    requires IsLine(line) && (rest == [] || rest[0] != LF)
    ensures SplitLines(line + ([CR] + rest)) == [line] + SplitLines(rest)
  {
    var s := line + ([CR] + rest);
    assert s[|line|] == CR && (rest != [] ==> s[|line| + 1] == rest[0]);
    LineBefore(line, [CR], rest);
  }

  lemma BothEnd(line: Bytes, rest: Bytes)
    requires IsLine(line)
    ensures SplitLines(line + ([CR, LF] + rest)) == [line] + SplitLines(rest)
  {
    var s := line + ([CR, LF] + rest);
    assert s[|line|] == CR && s[|line| + 1] == LF;
    LineBefore(line, [CR, LF], rest);
  }

  /** A line ends at LF, at CR LF or at a CR alone, and the next one starts behind it. */
  lemma LineEnds(line: Bytes, rest: Bytes)
    requires IsLine(line)
    ensures SplitLines(line + ([LF] + rest)) == [line] + SplitLines(rest)
    ensures SplitLines(line + ([CR, LF] + rest)) == [line] + SplitLines(rest)
    ensures rest == [] || rest[0] != LF ==> SplitLines(line + ([CR] + rest)) == [line] + SplitLines(rest)
  {
    hide IsLine, SplitLines;
    FirstLine(line, rest);
    BothEnd(line, rest);
    if rest == [] || rest[0] != LF {
      ReturnEnds(line, rest);
    }
  }

  lemma {:induction false} BreakStops(line: Bytes, rest: Bytes)
    requires IsLine(line) && rest != [] && IsBreak(rest[0])
    ensures BreakIndex(line + rest) == |line|
  {
    if line == [] {
      assert line + rest == rest;
    } else {
      assert (line + rest)[1..] == line[1..] + rest;
      BreakStops(line[1..], rest);
    }
  }

  /** A last line needs no end, and nothing behind the last end is no line. */
  lemma LastLine(line: Bytes)
    requires IsLine(line)
    ensures SplitLines(line) == if line == [] then [] else [line]
  {
    if line == [] {
      NoLines();
    } else {
      assert BreakIndex(line) == |line|;
      OneLine(line);
    }
  }

  // ----- keys -----

  predicate AssignsKey(line: Bytes, key: Bytes) {
    KeyOf(line) == Some(key)
  }

  predicate AnyAssigns(lines: seq<Bytes>, key: Bytes) {
    exists i :: 0 <= i < |lines| && AssignsKey(lines[i], key)
  }

  /** Line i is the first of the lines to assign its key, and none of the others assigns it. */
  predicate IsLacking(lines: seq<Bytes>, others: seq<Bytes>, i: nat) {
    && i < |lines| && KeyOf(lines[i]).Some?
    && !AnyAssigns(lines[..i], KeyOf(lines[i]).value)
    && !AnyAssigns(others, KeyOf(lines[i]).value)
  }

  lemma AnyAssignsLast(lines: seq<Bytes>, last: Bytes, key: Bytes)
    ensures AnyAssigns(lines + [last], key) <==> AnyAssigns(lines, key) || AssignsKey(last, key)
  {
    var all := lines + [last];
    if AnyAssigns(lines, key) {
      var i :| 0 <= i < |lines| && AssignsKey(lines[i], key);
      assert AssignsKey(all[i], key);
    }
    assert all[|lines|] == last;
    hide AssignsKey;
  }

  lemma AddLast(lines: seq<Bytes>, last: Bytes)
    ensures AddLines([], lines + [last]) == AddLine(AddLines([], lines), last)
  {
    AddLinesConcat([], lines, [last]);
    hide AddLine;
    assert [last][1..] == [];
  }

  lemma {:induction false} HasKeyMeans(lines: seq<Bytes>, key: Bytes)
    ensures HasKey(AddLines([], lines), key) <==> AnyAssigns(lines, key)
  {
    if lines != [] {
      var front, last := lines[..|lines| - 1], lines[|lines| - 1];
      HasKeyMeans(front, key);
      hide AddLines;
      assert front + [last] == lines;
      AddLast(front, last);
      AnyAssignsLast(front, last, key);
      if KeyOf(last).Some? {
        HasKeyAppend(AddLines([], front), (KeyOf(last).value, last), key);
      }
      hide KeyOf, HasKey, AnyAssigns;
    }
  }

  /** The positions of the lacking lines, in order. */
  function Lacking(lines: seq<Bytes>, others: seq<Bytes>, n: nat): (r: seq<nat>)
    ensures forall k :: 0 <= k < |r| ==> r[k] < n && IsLacking(lines, others, r[k])
    ensures forall j, k :: 0 <= j < k < |r| ==> r[j] < r[k]
    ensures forall i :: 0 <= i < n && IsLacking(lines, others, i) ==> i in r
  {
    if n == 0 then []
    else
      var before := Lacking(lines, others, n - 1);
      if IsLacking(lines, others, n - 1) then before + [n - 1] else before
  }

  function EntryAt(lines: seq<Bytes>, i: nat): (Bytes, Bytes)
    requires i < |lines| && KeyOf(lines[i]).Some?
  {
    (KeyOf(lines[i]).value, lines[i])
  }

  function EntriesAt(lines: seq<Bytes>, others: seq<Bytes>, n: nat): (r: Found) {
    var positions := Lacking(lines, others, n);
    seq(|positions|, k requires 0 <= k < |positions| => EntryAt(lines, positions[k]))
  }

  lemma EntriesLast(lines: seq<Bytes>, others: seq<Bytes>, n: nat)
    requires n < |lines|
    ensures EntriesAt(lines, others, n + 1) == EntriesAt(lines, others, n)
                                               + (if IsLacking(lines, others, n) then [EntryAt(lines, n)] else [])
  {
    hide IsLacking, EntryAt;
  }

  lemma MissingLast(found: Found, entry: (Bytes, Bytes), current: Found)
    ensures MissingFrom(found + [entry], current)
         == MissingFrom(found, current) + (if HasKey(current, entry.0) then [] else [entry])
  {
    hide HasKey;
    assert (found + [entry])[..|found|] == found;
  }

  lemma {:induction false} MissingUpTo(lines: seq<Bytes>, others: seq<Bytes>, n: nat)
    requires n <= |lines|
    ensures MissingFrom(AddLines([], lines[..n]), AddLines([], others)) == EntriesAt(lines, others, n)
  {
    if n > 0 {
      var front, last := lines[..n - 1], lines[n - 1];
      MissingUpTo(lines, others, n - 1);
      hide AddLines, KeyOf, MissingFrom, EntriesAt, HasKey, AnyAssigns;
      EntriesLast(lines, others, n - 1);
      assert lines[..n] == front + [last];
      AddLast(front, last);
      var before := EntriesAt(lines, others, n - 1);
      assert before + [] == before;
      if KeyOf(last).Some? {
        HasKeyMeans(front, KeyOf(last).value);
        HasKeyMeans(others, KeyOf(last).value);
        MissingLast(AddLines([], front), (KeyOf(last).value, last), AddLines([], others));
      }
    }
  }

  /**
    What reconciling appends and what the warnings name are exactly the lines of one file that are
    the first to assign a key the other file does not assign, in the order of the lines.
   */
  lemma LackingIsExact(example: Bytes, current: Bytes)
    ensures var lines, others := SplitLines(example), SplitLines(current);
            var positions := Lacking(lines, others, |lines|);
            && |Missing(example, current)| == |positions|
            && forall k :: 0 <= k < |positions| ==> Missing(example, current)[k] == EntryAt(lines, positions[k])
    ensures var lines, others := SplitLines(current), SplitLines(example);
            var positions := Lacking(lines, others, |lines|);
            && |StaleKeys(example, current)| == |positions|
            && forall k :: 0 <= k < |positions| ==> StaleKeys(example, current)[k] == EntryAt(lines, positions[k]).0
  {
    var lines, others := SplitLines(example), SplitLines(current);
    assert lines[..|lines|] == lines && others[..|others|] == others;
    hide SplitLines, AddLines, MissingFrom, KeyOf;
    MissingUpTo(lines, others, |lines|);
    MissingUpTo(others, lines, |others|);
  }

  // ----- the bytes that are appended -----

  /** Each line with a line feed behind it. */
  function Ended(lines: seq<Bytes>): Bytes {
    if lines == [] then [] else Ended(lines[..|lines| - 1]) + (lines[|lines| - 1] + [LF])
  }

  lemma {:induction false} EndedCons(line: Bytes, lines: seq<Bytes>)
    ensures Ended([line] + lines) == (line + [LF]) + Ended(lines)
    decreases |lines|
  {
    var all := [line] + lines;
    if lines == [] {
      assert all[..0] == [] && Ended(all) == [] + (line + [LF]);
    } else {
      var front := lines[..|lines| - 1];
      EndedCons(line, front);
      assert all[..|lines|] == [line] + front;
    }
  }

  lemma {:induction false} JoinedIsEnded(lines: seq<Bytes>)
    requires lines != []
    ensures Join(lines, [LF]) + [LF] == Ended(lines)
  {
    var first, rest := lines[0], lines[1..];
    assert lines == [first] + rest;
    EndedCons(first, rest);
    if rest == [] {
      JoinOne(first);
    } else {
      JoinCons(first, rest, [LF]);
      JoinedIsEnded(rest);
      hide Join, Ended;
      assert (first + ([LF] + Join(rest, [LF]))) + [LF] == (first + [LF]) + (Join(rest, [LF]) + [LF]);
    }
  }

  /**
    The file keeps its bytes and gets each lacking line with a line feed behind it. One more line feed
    comes before them exactly when the file ends in the middle of a line.
   */
  lemma AppendedIsExact(example: Bytes, current: Bytes)
    ensures var added := Ended(LinesOf(Missing(example, current)));
            var r := Reconciled(example, current);
            if added == [] || current == [] || current[|current| - 1] == LF || current[|current| - 1] == CR
            then r == current + added else r == (current + [LF]) + added
  {
    var missing := Missing(example, current);
    hide Missing;
    if missing == [] {
      assert LinesOf(missing) == [];
      assert current + [] == current;
    } else {
      JoinedIsEnded(LinesOf(missing));
      hide Join, Ended;
      assert current + [] == current;
    }
  }
}
