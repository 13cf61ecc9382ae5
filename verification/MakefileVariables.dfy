/** Expansion of Makefile variables in a source text. */
module MakefileVariables {
  import opened Wrappers
  import opened Text

  // ----- the meaning: expand token by token -----

  /** `Reference` is `$(name)` or, when `braced`, `${name}`; `Unclosed` takes the rest of the text. */
  datatype Token =
    | Literal(text: string)
    | Escape
    | Dollar
    | Reference(braced: bool, name: string)
    | Unclosed(rest: string)

  function Delimiter(open: char): char {
    if open == '(' then ')' else '}'
  }

  predicate Opens(suffix: string) {
    suffix != [] && (suffix[0] == '(' || suffix[0] == '{')
  }

  /** The token that a `$` before this text starts, and the text after it if the scan goes on. */
  function Next(suffix: string): (r: (Token, Option<string>))
    ensures r.1.Some? ==> |r.1.value| <= |suffix|
  {
    if suffix != [] && suffix[0] == '$' then (Escape, Some(suffix[1..]))
    else if !Opens(suffix) then (Dollar, Some(suffix))
    else
      var j := IndexOf(suffix[1..], Delimiter(suffix[0]));
      if j == |suffix| - 1 then (Unclosed(suffix), None)
      else (Reference(suffix[0] == '{', suffix[1..][..j]), Some(suffix[j + 2..]))
  }

  function Tokenize(s: string): seq<Token> {
    var i := IndexOf(s, '$');
    if i == |s| then [Literal(s)]
    else
      var (token, rest) := Next(s[i + 1..]);
      [Literal(s[..i])] + ([token] + (if rest.Some? then Tokenize(rest.value) else []))
  }

  function Render(token: Token): string {
    match token
    case Literal(text) => text
    case Escape => "$$"
    case Dollar => "$"
    case Reference(braced, name) => if braced then "${" + name + "}" else "$(" + name + ")"
    case Unclosed(rest) => "$" + rest
  }

  function RenderAll(tokens: seq<Token>): string {
    if tokens == [] then "" else Render(tokens[0]) + RenderAll(tokens[1..])
  }

  type Variables = map<string, string>

  /** A reference is replaced when its name is defined and not being expanded already. */
  predicate Replaces(token: Token, variables: Variables, expanding: set<string>) {
    token.Reference? && token.name in variables && token.name !in expanding
  }

  function ExpandToken(token: Token, variables: Variables, expanding: set<string>): string
    decreases variables.Keys - expanding, 0
  {
    if Replaces(token, variables, expanding)
    then ExpandTokens(Tokenize(variables[token.name]), variables, expanding + {token.name})
    else Render(token)
  }

  /** Terminates for every variable map: each replacement leaves fewer names to expand. */
  function ExpandTokens(tokens: seq<Token>, variables: Variables, expanding: set<string>): string
    decreases variables.Keys - expanding, 1 + |tokens|
  {
    if tokens == [] then ""
    else ExpandToken(tokens[0], variables, expanding) + ExpandTokens(tokens[1..], variables, expanding)
  }

  function Expand(source: string, variables: Variables, expanding: set<string>): string {
    ExpandTokens(Tokenize(source), variables, expanding)
  }

  // ----- the loop over the text -----

  function Rest(rest: Option<string>, variables: Variables, expanding: set<string>): string {
    if rest.Some? then Expand(rest.value, variables, expanding) else ""
  }

  lemma ExpandCons(token: Token, rest: seq<Token>, variables: Variables, expanding: set<string>)
    ensures ExpandTokens([token] + rest, variables, expanding)
         == ExpandToken(token, variables, expanding) + ExpandTokens(rest, variables, expanding)
  {
    hide ExpandToken;
    assert ([token] + rest)[1..] == rest;
  }

  lemma LiteralStays(text: string, variables: Variables, expanding: set<string>)
    ensures ExpandToken(Literal(text), variables, expanding) == text
  {
  }

  /** Expansion emits the text before the first `$`, then the token there, then the rest. */
  lemma ExpandContinues(s: string, variables: Variables, expanding: set<string>, resolved: string)
    requires IndexOf(s, '$') < |s|
    ensures var i := IndexOf(s, '$');
            var (token, rest) := Next(s[i + 1..]);
            resolved + Expand(s, variables, expanding) ==
              ((resolved + s[..i]) + ExpandToken(token, variables, expanding)) + Rest(rest, variables, expanding)
  {
    hide IndexOf, Next, ExpandTokens, ExpandToken;
    var i := IndexOf(s, '$');
    var (token, rest) := Next(s[i + 1..]);
    var tokens := if rest.Some? then Tokenize(rest.value) else [];
    assert Tokenize(s) == [Literal(s[..i])] + ([token] + tokens);
    assert ExpandTokens(tokens, variables, expanding) == Rest(rest, variables, expanding) by {
      NoTokens(variables, expanding);
    }
    hide Tokenize;
    ExpandCons(Literal(s[..i]), [token] + tokens, variables, expanding);
    ExpandCons(token, tokens, variables, expanding);
    LiteralStays(s[..i], variables, expanding);
    var expanded, continued := ExpandToken(token, variables, expanding), Rest(rest, variables, expanding);
    Regroup(resolved, s[..i], expanded + continued);
    Regroup(resolved + s[..i], expanded, continued);
  }

  lemma NoTokens(variables: Variables, expanding: set<string>)
    ensures ExpandTokens([], variables, expanding) == ""
  {
  }

  lemma ReferenceText(s: string, i: nat, j: nat)
    requires i + j + 2 < |s| && s[i] == '$' && (s[i + 1] == '(' || s[i + 1] == '{')
    requires s[i + 2..][j] == Delimiter(s[i + 1])
    ensures s[i..i + j + 3] == Render(Reference(s[i + 1] == '{', s[i + 2..][..j]))
  {
    var name, close := s[i + 2..][..j], s[i + 2..][j];
    assert s[i..i + j + 3] == [s[i], s[i + 1]] + name + [close];
    if s[i + 1] == '{' {
      assert [s[i], s[i + 1]] == "${" && [close] == "}";
    } else {
      assert [s[i], s[i + 1]] == "$(" && [close] == ")";
    }
  }

  /** Where the scan goes on after a `$`: the text to go on with, and what it emits on the way. */
  ghost predicate Continues(s: string, variables: Variables, expanding: set<string>, emitted: string, rest: string) {
    Expand(s, variables, expanding) == emitted + Expand(rest, variables, expanding)
  }

  lemma Emit(s: string, variables: Variables, expanding: set<string>, piece: string, rest: string)
    requires IndexOf(s, '$') < |s|
    requires var next := Next(s[IndexOf(s, '$') + 1..]);
             next.1 == Some(rest) && ExpandToken(next.0, variables, expanding) == piece
    ensures Continues(s, variables, expanding, s[..IndexOf(s, '$')] + piece, rest)
  {
    ExpandContinues(s, variables, expanding, "");
    hide IndexOf, Next, ExpandToken, Expand;
    var prefix := s[..IndexOf(s, '$')];
    assert "" + Expand(s, variables, expanding) == Expand(s, variables, expanding) && "" + prefix == prefix;
  }

  /** What was resolved before stays in front. */
  lemma Appended(s: string, variables: Variables, expanding: set<string>, prefix: string, piece: string, rest: string,
                 resolved: string)
    requires Continues(s, variables, expanding, prefix + piece, rest)
    ensures resolved + Expand(s, variables, expanding)
         == ((resolved + prefix) + piece) + Expand(rest, variables, expanding)
  {
    hide Expand;
    var after := Expand(rest, variables, expanding);
    Regroup(resolved, prefix + piece, after);
    Regroup(resolved, prefix, piece);
  }

  lemma EscapeStep(s: string, variables: Variables, expanding: set<string>)
    requires IndexOf(s, '$') < |s|
    requires var suffix := s[IndexOf(s, '$') + 1..]; suffix != [] && suffix[0] == '$'
    ensures Continues(s, variables, expanding, s[..IndexOf(s, '$')] + "$$", s[IndexOf(s, '$') + 1..][1..])
  {
    hide IndexOf, ExpandToken, Continues;
    EscapeKept(s[IndexOf(s, '$') + 1..], variables, expanding);
    Emit(s, variables, expanding, "$$", s[IndexOf(s, '$') + 1..][1..]);
  }

  lemma DollarStep(s: string, variables: Variables, expanding: set<string>)
    requires IndexOf(s, '$') < |s|
    requires var suffix := s[IndexOf(s, '$') + 1..]; !Opens(suffix) && !(suffix != [] && suffix[0] == '$')
    ensures Continues(s, variables, expanding, s[..IndexOf(s, '$')] + "$", s[IndexOf(s, '$') + 1..])
  {
    hide IndexOf, ExpandToken, Continues;
    DollarKept(s[IndexOf(s, '$') + 1..], variables, expanding);
    Emit(s, variables, expanding, "$", s[IndexOf(s, '$') + 1..]);
  }

  lemma UnclosedStep(s: string, variables: Variables, expanding: set<string>, resolved: string)
    requires IndexOf(s, '$') < |s|
    requires var suffix := s[IndexOf(s, '$') + 1..];
             Opens(suffix) && IndexOf(suffix[1..], Delimiter(suffix[0])) == |suffix| - 1
    ensures var i := IndexOf(s, '$');
            resolved + Expand(s, variables, expanding) == ((resolved + s[..i]) + "$") + s[i + 1..]
  {
    var prefix, suffix := s[..IndexOf(s, '$')], s[IndexOf(s, '$') + 1..];
    UnclosedKept(suffix, variables, expanding);
    hide IndexOf, Next, ExpandToken, Expand, Opens, Delimiter;
    ExpandContinues(s, variables, expanding, resolved);
    Regroup(resolved + prefix, "$", suffix);
    assert ((resolved + prefix) + ("$" + suffix)) + "" == (resolved + prefix) + ("$" + suffix);
  }

  lemma ReplacedStep(s: string, variables: Variables, expanding: set<string>, name: string, rest: string)
    requires IndexOf(s, '$') < |s| && Opens(s[IndexOf(s, '$') + 1..])
    requires var suffix := s[IndexOf(s, '$') + 1..];
             var j := IndexOf(suffix[1..], Delimiter(suffix[0]));
             j < |suffix| - 1 && name == suffix[1..][..j] && rest == suffix[j + 2..]
    requires name in variables && name !in expanding
    ensures Continues(s, variables, expanding,
                      s[..IndexOf(s, '$')] + Expand(variables[name], variables, expanding + {name}), rest)
  {
    hide IndexOf, ExpandToken, Expand, Continues;
    ReferenceReplaced(s[IndexOf(s, '$') + 1..], variables, expanding);
    Emit(s, variables, expanding, Expand(variables[name], variables, expanding + {name}), rest);
  }

  lemma KeptStep(s: string, variables: Variables, expanding: set<string>, name: string, rest: string)
    requires IndexOf(s, '$') < |s| && Opens(s[IndexOf(s, '$') + 1..])
    requires var suffix := s[IndexOf(s, '$') + 1..];
             var j := IndexOf(suffix[1..], Delimiter(suffix[0]));
             j < |suffix| - 1 && name == suffix[1..][..j] && rest == suffix[j + 2..]
    requires !(name in variables && name !in expanding)
    ensures var i := IndexOf(s, '$');
            i <= |s| - |rest| && Continues(s, variables, expanding, s[..i] + s[i..|s| - |rest|], rest)
  {
    hide IndexOf, ExpandToken, Expand, Continues;
    ReferenceKept(s, variables, expanding);
    Emit(s, variables, expanding, s[IndexOf(s, '$')..|s| - |rest|], rest);
  }

  /** Scans for `$`, marking each name while its value is expanded and unmarking it afterwards. */
  method ExpandMakefileVariables(source: string, variables: Variables, expanding: set<string>)
    returns (resolved: string, after: set<string>)
    ensures resolved == Expand(source, variables, expanding)
    ensures after == expanding
    decreases variables.Keys - expanding
  {
    hide Expand, Continues, IndexOf, Delimiter;
    resolved, after := "", expanding;
    var remaining := source;
    assert "" + Expand(source, variables, expanding) == Expand(source, variables, expanding);
    while IndexOf(remaining, '$') < |remaining|
      invariant after == expanding
      invariant resolved + Expand(remaining, variables, expanding) == Expand(source, variables, expanding)
      decreases |remaining|
    {
      var i := IndexOf(remaining, '$');
      var prefix, suffix := remaining[..i], remaining[i + 1..];
      ghost var before := resolved;
      resolved := resolved + prefix;
      if suffix != [] && suffix[0] == '$' {
        EscapeStep(remaining, variables, expanding);
        Appended(remaining, variables, expanding, prefix, "$$", suffix[1..], before);
        resolved := resolved + "$$";
        remaining := suffix[1..];
        continue;
      }
      if !Opens(suffix) {
        DollarStep(remaining, variables, expanding);
        Appended(remaining, variables, expanding, prefix, "$", suffix, before);
        resolved := resolved + "$";
        remaining := suffix;
        continue;
      }
      var j := IndexOf(suffix[1..], Delimiter(suffix[0]));
      if j == |suffix| - 1 {
        UnclosedStep(remaining, variables, expanding, before);
        resolved := resolved + "$";
        remaining := suffix;
        return resolved + remaining, after;
      }
      var name, rest := suffix[1..][..j], suffix[j + 2..];
      if name in variables && name !in after {
        after := after + {name};
        var value;
        value, after := ExpandMakefileVariables(variables[name], variables, after);
        ReplacedStep(remaining, variables, expanding, name, rest);
        Appended(remaining, variables, expanding, prefix, value, rest, before);
        resolved := resolved + value;
        after := after - {name};
      } else {
        KeptStep(remaining, variables, expanding, name, rest);
        var kept := remaining[|prefix|..|remaining| - |rest|];
        Appended(remaining, variables, expanding, prefix, kept, rest, before);
        resolved := resolved + kept;
      }
      remaining := rest;
    }
    NoDollar(remaining, variables, expanding);
    resolved := resolved + remaining;
  }

  lemma EscapeKept(suffix: string, variables: Variables, expanding: set<string>)
    requires suffix != [] && suffix[0] == '$'
    ensures Next(suffix) == (Escape, Some(suffix[1..])) && ExpandToken(Escape, variables, expanding) == "$$"
  {
  }

  lemma DollarKept(suffix: string, variables: Variables, expanding: set<string>)
    requires !Opens(suffix) && !(suffix != [] && suffix[0] == '$')
    ensures Next(suffix) == (Dollar, Some(suffix)) && ExpandToken(Dollar, variables, expanding) == "$"
  {
  }

  lemma UnclosedKept(suffix: string, variables: Variables, expanding: set<string>)
    requires Opens(suffix) && IndexOf(suffix[1..], Delimiter(suffix[0])) == |suffix| - 1
    ensures Next(suffix).1.None? && ExpandToken(Next(suffix).0, variables, expanding) == "$" + suffix
  {
    hide IndexOf;
  }

  lemma ReferenceReplaced(suffix: string, variables: Variables, expanding: set<string>)
    requires Opens(suffix) && IndexOf(suffix[1..], Delimiter(suffix[0])) < |suffix| - 1
    requires var name := suffix[1..][..IndexOf(suffix[1..], Delimiter(suffix[0]))];
             name in variables && name !in expanding
    ensures var j := IndexOf(suffix[1..], Delimiter(suffix[0]));
            var name := suffix[1..][..j];
            && Next(suffix).1 == Some(suffix[j + 2..])
            && ExpandToken(Next(suffix).0, variables, expanding)
                  == Expand(variables[name], variables, expanding + {name})
  {
    hide IndexOf;
  }

  lemma ReferenceKept(s: string, variables: Variables, expanding: set<string>)
    requires IndexOf(s, '$') < |s| && Opens(s[IndexOf(s, '$') + 1..])
    requires var suffix := s[IndexOf(s, '$') + 1..];
             var j := IndexOf(suffix[1..], Delimiter(suffix[0]));
             j < |suffix| - 1 && !(suffix[1..][..j] in variables && suffix[1..][..j] !in expanding)
    ensures var i := IndexOf(s, '$');
            var suffix := s[i + 1..];
            var rest := suffix[IndexOf(suffix[1..], Delimiter(suffix[0])) + 2..];
            && Next(suffix).1 == Some(rest)
            && ExpandToken(Next(suffix).0, variables, expanding) == s[i..|s| - |rest|]
  {
    hide IndexOf, Render, ExpandTokens;
    var i := IndexOf(s, '$');
    var suffix := s[i + 1..];
    var j := IndexOf(suffix[1..], Delimiter(suffix[0]));
    assert suffix[1..] == s[i + 2..];
    ReferenceText(s, i, j);
    assert |s| - |suffix[j + 2..]| == i + j + 3;
  }

  lemma NoDollar(s: string, variables: Variables, expanding: set<string>)
    requires IndexOf(s, '$') == |s|
    ensures Expand(s, variables, expanding) == s
  {
    assert Tokenize(s) == [Literal(s)];
    assert ExpandTokens([Literal(s)], variables, expanding) == s + ExpandTokens([], variables, expanding);
  }

  // ----- properties of the meaning -----

  lemma RenderCons(token: Token, rest: seq<Token>)
    ensures RenderAll([token] + rest) == Render(token) + RenderAll(rest)
  {
    assert ([token] + rest)[1..] == rest;
  }

  lemma NextRenders(suffix: string)
    ensures var (token, rest) := Next(suffix);
            "$" + suffix == Render(token) + (if rest.Some? then rest.value else "")
  {
    hide IndexOf;
    if Opens(suffix) {
      var j := IndexOf(suffix[1..], Delimiter(suffix[0]));
      if j < |suffix| - 1 {
        SuffixText(suffix, j);
        hide Render;
      }
    }
  }

  lemma SuffixText(suffix: string, j: nat)
    requires Opens(suffix) && j + 1 < |suffix| && suffix[1..][j] == Delimiter(suffix[0])
    ensures "$" + suffix == Render(Reference(suffix[0] == '{', suffix[1..][..j])) + suffix[j + 2..]
  {
    hide Render;
    var s := "$" + suffix;
    assert s[2..] == suffix[1..];
    ReferenceText(s, 0, j);
    assert s == s[..j + 3] + suffix[j + 2..];
  }

  /** The tokens are a splitting of the text. */
  lemma {:induction false} TokensRenderBack(s: string)
    ensures RenderAll(Tokenize(s)) == s
    decreases |s|
  {
    hide IndexOf, Next, Render;
    var i := IndexOf(s, '$');
    if i == |s| {
      RenderCons(Literal(s), []);
      assert Render(Literal(s)) == s by {
        RenderLiteral(s);
      }
      assert [Literal(s)] + [] == [Literal(s)];
    } else {
      var (token, rest) := Next(s[i + 1..]);
      var tokens := if rest.Some? then Tokenize(rest.value) else [];
      RenderCons(Literal(s[..i]), [token] + tokens);
      RenderCons(token, tokens);
      RenderLiteral(s[..i]);
      NextRenders(s[i + 1..]);
      if rest.Some? {
        TokensRenderBack(rest.value);
      }
      assert s == s[..i] + ("$" + s[i + 1..]);
    }
  }

  lemma RenderLiteral(text: string)
    ensures Render(Literal(text)) == text
  {
  }

  lemma {:induction false} UnreplacedTokens(tokens: seq<Token>, variables: Variables, expanding: set<string>)
    requires forall token <- tokens :: !Replaces(token, variables, expanding)
    ensures ExpandTokens(tokens, variables, expanding) == RenderAll(tokens)
  {
    if tokens != [] {
      assert tokens[0] in tokens && forall token <- tokens[1..] :: token in tokens;
      UnreplacedTokens(tokens[1..], variables, expanding);
    }
  }

  /** Escapes, lone dollars, and undefined, unclosed or re-entered references are kept as they stand. */
  lemma KeptVerbatim(source: string, variables: Variables, expanding: set<string>)
    requires forall token <- Tokenize(source) :: token.Reference?
               ==> token.name !in variables || token.name in expanding
    ensures Expand(source, variables, expanding) == source
  {
    UnreplacedTokens(Tokenize(source), variables, expanding);
    TokensRenderBack(source);
  }

  /** Without variables, expansion is the identity. */
  lemma NoVariables(source: string, expanding: set<string>)
    ensures Expand(source, map[], expanding) == source
  {
    KeptVerbatim(source, map[], expanding);
  }

  // ----- assignments -----

  datatype Assignment = Default | Immediate | Recursive

  predicate IsNameCharacter(c: char) {
    IsAsciiAlphanumeric(c) || c == '_' || c == '.' || c == '-'
  }

  predicate IsVariableName(name: string) {
    name != [] && forall k :: 0 <= k < |name| ==> IsNameCharacter(name[k])
  }

  function StripExport(line: string): string {
    TrimStart(if "export " <= line then line[|"export "|..] else line)
  }

  /** What is before the equals sign, without the mark of its kind. */
  function SplitKind(binding: string): (string, Assignment) {
    if binding == [] then (binding, Recursive)
    else
      var front, last := binding[..|binding| - 1], binding[|binding| - 1];
      if last == '?' then (front, Default)
      else if last == ':' then (front, Immediate)
      else (binding, Recursive)
  }

  /** The line without its comment, a leading `export` and the white space around them. */
  function Stripped(line: string): string {
    StripExport(Trim(line[..IndexOf(line, '#')]))
  }

  function AssignmentOf(stripped: string, i: nat): Option<(string, Assignment, string)>
    requires i < |stripped|
  {
    var (binding, kind) := SplitKind(TrimEnd(stripped[..i]));
    var name := Trim(binding);
    if !IsVariableName(name) then None else Some((name, kind, Trim(stripped[i + 1..])))
  }

  /** The name, kind and value that one line assigns, if it is an assignment. */
  function MakefileAssignment(line: string): Option<(string, Assignment, string)> {
    if line != [] && line[0] == '\t' then None
    else
      var stripped := Stripped(line);
      var i := IndexOf(stripped, '=');
      if i == |stripped| then None else AssignmentOf(stripped, i)
  }

  function StripReturn(line: string): string {
    if line != [] && line[|line| - 1] == '\r' then line[..|line| - 1] else line
  }

  /** The lines of a text: a final line end starts no further line, and a carriage return before it belongs to it. */
  function Lines(s: string): (r: seq<string>)
    ensures |r| <= |Split(s, '\n')|
    ensures forall i :: 0 <= i < |r| ==> r[i] == Split(s, '\n')[i] || r[i] == StripReturn(Split(s, '\n')[i])
  {
    var pieces := Split(s, '\n');
    var kept := if pieces[|pieces| - 1] == [] then pieces[..|pieces| - 1] else pieces;
    seq(|kept|, i requires 0 <= i < |kept| => if i < |pieces| - 1 then StripReturn(kept[i]) else kept[i])
  }

  function Define(variables: Variables, line: string): Variables {
    match MakefileAssignment(line)
    case None => variables
    case Some((name, kind, value)) =>
      if kind.Default? && name in variables then variables
      else variables[name := if kind.Immediate? then Expand(value, variables, {}) else value]
  }

  function DefineAll(lines: seq<string>): Variables {
    if lines == [] then map[] else Define(DefineAll(lines[..|lines| - 1]), lines[|lines| - 1])
  }

  function Resolved(source: string): string {
    Expand(source, DefineAll(Lines(source)), {})
  }

  method ResolveMakefileVariables(source: string) returns (resolved: string)
    ensures resolved == Resolved(source)
  {
    hide MakefileAssignment, Expand, Lines;
    var variables: Variables := map[];
    var lines := Lines(source);
    for i := 0 to |lines|
      invariant variables == DefineAll(lines[..i])
    {
      assert lines[..i + 1][..i] == lines[..i];
      assert DefineAll(lines[..i + 1]) == Define(variables, lines[i]);
      var assignment := MakefileAssignment(lines[i]);
      if assignment.None? {
        continue;
      }
      var (name, kind, value) := assignment.value;
      if kind.Default? && name in variables {
        continue;
      }
      if kind.Immediate? {
        var after;
        value, after := ExpandMakefileVariables(value, variables, {});
      }
      variables := variables[name := value];
    }
    assert lines[..|lines|] == lines;
    var after;
    resolved, after := ExpandMakefileVariables(source, variables, {});
  }

  // ----- line structure -----

  predicate OneLine(s: string) {
    '\n' !in s
  }

  predicate OneLineVariables(variables: Variables) {
    forall name <- variables :: OneLine(name) && OneLine(variables[name])
  }

  lemma OneLineParts(s: string, t: string)
    ensures OneLine(s + t) <==> OneLine(s) && OneLine(t)
  {
  }

  lemma TrimIsPart(s: string)
    requires OneLine(s)
    ensures OneLine(TrimStart(s)) && OneLine(TrimEnd(s)) && OneLine(Trim(s))
  {
  }

  lemma StrippedIsOneLine(line: string)
    requires OneLine(line)
    ensures OneLine(Stripped(line))
  {
    hide Trim, TrimStart, IndexOf;
    var uncommented := line[..IndexOf(line, '#')];
    assert OneLine(uncommented);
    TrimIsPart(uncommented);
    var trimmed := Trim(uncommented);
    TrimIsPart(trimmed);
    if "export " <= trimmed {
      assert OneLine(trimmed[|"export "|..]);
      TrimIsPart(trimmed[|"export "|..]);
    }
  }

  lemma NameIsOneLine(name: string)
    requires IsVariableName(name)
    ensures OneLine(name)
  {
  }

  lemma AssignmentParts(line: string)
    ensures var r := MakefileAssignment(line);
            r.Some? ==>
              && IsVariableName(r.value.0)
              && exists i :: 0 < i <= |Stripped(line)| && r.value.2 == Trim(Stripped(line)[i..])
  {
    hide Trim, TrimEnd, IndexOf, Stripped, IsVariableName;
    if MakefileAssignment(line).Some? {
      var stripped := Stripped(line);
      var i := IndexOf(stripped, '=') + 1;
      assert 0 < i <= |stripped| && MakefileAssignment(line).value.2 == Trim(stripped[i..]);
    }
  }

  lemma AssignmentIsOneLine(line: string)
    requires OneLine(line)
    ensures var r := MakefileAssignment(line); r.Some? ==> OneLine(r.value.0) && OneLine(r.value.2)
  {
    hide MakefileAssignment, Trim, Stripped, OneLine, IsVariableName, IndexOf;
    var r := MakefileAssignment(line);
    AssignmentParts(line);
    StrippedIsOneLine(line);
    if r.Some? {
      var stripped := Stripped(line);
      var i :| 0 < i <= |stripped| && r.value.2 == Trim(stripped[i..]);
      NameIsOneLine(r.value.0);
      TrimmedTail(stripped, i);
    }
  }

  lemma TrimmedTail(s: string, n: nat)
    requires OneLine(s) && n <= |s|
    ensures OneLine(Trim(s[n..]))
  {
    TailIsOneLine(s, n);
    hide OneLine, Trim;
    TrimIsPart(s[n..]);
  }

  lemma TailIsOneLine(s: string, n: nat)
    requires OneLine(s) && n <= |s|
    ensures OneLine(s[n..])
  {
  }

  lemma {:induction false} SplitHasNoSeparator(s: string, c: char)
    ensures forall i :: 0 <= i < |Split(s, c)| ==> c !in Split(s, c)[i]
    ensures c !in s ==> Split(s, c) == [s]
  {
    var k := IndexOf(s, c);
    IndexOfIsFirst(s, c);
    if k < |s| {
      SplitHasNoSeparator(s[k + 1..], c);
    }
  }

  lemma LinesAreOneLine(s: string)
    ensures forall i :: 0 <= i < |Lines(s)| ==> OneLine(Lines(s)[i])
  {
    SplitHasNoSeparator(s, '\n');
    hide Split, Lines;
    forall i | 0 <= i < |Lines(s)| ensures OneLine(Lines(s)[i]) {
      assert '\n' !in Split(s, '\n')[i];
    }
  }

  lemma {:induction false} ExpandTokensIsOneLine(tokens: seq<Token>, variables: Variables, expanding: set<string>)
    requires OneLine(RenderAll(tokens)) && OneLineVariables(variables)
    ensures OneLine(ExpandTokens(tokens, variables, expanding))
    decreases variables.Keys - expanding, |tokens|
  {
    if tokens != [] {
      var token := tokens[0];
      OneLineParts(Render(token), RenderAll(tokens[1..]));
      ExpandTokensIsOneLine(tokens[1..], variables, expanding);
      if Replaces(token, variables, expanding) {
        TokensRenderBack(variables[token.name]);
        ExpandTokensIsOneLine(Tokenize(variables[token.name]), variables, expanding + {token.name});
      }
    }
  }

  lemma ExpandIsOneLine(source: string, variables: Variables, expanding: set<string>)
    requires OneLine(source) && OneLineVariables(variables)
    ensures OneLine(Expand(source, variables, expanding))
  {
    TokensRenderBack(source);
    ExpandTokensIsOneLine(Tokenize(source), variables, expanding);
  }

  lemma {:induction false} DefinitionsAreOneLine(lines: seq<string>)
    requires forall i :: 0 <= i < |lines| ==> OneLine(lines[i])
    ensures OneLineVariables(DefineAll(lines))
  {
    hide OneLine, MakefileAssignment, Expand;
    if lines != [] {
      var before, line := DefineAll(lines[..|lines| - 1]), lines[|lines| - 1];
      DefinitionsAreOneLine(lines[..|lines| - 1]);
      AssignmentIsOneLine(line);
      if MakefileAssignment(line).Some? {
        ExpandIsOneLine(MakefileAssignment(line).value.2, before, {});
      }
    }
  }

  /** As many pieces between line ends, and the same piece wherever the first text has no `$`. */
  predicate Aligned(s: string, t: string) {
    var before, after := Split(s, '\n'), Split(t, '\n');
    |before| == |after| && forall i :: 0 <= i < |before| ==> '$' in before[i] || after[i] == before[i]
  }

  lemma SplitUnfolds(s: string, c: char)
    ensures var i := IndexOf(s, c);
            Split(s, c) == if i == |s| then [s] else [s[..i]] + Split(s[i + 1..], c)
  {
    hide IndexOf;
  }

  /** The pieces of two texts put together: the last piece of one continues with the first of the other. */
  function Merged(left: seq<string>, right: seq<string>): seq<string>
    requires left != [] && right != []
  {
    left[..|left| - 1] + ([left[|left| - 1] + right[0]] + right[1..])
  }

  lemma SplitOfSumWithout(s: string, t: string, c: char)
    requires IndexOf(s, c) == |s|
    ensures Split(s + t, c) == Merged([s], Split(t, c))
  {
    var k := IndexOf(t, c);
    IndexOfSum(s, t, c);
    SplitUnfolds(t, c);
    SplitUnfolds(s + t, c);
    hide Split, IndexOf;
    assert [s][..0] == [];
    if k < |t| {
      assert (s + t)[..|s| + k] == s + t[..k] && (s + t)[|s| + k + 1..] == t[k + 1..];
    }
  }

  lemma MergedCons(first: string, left: seq<string>, right: seq<string>)
    requires left != [] && right != []
    ensures Merged([first] + left, right) == [first] + Merged(left, right)
  {
    assert ([first] + left)[..|left|] == [first] + left[..|left| - 1];
  }

  lemma {:induction false} SplitOfSum(s: string, t: string, c: char)
    ensures Split(s + t, c) == Merged(Split(s, c), Split(t, c))
    decreases |s|
  {
    var i := IndexOf(s, c);
    SplitUnfolds(s, c);
    if i == |s| {
      SplitOfSumWithout(s, t, c);
    } else {
      hide Split, IndexOf, Merged;
      var rest := s[i + 1..];
      calc {
        Split(s + t, c);
      == { IndexOfSum(s, t, c); SplitUnfolds(s + t, c); Cut(s, t, i); Cut(s, t, i + 1); }
        [s[..i]] + Split(rest + t, c);
      == { SplitOfSum(rest, t, c); }
        [s[..i]] + Merged(Split(rest, c), Split(t, c));
      == { MergedCons(s[..i], Split(rest, c), Split(t, c)); }
        Merged(Split(s, c), Split(t, c));
      }
    }
  }

  lemma {:induction false} IndexOfSum(s: string, t: string, c: char)
    ensures IndexOf(s + t, c) == if IndexOf(s, c) < |s| then IndexOf(s, c) else |s| + IndexOf(t, c)
  {
    if s == [] {
      assert s + t == t;
    } else {
      assert (s + t)[1..] == s[1..] + t;
      IndexOfSum(s[1..], t, c);
    }
  }

  lemma AlignedSum(s1: string, t1: string, s2: string, t2: string)
    requires Aligned(s1, t1) && Aligned(s2, t2)
    ensures Aligned(s1 + s2, t1 + t2)
  {
    SplitOfSum(s1, s2, '\n');
    SplitOfSum(t1, t2, '\n');
    hide Split;
    var a, b := Split(s1, '\n'), Split(s2, '\n');
    var m := |a| - 1;
    assert '$' in a[m] + b[0] <==> '$' in a[m] || '$' in b[0];
  }

  lemma AlignedOneLine(s: string, t: string)
    requires OneLine(s) && OneLine(t) && ('$' in s || s == t)
    ensures Aligned(s, t)
  {
    SplitHasNoSeparator(s, '\n');
    SplitHasNoSeparator(t, '\n');
  }

  lemma {:induction false} ExpandTokensIsAligned(tokens: seq<Token>, variables: Variables, expanding: set<string>)
    requires OneLineVariables(variables)
    ensures Aligned(RenderAll(tokens), ExpandTokens(tokens, variables, expanding))
  {
    if tokens == [] {
      AlignedOneLine("", "");
    } else {
      var token := tokens[0];
      ExpandTokensIsAligned(tokens[1..], variables, expanding);
      var out := ExpandToken(token, variables, expanding);
      assert Aligned(Render(token), out) by {
        if Replaces(token, variables, expanding) {
          ExpandIsOneLine(variables[token.name], variables, expanding + {token.name});
          assert Render(token)[0] == '$';
          AlignedOneLine(Render(token), out);
        }
      }
      hide Aligned;
      AlignedSum(Render(token), out, RenderAll(tokens[1..]), ExpandTokens(tokens[1..], variables, expanding));
    }
  }

  /**
    Resolving keeps the line structure: the result has as many lines, and every line without `$` is
    unchanged and in the same place.
   */
  lemma ResolvedIsAligned(source: string)
    ensures Aligned(source, Resolved(source))
  {
    var lines := Lines(source);
    LinesAreOneLine(source);
    DefinitionsAreOneLine(lines);
    TokensRenderBack(source);
    ExpandTokensIsAligned(Tokenize(source), DefineAll(lines), {});
  }

  lemma PlainPiece(source: string, i: nat)
    requires i < |Lines(source)| && '$' !in Lines(source)[i]
    ensures '$' !in Split(source, '\n')[i]
  {
    hide Split;
    DollarSurvives(Split(source, '\n')[i]);
  }

  /**
    Walking the lines of both texts side by side, as the port checker does, drops no line without
    `$` and pairs it with itself.
   */
  lemma LinesPairUp(source: string, i: nat)
    requires i < |Lines(source)| && '$' !in Lines(source)[i]
    ensures i < |Lines(Resolved(source))| && Lines(Resolved(source))[i] == Lines(source)[i]
  {
    ResolvedIsAligned(source);
    PlainPiece(source, i);
    hide Resolved, Split;
  }

  /** The walk loses at most one line: the last one, when it has references and resolves to nothing. */
  lemma LinesLost(source: string)
    ensures var before, after := Lines(source), Lines(Resolved(source));
            |after| == |before| || (|before| == |after| + 1 && '$' in before[|after|])
  {
    ResolvedIsAligned(source);
    var before, after := Lines(source), Lines(Resolved(source));
    if |after| < |before| && '$' !in before[|after|] {
      LinesPairUp(source, |after|);
    }
    hide Resolved, Split;
  }

  lemma DollarSurvives(line: string)
    ensures '$' in line ==> '$' in StripReturn(line)
  {
    if line != [] && line[|line| - 1] == '\r' {
      assert line == StripReturn(line) + ['\r'];
    }
  }
}
