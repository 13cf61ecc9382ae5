/** Quoting of pre-build commands for the shell line of a Dockerfile. */
module ShellCommand {
  import opened Wrappers
  import opened Text

  const QUOTE: char := '\''

  /** Every single quote becomes the four characters that leave the quotes, write one, and enter again. */
  function Escaped(argument: string): string {
    if argument == [] then ""
    else (if argument[0] == QUOTE then "'\\''" else [argument[0]]) + Escaped(argument[1..])
  }

  function Quoted(argument: string): string {
    "'" + (Escaped(argument) + "'")
  }

  function QuotedAll(arguments: seq<string>): (r: seq<string>)
    ensures |r| == |arguments| && forall i :: 0 <= i < |r| ==> r[i] == Quoted(arguments[i])
  {
    seq(|arguments|, i requires 0 <= i < |arguments| => Quoted(arguments[i]))
  }

  function RenderedCommand(arguments: seq<string>): string {
    Join(QuotedAll(arguments), " ")
  }

  // ----- validation -----

  datatype PreBuildStep = PreBuildStep(command: seq<string>, outputs: seq<string>)

  datatype ImageError = EmptyCommand | UnsafeArgument | BadPath

  predicate IsUnsafe(c: char) {
    c == '\n' || c == '\r' || c == '\0'
  }

  predicate IsSafe(argument: string) {
    forall i :: 0 <= i < |argument| ==> !IsUnsafe(argument[i])
  }

  predicate NamesProgram(command: seq<string>) {
    command != [] && command[0] != []
  }

  predicate AllSafe(command: seq<string>) {
    forall i :: 0 <= i < |command| ==> IsSafe(command[i])
  }

  predicate IsPathCharacter(c: char) {
    IsAsciiAlphanumeric(c) || c == '/' || c == '.' || c == '_' || c == '-'
  }

  predicate StartsWithSlash(path: string) {
    path != [] && path[0] == '/'
  }

  predicate IsPlainPath(path: string) {
    && path != [] && path != "/"
    && (forall i :: 0 <= i < |path| ==> IsPathCharacter(path[i]))
    && ".." !in Split(path, '/')
  }

  function BuilderSource(path: string): string {
    if StartsWithSlash(path) then path else "/workspace/" + path
  }

  function BuilderSources(paths: seq<string>): (r: seq<string>)
    ensures |r| == |paths| && forall i :: 0 <= i < |r| ==> r[i] == BuilderSource(paths[i])
  {
    seq(|paths|, i requires 0 <= i < |paths| => BuilderSource(paths[i]))
  }

  predicate IsValidStep(step: PreBuildStep) {
    NamesProgram(step.command) && AllSafe(step.command) && forall i :: 0 <= i < |step.outputs|
                                                             ==> IsPlainPath(step.outputs[i])
  }

  function AllOutputs(steps: seq<PreBuildStep>): seq<string> {
    if steps == [] then [] else AllOutputs(steps[..|steps| - 1]) + BuilderSources(steps[|steps| - 1].outputs)
  }

  lemma NoOutputs(steps: seq<PreBuildStep>)
    ensures AllOutputs(steps[..0]) == []
  {
  }

  lemma OutputsStep(steps: seq<PreBuildStep>, i: nat)
    requires i < |steps|
    ensures AllOutputs(steps[..i + 1]) == AllOutputs(steps[..i]) + BuilderSources(steps[i].outputs)
    ensures AllOutputs(steps[..i]) + BuilderSources(steps[i].outputs[..0]) == AllOutputs(steps[..i])
  {
    assert steps[..i + 1][..i] == steps[..i];
    assert BuilderSources(steps[i].outputs[..0]) == [];
  }

  lemma SourcesStep(paths: seq<string>, k: nat)
    requires k < |paths|
    ensures BuilderSources(paths[..k + 1]) == BuilderSources(paths[..k]) + [BuilderSource(paths[k])]
  {
    hide BuilderSource;
  }

  /** Checks every step and collects the outputs, stopping at the first that is refused. */
  method ValidatedOutputs(steps: seq<PreBuildStep>) returns (r: Result<seq<string>, ImageError>)
    ensures r.Success? <==> forall i :: 0 <= i < |steps| ==> IsValidStep(steps[i])
    ensures r.Success? ==> r.value == AllOutputs(steps)
  {
    hide IsPlainPath, NamesProgram, AllSafe, BuilderSource, BuilderSources, AllOutputs;
    NoOutputs(steps);
    var outputs: seq<string> := [];
    for i := 0 to |steps|
      invariant forall k :: 0 <= k < i ==> IsValidStep(steps[k])
      invariant outputs == AllOutputs(steps[..i])
    {
      var step := steps[i];
      if !NamesProgram(step.command) {
        return Failure(EmptyCommand);
      }
      if !AllSafe(step.command) {
        return Failure(UnsafeArgument);
      }
      OutputsStep(steps, i);
      for k := 0 to |step.outputs|
        invariant forall j :: 0 <= j < k ==> IsPlainPath(step.outputs[j])
        invariant outputs == AllOutputs(steps[..i]) + BuilderSources(step.outputs[..k])
      {
        if !IsPlainPath(step.outputs[k]) {
          return Failure(BadPath);
        }
        SourcesStep(step.outputs, k);
        outputs := outputs + [BuilderSource(step.outputs[k])];
      }
      assert step.outputs[..|step.outputs|] == step.outputs;
    }
    assert steps[..|steps|] == steps;
    r := Success(outputs);
  }

  // ----- how a shell reads the line back -----

  datatype Mode = Between | InWord | InQuotes

  /** Characters whose meaning outside quotes needs more than the two quoting rules. */
  predicate IsSpecial(c: char) {
    c in "|&;<>()$`\"*?[#~=%{}!\n"
  }

  function Prepend(word: string, fields: Option<seq<string>>): Option<seq<string>> {
    if fields.None? then None else Some([word] + fields.value)
  }

  /**
    Splits the text into fields by the rules of sections 2.2.1 and 2.2.2 of the POSIX Shell Command
    Language: a backslash keeps the next character, single quotes keep everything up to the next
    one, and unquoted blanks end a field. None when the text needs other rules.
   */
  function Fields(s: string, mode: Mode, word: string): Option<seq<string>>
    decreases |s|
  {
    if s == [] then
      match mode
      case Between => Some([])
      case InWord => Some([word])
      case InQuotes => None
    else if mode.InQuotes? then
      if s[0] == QUOTE then Fields(s[1..], InWord, word) else Fields(s[1..], InQuotes, word + [s[0]])
    else if s[0] == ' ' || s[0] == '\t' then
      if mode.Between? then Fields(s[1..], Between, "") else Prepend(word, Fields(s[1..], Between, ""))
    else if s[0] == QUOTE then Fields(s[1..], InQuotes, word)
    else if s[0] == '\\' then
      if |s| == 1 || s[1] == '\n' then None else Fields(s[2..], InWord, word + [s[1]])
    else if IsSpecial(s[0]) then None
    else Fields(s[1..], InWord, word + [s[0]])
  }

  lemma EscapedStep(argument: string, rest: string)
    requires argument != []
    ensures var c := argument[0];
            Escaped(argument) + rest == (if c == QUOTE then "'\\''" else [c]) + (Escaped(argument[1..]) + rest)
  {
  }

  lemma {:induction false} EscapedReadsBack(argument: string, rest: string, word: string)
    ensures Fields(Escaped(argument) + ("'" + rest), InQuotes, word) == Fields(rest, InWord, word + argument)
  {
    if argument == [] {
      assert Escaped(argument) + ("'" + rest) == "'" + rest;
      assert ("'" + rest)[1..] == rest && word + argument == word;
    } else {
      hide Fields, Escaped;
      var c := argument[0];
      var tail := Escaped(argument[1..]) + ("'" + rest);
      calc {
        Fields(Escaped(argument) + ("'" + rest), InQuotes, word);
      == { EscapedStep(argument, "'" + rest); CharacterReadsBack(c, tail, word); }
        Fields(tail, InQuotes, word + [c]);
      == { EscapedReadsBack(argument[1..], rest, word + [c]); }
        Fields(rest, InWord, (word + [c]) + argument[1..]);
      == { assert (word + [c]) + argument[1..] == word + argument; }
        Fields(rest, InWord, word + argument);
      }
    }
  }

  lemma CharacterReadsBack(c: char, tail: string, word: string)
    ensures Fields((if c == QUOTE then "'\\''" else [c]) + tail, InQuotes, word) == Fields(tail, InQuotes, word + [c])
  {
    hide Fields;
    if c == QUOTE {
      QuoteReadsBack(tail, word);
    } else {
      PlainReadsBack(c, tail, word);
    }
  }

  lemma PlainReadsBack(c: char, tail: string, word: string)
    requires c != QUOTE
    ensures Fields([c] + tail, InQuotes, word) == Fields(tail, InQuotes, word + [c])
  {
    assert ([c] + tail)[1..] == tail;
  }

  lemma QuoteReadsBack(tail: string, word: string)
    ensures Fields("'\\''" + tail, InQuotes, word) == Fields(tail, InQuotes, word + [QUOTE])
  {
    var s := "'\\''" + tail;
    assert Fields(s, InQuotes, word) == Fields(s[1..], InWord, word);
    assert s[1..][2..] == s[3..];
    assert Fields(s[1..], InWord, word) == Fields(s[3..], InWord, word + [QUOTE]);
    assert s[3..][1..] == tail;
  }

  lemma CommandStep(arguments: seq<string>)
    requires arguments != []
    ensures var rest := if |arguments| == 1 then "" else " " + RenderedCommand(arguments[1..]);
            RenderedCommand(arguments) == "'" + (Escaped(arguments[0]) + ("'" + rest))
  {
    hide Escaped;
    assert QuotedAll(arguments)[1..] == QuotedAll(arguments[1..]);
  }

  lemma {:induction false} ArgumentsReadBack(arguments: seq<string>)
    ensures Fields(RenderedCommand(arguments), Between, "") == Some(arguments)
    decreases |arguments|
  {
    if arguments != [] {
      var first, others := arguments[0], arguments[1..];
      var rest := if others == [] then "" else " " + RenderedCommand(others);
      CommandStep(arguments);
      assert ("'" + (Escaped(first) + ("'" + rest)))[1..] == Escaped(first) + ("'" + rest);
      EscapedReadsBack(first, rest, "");
      hide Escaped, RenderedCommand;
      assert "" + first == first && arguments == [first] + others;
      if others == [] {
        assert arguments == [first];
      } else {
        assert (" " + RenderedCommand(others))[1..] == RenderedCommand(others);
        ArgumentsReadBack(others);
      }
    }
  }

  /** The shell reads back exactly the original argument list, empty arguments and quotes included. */
  lemma QuotingRoundTrip(arguments: seq<string>)
    ensures Fields(RenderedCommand(arguments), Between, "") == Some(arguments)
  {
    ArgumentsReadBack(arguments);
  }

  lemma {:induction false} EscapedCharacters(argument: string, c: char)
    requires c != QUOTE && c != '\\'
    ensures c in Escaped(argument) <==> c in argument
  {
    if argument != [] {
      EscapedCharacters(argument[1..], c);
      assert argument == [argument[0]] + argument[1..];
      assert c in argument <==> c == argument[0] || c in argument[1..];
      assert c !in "'\\''";
    }
  }

  lemma {:induction false} RenderedCharacters(arguments: seq<string>, c: char)
    requires c != QUOTE && c != '\\' && c != ' '
    ensures c in RenderedCommand(arguments) <==> exists i :: 0 <= i < |arguments| && c in arguments[i]
    decreases |arguments|
  {
    if arguments != [] {
      var others := arguments[1..];
      EscapedCharacters(arguments[0], c);
      RenderedCharacters(others, c);
      assert QuotedAll(arguments)[1..] == QuotedAll(others);
      assert c in Quoted(arguments[0]) <==> c in arguments[0];
      assert RenderedCommand(arguments) == Quoted(arguments[0]) + if others == [] then ""
                                                                  else " " + RenderedCommand(others);
      assert forall i :: 0 <= i < |others| ==> others[i] == arguments[i + 1];
      assert forall i :: 1 <= i < |arguments| ==> arguments[i] == others[i - 1];
    }
  }

  lemma SafeMeans(s: string)
    ensures IsSafe(s) <==> '\n' !in s && '\r' !in s && '\0' !in s
  {
    if '\n' !in s && '\r' !in s && '\0' !in s {
      assert forall i :: 0 <= i < |s| ==> s[i] in s;
    }
  }

  /**
    The validation is exactly what keeps the rendered command on one Dockerfile line: it holds no line
    end and no zero character exactly when all arguments pass.
   */
  lemma RenderedIsSafe(arguments: seq<string>)
    ensures AllSafe(arguments)
            <==> var s := RenderedCommand(arguments); '\n' !in s && '\r' !in s && '\0' !in s
  {
    hide RenderedCommand;
    RenderedCharacters(arguments, '\n');
    RenderedCharacters(arguments, '\r');
    RenderedCharacters(arguments, '\0');
    forall i | 0 <= i < |arguments|
      ensures IsSafe(arguments[i]) <==> '\n' !in arguments[i] && '\r' !in arguments[i] && '\0' !in arguments[i] {
      SafeMeans(arguments[i]);
    }
    hide IsSafe;
  }

  // ----- plain paths -----

  /** Two dots that make up a whole part of the path. */
  predicate IsUpAt(path: string, i: nat) {
    && i + 2 <= |path| && path[i] == '.' && path[i + 1] == '.'
    && (i == 0 || path[i - 1] == '/')
    && (i + 2 == |path| || path[i + 2] == '/')
  }

  lemma {:induction false} UpIsAPart(path: string)
    ensures ".." in Split(path, '/') <==> exists i: nat :: IsUpAt(path, i)
    decreases |path|
  {
    var k := IndexOf(path, '/');
    IndexOfIsFirst(path, '/');
    var first := path[..k];
    assert first == ".." <==> IsUpAt(path, 0);
    if k == |path| {
      assert Split(path, '/') == [path] && first == path;
      forall i: nat | IsUpAt(path, i) ensures i == 0 {
      }
    } else {
      var rest := path[k + 1..];
      UpIsAPart(rest);
      assert Split(path, '/') == [first] + Split(rest, '/');
      hide Split, IndexOf;
      forall i: nat | IsUpAt(rest, i) ensures IsUpAt(path, k + 1 + i) {
      }
      forall i: nat | IsUpAt(path, i) && i > 0 ensures i > k && IsUpAt(rest, i - (k + 1)) {
        assert path[i - 1] == '/';
      }
    }
  }

  /**
    A plain path is not empty, is not the root, has only letters, digits, slashes, dots, underscores
    and dashes, and nowhere goes up.
   */
  lemma PlainPathIsExact(path: string)
    ensures IsPlainPath(path)
            <==> && path != "" && path != "/" && !(exists i: nat :: IsUpAt(path, i))
                 && forall c <- path :: c in UPPER || c in LOWER || c in DIGITS || c in "/._-"
  {
    UpIsAPart(path);
    forall c: char
      ensures IsPathCharacter(c) <==> c in UPPER || c in LOWER || c in DIGITS || c in "/._-" {
      InRanges(c);
      hide UPPER, LOWER, DIGITS;
    }
    hide UPPER, LOWER, DIGITS, IsPathCharacter, IsUpAt, Split;
    if forall c <- path :: IsPathCharacter(c) {
      assert forall i :: 0 <= i < |path| ==> path[i] in path;
    }
  }

  /** The builder's own prefix adds two parts, neither of them `..`. */
  lemma SourceParts(path: string)
    ensures Split("/workspace/" + path, '/') == [""] + (["workspace"] + Split(path, '/'))
  {
    var rest := "workspace" + (['/'] + path);
    assert "/workspace/" + path == "" + (['/'] + rest);
    hide Split;
    SplitFirst("", '/', rest);
    SplitFirst("workspace", '/', path);
  }

  lemma SourceCharacters(path: string)
    requires forall i :: 0 <= i < |path| ==> IsPathCharacter(path[i])
    ensures forall i :: 0 <= i < |"/workspace/" + path| ==> IsPathCharacter(("/workspace/" + path)[i])
  {
    var prefix := "/workspace/";
    assert forall i :: 0 <= i < |prefix| ==> IsPathCharacter(prefix[i]);
    hide IsPathCharacter;
  }

  lemma SourceIsPlain(path: string)
    requires IsPlainPath(path)
    ensures IsPlainPath(BuilderSource(path))
  {
    hide Split, IsPathCharacter;
    if !StartsWithSlash(path) {
      SourceParts(path);
      SourceCharacters(path);
    }
  }

  /**
    Every collected output is an absolute path, and for valid steps a plain one: neither empty nor
    the root, of plain characters, and without a `..` part.
   */
  lemma {:induction false} OutputsAreAbsolute(steps: seq<PreBuildStep>)
    ensures forall i :: 0 <= i < |AllOutputs(steps)| ==> StartsWithSlash(AllOutputs(steps)[i])
    ensures (forall i :: 0 <= i < |steps| ==> IsValidStep(steps[i]))
            ==> forall i :: 0 <= i < |AllOutputs(steps)| ==> IsPlainPath(AllOutputs(steps)[i])
  {
    if steps != [] {
      var front, last := steps[..|steps| - 1], steps[|steps| - 1];
      OutputsAreAbsolute(front);
      hide IsPlainPath;
      if forall i :: 0 <= i < |steps| ==> IsValidStep(steps[i]) {
        assert IsValidStep(steps[|steps| - 1]);
        forall i | 0 <= i < |last.outputs| ensures IsPlainPath(BuilderSource(last.outputs[i])) {
          SourceIsPlain(last.outputs[i]);
        }
      }
    }
  }
}
