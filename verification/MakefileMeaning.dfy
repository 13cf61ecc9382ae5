/**
  What expansion, assignments and lines of a Makefile mean, stated on the text as a writer puts it
  down.
 */
module MakefileMeaning {
  import opened Wrappers
  import opened Text
  import opened MakefileVariables

  // ----- expansion of a written text -----

  /** Text without `$` stands for itself. */
  lemma PlainText(text: string, variables: Variables, expanding: set<string>)
    requires '$' !in text
    ensures Expand(text, variables, expanding) == text
  {
    IndexOfIsFirst(text, '$');
    NoDollar(text, variables, expanding);
  }

  /** The first `$` of a text, and what is behind it. */
  lemma FirstDollar(prefix: string, suffix: string, variables: Variables, expanding: set<string>)
    requires '$' !in prefix
    ensures var (token, rest) := Next(suffix);
            Expand(prefix + ("$" + suffix), variables, expanding) ==
              (prefix + ExpandToken(token, variables, expanding)) + Rest(rest, variables, expanding)
  {
    var s := prefix + ("$" + suffix);
    IndexOfFirst(prefix, '$', suffix);
    assert s[..|prefix|] == prefix && s[|prefix| + 1..] == suffix;
    ExpandContinues(s, variables, expanding, "");
    hide Next, ExpandToken, Expand, Rest;
    assert "" + prefix == prefix && "" + Expand(s, variables, expanding) == Expand(s, variables, expanding);
  }

  /** An escaped dollar stays escaped, and the text goes on behind both dollars. */
  lemma EscapedDollar(prefix: string, suffix: string, variables: Variables, expanding: set<string>)
    requires '$' !in prefix
    ensures Expand(prefix + ("$$" + suffix), variables, expanding)
         == (prefix + "$$") + Expand(suffix, variables, expanding)
  {
    assert "$$" + suffix == "$" + ("$" + suffix);
    EscapeKept("$" + suffix, variables, expanding);
    FirstDollar(prefix, "$" + suffix, variables, expanding);
  }

  /** A dollar before anything but `$`, `(` and `{` stays, and the text goes on right behind it. */
  lemma LoneDollar(prefix: string, suffix: string, variables: Variables, expanding: set<string>)
    requires '$' !in prefix
    requires suffix == "" || (suffix[0] != '$' && suffix[0] != '(' && suffix[0] != '{')
    ensures Expand(prefix + ("$" + suffix), variables, expanding)
         == (prefix + "$") + Expand(suffix, variables, expanding)
  {
    DollarKept(suffix, variables, expanding);
    FirstDollar(prefix, suffix, variables, expanding);
  }

  /** The two pairs of delimiters. */
  predicate Delimiters(open: char, close: char) {
    (open == '(' && close == ')') || (open == '{' && close == '}')
  }

  /**
    A closed reference becomes the expanded value of its variable, with the name marked while that
    is expanded; a name that is unknown or marked leaves the reference as written.
   */
  lemma ClosedReference(prefix: string, open: char, name: string, close: char, suffix: string, variables: Variables,
                        expanding: set<string>)
    requires '$' !in prefix && Delimiters(open, close) && close !in name
    ensures var written := "$" + ([open] + (name + ([close] + suffix)));
            var replacement := if name in variables && name !in expanding
                               then Expand(variables[name], variables, expanding + {name})
                               else ['$', open] + name + [close];
            Expand(prefix + written, variables, expanding)
              == (prefix + replacement) + Expand(suffix, variables, expanding)
  {
    var tail := name + ([close] + suffix);
    var behind := [open] + tail;
    IndexOfFirst(name, close, suffix);
    assert behind[1..] == tail && tail[..|name|] == name && behind[|name| + 2..] == suffix;
    assert Next(behind) == (Reference(open == '{', name), Some(suffix)) by {
      hide IndexOf;
    }
    FirstDollar(prefix, behind, variables, expanding);
    hide Next, IndexOf, Tokenize, ExpandTokens;
    assert Render(Reference(open == '{', name)) == ['$', open] + name + [close] by {
      assert "$(" == ['$', '('] && "${" == ['$', '{'] && ")" == [')'] && "}" == ['}'];
    }
  }

  /** A reference that is never closed leaves the rest of the text as written. */
  lemma OpenReference(prefix: string, open: char, close: char, suffix: string, variables: Variables,
                      expanding: set<string>)
    requires '$' !in prefix && Delimiters(open, close) && close !in suffix
    ensures var written := prefix + ("$" + ([open] + suffix));
            Expand(written, variables, expanding) == written
  {
    var behind := [open] + suffix;
    IndexOfIsFirst(suffix, close);
    assert behind[1..] == suffix;
    UnclosedKept(behind, variables, expanding);
    FirstDollar(prefix, behind, variables, expanding);
    hide Next, IndexOf, ExpandToken, Expand;
    assert (prefix + ("$" + behind)) + "" == prefix + ("$" + behind);
  }

  // ----- trimming -----

  predicate IsBlank(s: string) {
    forall i :: 0 <= i < |s| ==> IsWhitespace(s[i])
  }

  /** A text that white space neither starts nor ends. */
  predicate IsCore(s: string) {
    s != [] ==> !IsWhitespace(s[0]) && !IsWhitespace(s[|s| - 1])
  }

  lemma {:induction false} TrimStartIs(blank: string, s: string)
    requires IsBlank(blank) && (s == [] || !IsWhitespace(s[0]))
    ensures TrimStart(blank + s) == s
  {
    if blank == [] {
      assert blank + s == s;
    } else {
      assert (blank + s)[1..] == blank[1..] + s;
      TrimStartIs(blank[1..], s);
    }
  }

  lemma {:induction false} TrimEndIs(s: string, blank: string)
    requires IsBlank(blank) && (s == [] || !IsWhitespace(s[|s| - 1]))
    ensures TrimEnd(s + blank) == s
  {
    if blank == [] {
      assert s + blank == s;
    } else {
      assert (s + blank)[..|s + blank| - 1] == s + blank[..|blank| - 1];
      TrimEndIs(s, blank[..|blank| - 1]);
    }
  }

  lemma TrimIs(before: string, core: string, after: string)
    requires IsBlank(before) && IsCore(core) && IsBlank(after)
    ensures Trim(before + core + after) == core
  {
    if core == [] {
      assert before + core + after == (before + after) + [];
      TrimStartIs(before + after, []);
    } else {
      assert before + core + after == before + (core + after);
      TrimStartIs(before, core + after);
      TrimEndIs(core, after);
    }
  }

  /** Trimming drops white space only. */
  lemma {:induction false} TrimStartDrops(s: string)
    ensures IsBlank(s[..|s| - |TrimStart(s)|])
  {
    if s != [] && IsWhitespace(s[0]) {
      TrimStartDrops(s[1..]);
      var tail := s[1..];
      assert s[..|s| - |TrimStart(s)|] == [s[0]] + tail[..|tail| - |TrimStart(tail)|];
    }
  }

  lemma {:induction false} TrimEndDrops(s: string)
    ensures IsBlank(s[|TrimEnd(s)|..])
  {
    if s != [] && IsWhitespace(s[|s| - 1]) {
      var front := s[..|s| - 1];
      TrimEndDrops(front);
      assert s[|TrimEnd(s)|..] == front[|TrimEnd(front)|..] + [s[|s| - 1]];
    }
  }

  lemma TrimParts(s: string) returns (before: string, after: string)
    ensures IsBlank(before) && IsBlank(after) && IsCore(Trim(s)) && s == before + Trim(s) + after
  {
    var tail := TrimStart(s);
    var core := TrimEnd(tail);
    TrimStartDrops(s);
    TrimEndDrops(tail);
    before, after := s[..|s| - |tail|], tail[|core|..];
    assert tail == core + after;
    assert s == before + tail;
    Regroup(before, core, after);
  }

  lemma BlankSum(s: string, t: string)
    requires IsBlank(s) && IsBlank(t)
    ensures IsBlank(s + t)
  {
  }

  lemma TrimOfTrimEnd(s: string)
    ensures Trim(TrimEnd(s)) == Trim(s)
  {
    var before, after := TrimParts(s);
    var core := Trim(s);
    hide TrimStart, TrimEnd;
    if core == [] {
      BlankSum(before, after);
      assert s == [] + (before + after);
      TrimEndIs([], before + after);
      TrimIs([], [], []);
      assert Trim([] + [] + []) == [];
    } else {
      EndsIn(before, core);
      TrimEndIs(before + core, after);
      assert before + core == before + core + [];
      TrimIs(before, core, []);
    }
  }

  lemma EndsIn(before: string, core: string)
    requires core != [] && IsCore(core)
    ensures before + core != [] && !IsWhitespace((before + core)[|before + core| - 1])
  {
  }

  // ----- assignments as they are written -----

  /** What a writer puts on the line of an assignment; `gap` follows `export`, when that is there. */
  datatype Writing = Writing(lead: string, exported: bool, gap: string, name: string, space: string,
                             kind: Assignment, blank: string, value: string, comment: string)

  function Mark(kind: Assignment): string {
    match kind
    case Default => "?"
    case Immediate => ":"
    case Recursive => ""
  }

  function Front(w: Writing): string {
    w.name + ((w.space + Mark(w.kind)) + w.blank)
  }

  function Body(w: Writing, value: string): string {
    Front(w) + (['='] + value)
  }

  function Exported(w: Writing): string {
    if w.exported then "export " + w.gap else ""
  }

  function Written(w: Writing): string {
    (w.lead + (Exported(w) + Body(w, w.value))) + w.comment
  }

  /** Without the word `export`, a name of that spelling needs the mark or the equals sign right behind it. */
  predicate ReadsAsExport(w: Writing) {
    var behind := (w.space + Mark(w.kind)) + w.blank;
    !w.exported && w.name == "export" && behind != [] && behind[0] == ' '
  }

  /** White space around each part, a name, a value up to the comment, and no tab that starts a recipe line. */
  predicate IsWritten(w: Writing) {
    && IsBlank(w.lead) && IsBlank(w.gap) && IsBlank(w.space) && IsBlank(w.blank)
    && !(w.lead != [] && w.lead[0] == '\t')
    && IsVariableName(w.name) && '#' !in w.value
    && (w.comment == [] || w.comment[0] == '#')
  }

  lemma NameIsPlain(name: string)
    requires IsVariableName(name)
    ensures IsCore(name) && '#' !in name && '=' !in name && ' ' !in name
    ensures name[|name| - 1] != '?' && name[|name| - 1] != ':' && name[0] != '\t'
  {
  }

  lemma BlankIsPlain(s: string)
    requires IsBlank(s)
    ensures '#' !in s && '=' !in s
  {
  }

  lemma Apart(s: string, t: string, c: char)
    ensures c in s + t <==> c in s || c in t
  {
  }

  lemma FrontIsPlain(w: Writing)
    requires IsWritten(w)
    ensures '#' !in Front(w) && '=' !in Front(w) && Front(w) != [] && !IsWhitespace(Front(w)[0])
    ensures Front(w)[0] != '\t'
  {
    NameIsPlain(w.name);
    BlankIsPlain(w.space);
    BlankIsPlain(w.blank);
    hide IsVariableName, IsBlank, IsWhitespace;
    var mark := Mark(w.kind);
    forall c | c == '#' || c == '=' ensures c !in Front(w) {
      Apart(w.space, mark, c);
      Apart(w.space + mark, w.blank, c);
      Apart(w.name, (w.space + mark) + w.blank, c);
    }
    assert Front(w)[0] == w.name[0];
  }

  /** The comment is cut off. */
  lemma CommentIsCut(w: Writing)
    requires IsWritten(w)
    ensures var line := Written(w);
            line[..IndexOf(line, '#')] == w.lead + (Exported(w) + Body(w, w.value))
  {
    var code := w.lead + (Exported(w) + Body(w, w.value));
    FrontIsPlain(w);
    BlankIsPlain(w.lead);
    BlankIsPlain(w.gap);
    hide IsBlank, IsVariableName, Front, Mark, IsWhitespace;
    assert '#' !in code by {
      Apart(['='], w.value, '#');
      Apart(Front(w), ['='] + w.value, '#');
      Apart("export ", w.gap, '#');
      Apart(Exported(w), Body(w, w.value), '#');
      Apart(w.lead, Exported(w) + Body(w, w.value), '#');
    }
    if w.comment == [] {
      IndexOfFirst(code, '#', []);
      assert Written(w) == code;
    } else {
      IndexOfFirst(code, '#', w.comment[1..]);
      assert w.comment == ['#'] + w.comment[1..];
    }
  }

  /** The white space around the code of the line is cut off. */
  lemma CodeIsTrimmed(w: Writing)
    requires IsWritten(w)
    ensures Trim(w.lead + (Exported(w) + Body(w, w.value))) == Exported(w) + Body(w, TrimEnd(w.value))
  {
    var value := TrimEnd(w.value);
    var after := w.value[|value|..];
    TrimEndDrops(w.value);
    FrontIsPlain(w);
    hide IsBlank, IsVariableName, Front, Mark, TrimEnd, Trim, Body;
    var core := Exported(w) + Body(w, value);
    assert w.value == value + after;
    BodyIsCore(w, value);
    hide IsCore, Exported;
    TailApart(w, value, after);
    Regroup(w.lead, core, after);
    TrimIs(w.lead, core, after);
  }

  lemma TailApart(w: Writing, value: string, after: string)
    ensures Exported(w) + Body(w, value + after) == (Exported(w) + Body(w, value)) + after
  {
  }

  lemma BodyIsCore(w: Writing, value: string)
    requires IsWritten(w) && (value == [] || !IsWhitespace(value[|value| - 1]))
    ensures IsCore(Exported(w) + Body(w, value))
  {
    FrontIsPlain(w);
    hide IsVariableName, IsBlank, Front;
    var body := Body(w, value);
    assert body[0] == Front(w)[0];
    assert body[|body| - 1] == if value == [] then '=' else value[|value| - 1];
  }

  /** The word `export` is dropped, and nothing else. */
  lemma ExportIsDropped(w: Writing, value: string)
    requires IsWritten(w) && !ReadsAsExport(w)
    ensures StripExport(Exported(w) + Body(w, value)) == Body(w, value)
  {
    FrontIsPlain(w);
    var body := Body(w, value);
    if w.exported {
      hide IsVariableName, Front, Mark;
      var line := "export " + w.gap + body;
      assert "export " <= line && line[|"export "|..] == w.gap + body;
      assert Exported(w) + body == line;
      TrimStartIs(w.gap, body);
    } else {
      assert Exported(w) + body == body;
      NotExport(w, value);
      hide IsVariableName, Front, Mark;
      assert [] + body == body;
      TrimStartIs([], body);
    }
  }

  lemma NotExport(w: Writing, value: string)
    requires IsWritten(w) && !w.exported && !ReadsAsExport(w)
    ensures !("export " <= Body(w, value))
  {
    NameIsPlain(w.name);
    Behind(w);
    hide IsVariableName, IsBlank, IsWhitespace, Mark;
    var behind := (w.space + Mark(w.kind)) + w.blank;
    var tail := behind + (['='] + value);
    assert Body(w, value) == w.name + tail;
    assert tail[0] == if behind == [] then '=' else behind[0];
    if "export " <= w.name + tail {
      WordIsName(w.name, tail);
    }
  }

  lemma WordIsName(name: string, tail: string)
    requires ' ' !in name && tail != [] && !IsAsciiLetter(tail[0])
    requires "export " <= name + tail
    ensures name == "export" && tail[0] == ' '
  {
    var word, body := "export ", name + tail;
    assert forall i :: 0 <= i < 7 ==> word[i] == body[i];
    assert forall i :: 0 <= i < |name| ==> body[i] == name[i] && name[i] != ' ';
    assert |name| <= 6 by {
      assert word[6] == ' ';
    }
    assert body[|name|] == tail[0];
    assert name == word[..|name|];
  }

  /** What follows the name starts with no letter. */
  lemma Behind(w: Writing)
    requires IsWritten(w)
    ensures var behind := (w.space + Mark(w.kind)) + w.blank;
            behind != [] ==> !IsAsciiLetter(behind[0])
  {
    hide IsVariableName;
    if w.space != [] {
      assert IsWhitespace(w.space[0]);
    } else if w.kind.Recursive? && w.blank != [] {
      assert IsWhitespace(w.blank[0]);
    }
  }

  lemma EndsInMark(s: string, mark: char)
    requires mark == '?' || mark == ':'
    ensures !IsWhitespace((s + [mark])[|s + [mark]| - 1])
  {
  }

  lemma CoreThenBlank(core: string, blank: string)
    requires IsBlank(blank) && IsCore(core)
    ensures Trim(core + blank) == core && TrimEnd(core + blank) == core
  {
    TrimIs([], core, blank);
    TrimEndIs(core, blank);
    hide Trim, TrimEnd;
    assert [] + core + blank == core + blank;
  }

  lemma MarkIsRead(name: string, space: string, mark: char, blank: string)
    requires IsBlank(space) && IsBlank(blank) && IsCore(name) && (mark == '?' || mark == ':')
    ensures TrimEnd(name + ((space + [mark]) + blank)) == (name + space) + [mark]
    ensures Trim(name + space) == name
  {
    var marked := (name + space) + [mark];
    EndsInMark(name + space, mark);
    TrimEndIs(marked, blank);
    CoreThenBlank(name, space);
    hide IsBlank, IsCore, IsWhitespace, Trim, TrimEnd;
    assert name + ((space + [mark]) + blank) == marked + blank;
  }

  lemma CoreAlone(core: string)
    requires IsCore(core)
    ensures Trim(core) == core
  {
    CoreThenBlank(core, []);
    hide Trim, TrimEnd;
    assert core + [] == core;
  }

  lemma NoMarkIsRead(name: string, space: string, blank: string)
    requires IsBlank(space) && IsBlank(blank) && IsCore(name)
    ensures TrimEnd(name + ((space + []) + blank)) == name && Trim(name) == name
  {
    hide IsBlank, IsCore, IsWhitespace, Trim, TrimEnd, TrimStart;
    BlankSum(space, blank);
    CoreThenBlank(name, space + blank);
    CoreAlone(name);
    assert space + [] == space;
  }

  /** The mark gives the kind, and what is before it the name. */
  lemma KindIsRead(name: string, space: string, kind: Assignment, blank: string)
    requires IsBlank(space) && IsBlank(blank) && IsCore(name)
    requires name != [] ==> name[|name| - 1] != '?' && name[|name| - 1] != ':'
    ensures var (binding, read) := SplitKind(TrimEnd(name + ((space + Mark(kind)) + blank)));
            read == kind && Trim(binding) == name
  {
    hide IsBlank, Trim, TrimEnd;
    match kind
    case Recursive => NoMarkIsRead(name, space, blank);
    case Default =>
      MarkIsRead(name, space, '?', blank);
      assert ((name + space) + "?")[..|name + space|] == name + space;
    case Immediate =>
      MarkIsRead(name, space, ':', blank);
      assert ((name + space) + ":")[..|name + space|] == name + space;
  }

  /** The first equals sign ends the binding. */
  lemma BindingIsRead(front: string, value: string)
    requires '=' !in front
    ensures var body := front + (['='] + value);
            && IndexOf(body, '=') == |front| < |body|
            && body[..|front|] == front && body[|front| + 1..] == value
  {
    IndexOfFirst(front, '=', value);
    hide IndexOf;
  }

  lemma WrittenParts(w: Writing)
    requires IsWritten(w)
    ensures var line := Written(w);
            && !(line != [] && line[0] == '\t')
            && Stripped(line) == StripExport(Exported(w) + Body(w, TrimEnd(w.value)))
  {
    CommentIsCut(w);
    CodeIsTrimmed(w);
    FrontIsPlain(w);
    hide IsVariableName, IsBlank, Front, StripExport, Trim, TrimEnd, IndexOf;
    var line := Written(w);
    assert line[0] == if w.lead != [] then w.lead[0] else if w.exported then 'e' else Front(w)[0];
  }

  lemma BodyIsRead(w: Writing)
    requires IsWritten(w)
    ensures var body := Body(w, TrimEnd(w.value));
            && IndexOf(body, '=') < |body|
            && AssignmentOf(body, IndexOf(body, '=')) == Some((w.name, w.kind, Trim(w.value)))
  {
    var value := TrimEnd(w.value);
    FrontIsPlain(w);
    BindingIsRead(Front(w), value);
    NameIsPlain(w.name);
    KindIsRead(w.name, w.space, w.kind, w.blank);
    TrimOfTrimEnd(w.value);
    hide IsVariableName, IsBlank, SplitKind, Trim, TrimEnd, IndexOf;
  }

  /** A line of assignment gives its name, its kind, and its value without the white space around it. */
  lemma AssignmentReadsBack(w: Writing)
    requires IsWritten(w) && !ReadsAsExport(w)
    ensures MakefileAssignment(Written(w)) == Some((w.name, w.kind, Trim(w.value)))
  {
    WrittenParts(w);
    ExportIsDropped(w, TrimEnd(w.value));
    BodyIsRead(w);
    hide IsVariableName, IsBlank, AssignmentOf, Trim, TrimEnd, IndexOf, Body, Stripped, Exported;
  }

  /** The one exception: a variable called `export` with a space behind its name is no assignment. */
  lemma ExportIsNoName(w: Writing)
    requires IsWritten(w) && ReadsAsExport(w)
    ensures MakefileAssignment(Written(w)) == None
  {
    var value := TrimEnd(w.value);
    var dropped := if w.kind.Recursive? then w.space + w.blank else w.space;
    var kept := if w.kind.Recursive? then "" else w.blank;
    DroppedAndKept(w, dropped, kept);
    hide IsBlank, AssignmentOf, Trim, TrimEnd, TrimStart, IndexOf, Body, Stripped, StripExport, Exported, Mark;
    WrittenParts(w);
    ExportTail(w, value, dropped, Mark(w.kind) + kept);
    NamelessBody(dropped[1..], w.kind, kept, value);
  }

  lemma DroppedAndKept(w: Writing, dropped: string, kept: string)
    requires IsWritten(w) && ReadsAsExport(w)
    requires dropped == (if w.kind.Recursive? then w.space + w.blank else w.space)
    requires kept == if w.kind.Recursive? then "" else w.blank
    ensures (w.space + Mark(w.kind)) + w.blank == dropped + (Mark(w.kind) + kept)
    ensures dropped != [] && dropped[0] == ' ' && IsBlank(dropped[1..]) && IsBlank(kept)
  {
    hide IsVariableName, IsWhitespace;
    BlankSum(w.space, w.blank);
  }

  lemma NamelessBody(blank: string, kind: Assignment, kept: string, value: string)
    requires IsBlank(blank) && IsBlank(kept) && (kind.Recursive? ==> kept == [])
    ensures var stripped := StripExport("export " + (blank + ((Mark(kind) + kept) + (['='] + value))));
            && IndexOf(stripped, '=') < |stripped|
            && AssignmentOf(stripped, IndexOf(stripped, '=')) == None
  {
    hide IsBlank, SplitKind, Trim, TrimEnd, TrimStart, IndexOf, StripExport, IsWhitespace;
    var front := Mark(kind) + kept;
    assert '=' !in front by {
      BlankIsPlain(kept);
      Apart(Mark(kind), kept, '=');
    }
    KindOfNameless(kind, kept);
    NamelessIsStripped(blank, kind, kept, value);
    BindingIsRead(front, value);
  }

  lemma KindOfNameless(kind: Assignment, kept: string)
    requires IsBlank(kept)
    ensures Trim(SplitKind(TrimEnd(Mark(kind) + kept)).0) == []
  {
    TrimEndIs(Mark(kind), kept);
    CoreAlone([]);
    hide Trim, TrimEnd, TrimStart;
    assert Mark(kind) != [] ==> Mark(kind)[..|Mark(kind)| - 1] == [];
  }

  lemma NamelessIsStripped(blank: string, kind: Assignment, kept: string, value: string)
    requires IsBlank(blank) && (kind.Recursive? ==> kept == [])
    ensures var stripped := (Mark(kind) + kept) + (['='] + value);
            StripExport("export " + (blank + stripped)) == stripped
  {
    var stripped := (Mark(kind) + kept) + (['='] + value);
    var line := "export " + (blank + stripped);
    assert "export " <= line && line[|"export "|..] == blank + stripped;
    TrimStartIs(blank, stripped);
  }

  lemma ExportTail(w: Writing, value: string, dropped: string, front: string)
    requires !w.exported && w.name == "export" && dropped != [] && dropped[0] == ' '
    requires (w.space + Mark(w.kind)) + w.blank == dropped + front
    ensures Exported(w) + Body(w, value) == "export " + (dropped[1..] + (front + (['='] + value)))
  {
    assert dropped == [' '] + dropped[1..];
    assert "export " == "export" + [' '];
  }

  lemma TrimStartParts(s: string) returns (blank: string)
    ensures IsBlank(blank) && s == blank + TrimStart(s)
  {
    TrimStartDrops(s);
    hide IsBlank;
    blank := s[..|s| - |TrimStart(s)|];
  }

  lemma TrimEndParts(s: string) returns (blank: string)
    ensures IsBlank(blank) && s == TrimEnd(s) + blank
  {
    TrimEndDrops(s);
    hide IsBlank;
    blank := s[|TrimEnd(s)|..];
  }

  lemma KindParts(binding: string)
    ensures var (named, kind) := SplitKind(binding); binding == named + Mark(kind)
  {
  }

  lemma NoLead(before: string, rest: string, s: string)
    requires IsBlank(before) && s == before + rest && (s == [] || !IsWhitespace(s[0]))
    ensures before == []
  {
    hide IsWhitespace;
    assert forall i :: 0 <= i < |before| ==> s[i] == before[i] && IsWhitespace(before[i]);
  }

  lemma FrontParts(front: string) returns (name: string, space: string, kind: Assignment, blank: string)
    requires front == [] || !IsWhitespace(front[0])
    requires IsVariableName(Trim(SplitKind(TrimEnd(front)).0))
    ensures IsVariableName(name) && IsBlank(space) && IsBlank(blank)
    ensures front == name + ((space + Mark(kind)) + blank)
  {
    hide Trim, TrimEnd, TrimStart, SplitKind, Mark, IsVariableName, IsBlank, IsWhitespace;
    var binding := TrimEnd(front);
    blank := TrimEndParts(front);
    var named := SplitKind(binding).0;
    kind := SplitKind(binding).1;
    KindParts(binding);
    var before;
    before, space := TrimParts(named);
    name := Trim(named);
    var mark := Mark(kind);
    assert front == before + ((name + space) + mark + blank) by {
      assert front == (((before + name) + space) + mark) + blank;
    }
    NoLead(before, (name + space) + mark + blank, front);
    assert front == ((name + space) + mark) + blank;
    Regroup(name, space, mark);
    Regroup(name, space + mark, blank);
  }

  lemma ExportStripped(trimmed: string)
    ensures "export " <= trimmed ==> StripExport(trimmed) == TrimStart(trimmed[|"export "|..])
    ensures !("export " <= trimmed) && IsCore(trimmed) ==> StripExport(trimmed) == trimmed
  {
  }

  lemma ExportParts(trimmed: string) returns (exported: bool, gap: string)
    requires IsCore(trimmed)
    ensures IsBlank(gap) && trimmed == (if exported then "export " + gap else "") + StripExport(trimmed)
  {
    ExportStripped(trimmed);
    hide TrimStart, StripExport, IsCore, IsWhitespace;
    exported, gap := "export " <= trimmed, "";
    if exported {
      var rest := trimmed[|"export "|..];
      gap := TrimStartParts(rest);
      hide IsBlank;
      assert trimmed == "export " + rest;
      Regroup("export ", gap, TrimStart(rest));
    }
  }

  lemma StrippedParts(line: string) returns (lead: string, exported: bool, gap: string, after: string, comment: string)
    ensures IsBlank(lead) && IsBlank(gap) && IsBlank(after) && (comment == [] || comment[0] == '#')
    ensures '#' !in Stripped(line) && '#' !in after
    ensures Stripped(line) == [] || !IsWhitespace(Stripped(line)[0])
    ensures line == (lead + (((if exported then "export " + gap else "") + Stripped(line)) + after)) + comment
  {
    hide Trim, TrimEnd, TrimStart, StripExport, IsBlank, IndexOf, IsWhitespace;
    var i := IndexOf(line, '#');
    IndexOfIsFirst(line, '#');
    var code, trimmed := line[..i], Trim(line[..i]);
    comment := line[i..];
    lead, after := TrimParts(code);
    exported, gap := ExportParts(trimmed);
    var word := if exported then "export " + gap else "";
    hide IsCore;
    Regroup(lead, word + Stripped(line), after);
    Apart(lead, (word + Stripped(line)) + after, '#');
    Apart(word + Stripped(line), after, '#');
    Apart(word, Stripped(line), '#');
    StrippedStart(line);
  }

  lemma StrippedStart(line: string)
    ensures Stripped(line) == [] || !IsWhitespace(Stripped(line)[0])
  {
    hide IsWhitespace, Trim, TrimStart;
  }

  lemma CutAt(s: string, i: nat)
    requires i < |s|
    ensures s == s[..i] + ([s[i]] + s[i + 1..])
  {
  }

  /** Only a line as a writer puts it down is an assignment. */
  lemma AssignmentIsWritten(line: string) returns (w: Writing)
    requires MakefileAssignment(line).Some?
    ensures IsWritten(w) && !ReadsAsExport(w) && line == Written(w)
    ensures MakefileAssignment(line) == Some((w.name, w.kind, Trim(w.value)))
  {
    hide IsBlank, IsVariableName, Trim, TrimEnd, TrimStart, SplitKind, Stripped, IndexOf, IsWhitespace;
    var body := Stripped(line);
    var i := IndexOf(body, '=');
    CutAt(body, i);
    var lead, exported, gap, after, comment := StrippedParts(line);
    var name, space, kind, blank := FrontParts(body[..i]);
    var value := body[i + 1..];
    w := Writing(lead, exported, gap, name, space, kind, blank, value + after, comment);
    Apart(body[..i] + ['='], value, '#');
    Apart(value, after, '#');
    assert line == Written(w) by {
      hide Mark;
      assert Body(w, value + after) == body + after;
      Regroup(Exported(w), body, after);
    }
    assert forall k :: 0 <= k < |lead| ==> line[k] == lead[k];
    if ReadsAsExport(w) {
      ExportIsNoName(w);
    } else {
      AssignmentReadsBack(w);
    }
  }

  // ----- what the lines define together -----

  predicate AssignsName(line: string, name: string) {
    var r := MakefileAssignment(line);
    r.Some? && r.value.0 == name
  }

  function KindOf(line: string): Assignment
    requires MakefileAssignment(line).Some?
  {
    MakefileAssignment(line).value.1
  }

  /**
    Line i decides what the name stands for after n lines: it assigns the name, only `?=` lines
    assign it later, and no line assigns it earlier if line i is a `?=` line itself.
   */
  ghost predicate Decides(lines: seq<string>, n: nat, i: nat, name: string)
    requires n <= |lines|
  {
    && i < n && AssignsName(lines[i], name)
    && (KindOf(lines[i]).Default? ==> forall j :: 0 <= j < i ==> !AssignsName(lines[j], name))
    && (forall j :: i < j < n && AssignsName(lines[j], name) ==> KindOf(lines[j]).Default?)
  }

  /** The value as written, expanded only by `:=`, and then with the variables of the lines before. */
  function ValueGiven(lines: seq<string>, i: nat): string
    requires i < |lines| && MakefileAssignment(lines[i]).Some?
  {
    var value := MakefileAssignment(lines[i]).value.2;
    if KindOf(lines[i]).Immediate? then Expand(value, DefineAll(lines[..i]), {}) else value
  }

  lemma OneMoreLine(lines: seq<string>, n: nat)
    requires n < |lines|
    ensures DefineAll(lines[..n + 1]) == Define(DefineAll(lines[..n]), lines[n])
  {
    hide Define;
    assert lines[..n + 1][..n] == lines[..n];
  }

  /** What one line does to one name. */
  lemma OneName(variables: Variables, line: string, name: string)
    ensures name in Define(variables, line) <==> name in variables || AssignsName(line, name)
    ensures (name in variables && (!AssignsName(line, name) || KindOf(line).Default?)) ==>
              Define(variables, line)[name] == variables[name]
    ensures (AssignsName(line, name) && (!KindOf(line).Default? || name !in variables)) ==>
              var value := MakefileAssignment(line).value.2;
              Define(variables, line)[name] ==
                if KindOf(line).Immediate? then Expand(value, variables, {}) else value
  {
    hide MakefileAssignment, Expand;
  }

  lemma NothingDefined(lines: seq<string>)
    ensures DefineAll(lines[..0]) == map[]
  {
    hide Define;
  }

  lemma {:induction false} DefinedUpTo(lines: seq<string>, n: nat, name: string)
    requires n <= |lines|
    ensures name in DefineAll(lines[..n]) <==> exists i :: 0 <= i < n && AssignsName(lines[i], name)
  {
    NothingDefined(lines);
    hide DefineAll, Define, AssignsName;
    if n > 0 {
      DefinedUpTo(lines, n - 1, name);
      OneMoreLine(lines, n - 1);
      OneName(DefineAll(lines[..n - 1]), lines[n - 1], name);
    }
  }

  lemma {:induction false} DecidedUpTo(lines: seq<string>, n: nat, name: string, i: nat)
    requires n <= |lines| && Decides(lines, n, i, name)
    ensures name in DefineAll(lines[..n]) && DefineAll(lines[..n])[name] == ValueGiven(lines, i)
  {
    hide MakefileAssignment, Expand, DefineAll, Define;
    OneMoreLine(lines, n - 1);
    OneName(DefineAll(lines[..n - 1]), lines[n - 1], name);
    if i < n - 1 {
      DecidedUpTo(lines, n - 1, name, i);
    } else {
      DefinedUpTo(lines, n - 1, name);
    }
  }

  lemma {:induction false} SomeLineDecides(lines: seq<string>, n: nat, name: string) returns (i: nat)
    requires n <= |lines| && exists j :: 0 <= j < n && AssignsName(lines[j], name)
    ensures Decides(lines, n, i, name)
  {
    hide MakefileAssignment;
    var earlier := exists j :: 0 <= j < n - 1 && AssignsName(lines[j], name);
    if AssignsName(lines[n - 1], name) && (!KindOf(lines[n - 1]).Default? || !earlier) {
      i := n - 1;
    } else {
      i := SomeLineDecides(lines, n - 1, name);
    }
  }

  /**
    A name is defined if and only if some line assigns it, and it stands for what the line that
    decides gives: the last assignment that is not `?=`, else the first that is.
   */
  lemma DefinitionsMean(lines: seq<string>, name: string)
    ensures name in DefineAll(lines) <==> exists i :: 0 <= i < |lines| && AssignsName(lines[i], name)
    ensures name in DefineAll(lines) <==> exists i :: Decides(lines, |lines|, i, name)
    ensures forall i: nat :: Decides(lines, |lines|, i, name) ==> DefineAll(lines)[name] == ValueGiven(lines, i)
  {
    hide MakefileAssignment, Expand, DefineAll;
    assert lines[..|lines|] == lines;
    DefinedUpTo(lines, |lines|, name);
    if name in DefineAll(lines) {
      var i := SomeLineDecides(lines, |lines|, name);
    }
    forall i: nat | Decides(lines, |lines|, i, name) ensures DefineAll(lines)[name] == ValueGiven(lines, i) {
      DecidedUpTo(lines, |lines|, name, i);
    }
  }

  /** The map that gives each name what its deciding line gives, and no other name. */
  ghost predicate GivesMeaning(lines: seq<string>, variables: Variables) {
    && (forall name :: name in variables <==> exists i: nat :: Decides(lines, |lines|, i, name))
    && (forall name, i: nat :: Decides(lines, |lines|, i, name) ==> variables[name] == ValueGiven(lines, i))
  }

  /** Resolving expands the whole text, from its first line on, with what all its lines define. */
  lemma ResolvedMeans(source: string, variables: Variables)
    requires GivesMeaning(Lines(source), variables)
    ensures Resolved(source) == Expand(source, variables, {})
  {
    hide Lines, Expand, Decides, ValueGiven, DefineAll;
    var defined := DefineAll(Lines(source));
    forall name ensures name in variables <==> name in defined {
      DefinitionsMean(Lines(source), name);
    }
    forall name | name in variables ensures variables[name] == defined[name] {
      DefinitionsMean(Lines(source), name);
    }
    assert variables == defined;
  }

  /** Every text has that map. */
  lemma MeaningExists(lines: seq<string>)
    ensures GivesMeaning(lines, DefineAll(lines))
  {
    hide MakefileAssignment, ValueGiven, DefineAll;
    forall name ensures name in DefineAll(lines) <==> exists i: nat :: Decides(lines, |lines|, i, name) {
      DefinitionsMean(lines, name);
    }
    forall name, i: nat | Decides(lines, |lines|, i, name) ensures DefineAll(lines)[name] == ValueGiven(lines, i) {
      DefinitionsMean(lines, name);
    }
  }

  // ----- lines -----

  lemma LinesAre(s: string)
    ensures var pieces := Split(s, '\n');
            |Lines(s)| == if pieces[|pieces| - 1] == [] then |pieces| - 1 else |pieces|
    ensures forall i :: 0 <= i < |Lines(s)| ==>
              Lines(s)[i] == if i < |Split(s, '\n')| - 1 then StripReturn(Split(s, '\n')[i]) else Split(s, '\n')[i]
  {
    hide Split, StripReturn;
  }

  lemma LinesOfPieces(s: string, first: string, rest: string)
    requires Split(s, '\n') == [first] + Split(rest, '\n')
    ensures Lines(s) == [StripReturn(first)] + Lines(rest)
  {
    LinesAre(s);
    LinesAre(rest);
    hide Split, StripReturn, Lines;
    var pieces, others := Split(s, '\n'), Split(rest, '\n');
    assert |pieces| == 1 + |others| && forall i :: 0 < i < |pieces| ==> pieces[i] == others[i - 1];
    forall i | 0 < i < |Lines(s)| ensures Lines(s)[i] == Lines(rest)[i - 1] {
      assert pieces[i] == others[i - 1];
    }
  }

  /** A line ends at a line feed, with at most one carriage return before it, and the next line starts behind it. */
  lemma LineEnds(line: string, rest: string)
    requires '\n' !in line
    ensures Lines(line + "\r\n" + rest) == [line] + Lines(rest)
    ensures (line == [] || line[|line| - 1] != '\r') ==> Lines(line + "\n" + rest) == [line] + Lines(rest)
  {
    hide Lines, Split, IndexOf;
    var returned := line + ['\r'];
    assert line + "\r\n" + rest == returned + (['\n'] + rest);
    SplitFirst(returned, '\n', rest);
    LinesOfPieces(line + "\r\n" + rest, returned, rest);
    assert returned[..|line|] == line;
    assert line + "\n" + rest == line + (['\n'] + rest);
    SplitFirst(line, '\n', rest);
    LinesOfPieces(line + "\n" + rest, line, rest);
  }

  /** The last line needs no line feed and keeps a carriage return; nothing behind the last line feed is no line. */
  lemma LastLine(line: string)
    requires '\n' !in line
    ensures Lines(line) == if line == [] then [] else [line]
  {
    SplitHasNoSeparator(line, '\n');
    hide Split;
  }
}
