/**
  Path templates such as `/items/{id}`: the variables in them, the form that ignores their names,
  and renaming them.
 */
module PathTemplates {
  datatype Piece = Literal(c: char) | Variable(name: string)

  /** The length of the longest start of the text without `}` and `/`. */
  function Run(s: string): (n: nat)
    ensures n <= |s|
  {
    if s == [] || s[0] == '}' || s[0] == '/' then 0 else 1 + Run(s[1..])
  }

  /** After an opening brace: a name and its closing brace follow. */
  predicate StartsName(s: string) {
    0 < Run(s) < |s| && s[Run(s)] == '}'
  }

  /** Splits the path at the leftmost matches of the checker's PATH_PARAMETER pattern. */
  function Scan(path: string): seq<Piece> {
    if path == [] then []
    else if path[0] == '{' && StartsName(path[1..]) then
      var n := Run(path[1..]);
      [Variable(path[1..][..n])] + Scan(path[1..][n + 1..])
    else [Literal(path[0])] + Scan(path[1..])
  }

  function Render(pieces: seq<Piece>): string {
    if pieces == [] then ""
    else match pieces[0]
         case Literal(c) => [c] + Render(pieces[1..])
         case Variable(name) => "{" + (name + ("}" + Render(pieces[1..])))
  }

  /** The path with every variable written `{}`. */
  function NormalForm(pieces: seq<Piece>): string {
    if pieces == [] then ""
    else match pieces[0]
         case Literal(c) => [c] + NormalForm(pieces[1..])
         case Variable(_) => "{}" + NormalForm(pieces[1..])
  }

  function NormalizedPath(path: string): string {
    NormalForm(Scan(path))
  }

  function Names(pieces: seq<Piece>): seq<string> {
    if pieces == [] then []
    else match pieces[0]
         case Literal(_) => Names(pieces[1..])
         case Variable(name) => [name] + Names(pieces[1..])
  }

  function PathNames(path: string): seq<string> {
    Names(Scan(path))
  }

  function RenamePieces(pieces: seq<Piece>, rename: string -> string): seq<Piece> {
    if pieces == [] then []
    else match pieces[0]
         case Literal(_) => [pieces[0]] + RenamePieces(pieces[1..], rename)
         case Variable(name) => [Variable(rename(name))] + RenamePieces(pieces[1..], rename)
  }

  function RenamePath(path: string, rename: string -> string): string {
    Render(RenamePieces(Scan(path), rename))
  }

  /** What a variable may be called. */
  predicate IsName(name: string) {
    name != "" && Run(name) == |name|
  }

  // ----- which lists of pieces a scan can produce -----

  /** The first `}` or `/` of the rendered pieces is a `}`. */
  predicate Closes(pieces: seq<Piece>) {
    pieces != [] &&
    match pieces[0]
    case Literal(c) => c == '}' || (c != '/' && Closes(pieces[1..]))
    case Variable(_) => true
  }

  predicate Opens(pieces: seq<Piece>) {
    pieces != [] && pieces[0] != Literal('}') && Closes(pieces)
  }

  predicate Scanned(pieces: seq<Piece>) {
    pieces == [] ||
    (&& Scanned(pieces[1..])
     && match pieces[0]
        case Literal(c) => c == '{' ==> !Opens(pieces[1..])
        case Variable(name) => IsName(name))
  }

  lemma {:induction false} RunOfName(name: string, rest: string)
    requires Run(name) == |name|
    ensures Run(name + ("}" + rest)) == |name|
  {
    var s := name + ("}" + rest);
    if name != [] {
      assert s[1..] == name[1..] + ("}" + rest);
      RunOfName(name[1..], rest);
    }
  }

  lemma {:induction false} ClosesMeans(pieces: seq<Piece>)
    requires Scanned(pieces)
    ensures var s := Render(pieces); Closes(pieces) <==> Run(s) < |s| && s[Run(s)] == '}'
  {
    if pieces != [] {
      var s := Render(pieces);
      ClosesMeans(pieces[1..]);
      match pieces[0] {
        case Literal(c) =>
          assert s[1..] == Render(pieces[1..]);
        case Variable(name) =>
          RunOfName(name, Render(pieces[1..]));
          assert s[1..] == name + ("}" + Render(pieces[1..]));
      }
    }
  }

  lemma {:induction false} OpensMeans(pieces: seq<Piece>)
    requires Scanned(pieces)
    ensures Opens(pieces) <==> StartsName(Render(pieces))
  {
    ClosesMeans(pieces);
  }

  lemma {:induction false} ScanOfRendered(pieces: seq<Piece>)
    requires Scanned(pieces)
    ensures Scan(Render(pieces)) == pieces
  {
    if pieces != [] {
      ScanOfRendered(pieces[1..]);
      OpensMeans(pieces[1..]);
      var s, rest := Render(pieces), Render(pieces[1..]);
      match pieces[0] {
        case Literal(c) =>
          assert s[1..] == rest;
        case Variable(name) =>
          RunOfName(name, rest);
          assert s[1..] == name + ("}" + rest);
          assert s[1..][..|name|] == name && s[1..][|name| + 1..] == rest;
      }
    }
  }

  lemma {:induction false} RunTakes(s: string, n: nat)
    requires n <= Run(s)
    ensures Run(s[..n]) == n
  {
    if n > 0 {
      assert s[..n][1..] == s[1..][..n - 1];
      RunTakes(s[1..], n - 1);
    }
  }

  lemma {:induction false} ScanIsScanned(path: string)
    ensures Scanned(Scan(path)) && Render(Scan(path)) == path
  {
    if path != [] {
      var rest := path[1..];
      if path[0] == '{' && StartsName(rest) {
        var n := Run(rest);
        hide Scanned, Render, Run;
        ScanIsScanned(rest[n + 1..]);
        RunTakes(rest, n);
        VariableIsScanned(rest[..n], Scan(rest[n + 1..]));
        VariableText(path, n);
      } else {
        ScanIsScanned(rest);
        OpensMeans(Scan(rest));
        LiteralIsScanned(path);
      }
    }
  }

  lemma VariableIsScanned(name: string, pieces: seq<Piece>)
    requires IsName(name) && Scanned(pieces)
    ensures var all := [Variable(name)] + pieces; Scanned(all) && Render(all) == "{" + (name + ("}" + Render(pieces)))
  {
    assert ([Variable(name)] + pieces)[1..] == pieces;
  }

  lemma VariableText(path: string, n: nat)
    requires n + 1 < |path| && path[0] == '{' && path[n + 1] == '}'
    ensures path == "{" + (path[1..][..n] + ("}" + path[1..][n + 1..]))
  {
  }

  lemma LiteralIsScanned(path: string)
    requires path != [] && !(path[0] == '{' && StartsName(path[1..]))
    requires var tail := Scan(path[1..]);
             Scanned(tail) && Render(tail) == path[1..] && (Opens(tail) <==> StartsName(path[1..]))
    ensures Scanned(Scan(path)) && Render(Scan(path)) == path
  {
    var rest := path[1..];
    assert Scan(path) == [Literal(path[0])] + Scan(rest);
    hide Scan, Run, Closes, Opens, StartsName;
    assert Scan(path)[1..] == Scan(rest);
    assert path == [path[0]] + rest;
  }

  lemma {:induction false} RenamingKeepsShape(pieces: seq<Piece>, rename: string -> string)
    requires Scanned(pieces)
    requires forall name <- Names(pieces) :: IsName(rename(name))
    ensures var renamed := RenamePieces(pieces, rename);
            && Scanned(renamed) && Closes(renamed) == Closes(pieces) && Opens(renamed) == Opens(pieces)
            && NormalForm(renamed) == NormalForm(pieces)
            && |Names(renamed)| == |Names(pieces)|
            && forall i :: 0 <= i < |Names(pieces)| ==> Names(renamed)[i] == rename(Names(pieces)[i])
  {
    if pieces != [] {
      assert forall name <- Names(pieces[1..]) :: name in Names(pieces);
      RenamingKeepsShape(pieces[1..], rename);
      var renamed := RenamePieces(pieces, rename);
      assert renamed[1..] == RenamePieces(pieces[1..], rename);
      if pieces[0].Variable? {
        assert Names(pieces)[0] == pieces[0].name;
      }
    }
  }

  /** Renaming variables changes neither the normalized path nor the order and number of variables. */
  lemma RenamedPath(path: string, rename: string -> string)
    requires forall name <- PathNames(path) :: IsName(rename(name))
    ensures NormalizedPath(RenamePath(path, rename)) == NormalizedPath(path)
    ensures |PathNames(RenamePath(path, rename))| == |PathNames(path)|
    ensures forall i :: 0 <= i < |PathNames(path)|
              ==> PathNames(RenamePath(path, rename))[i] == rename(PathNames(path)[i])
  {
    ScanIsScanned(path);
    RenamingKeepsShape(Scan(path), rename);
    ScanOfRendered(RenamePieces(Scan(path), rename));
  }

  // ----- paths as they are written -----

  predicate IsPlainName(name: string) {
    name != "" && '}' !in name && '/' !in name
  }

  lemma {:induction false} PlainRun(name: string)
    ensures Run(name) == |name| <==> '}' !in name && '/' !in name
  {
    if name != [] {
      assert name == [name[0]] + name[1..];
      PlainRun(name[1..]);
    }
  }

  /** A variable gives its name and is written `{}` in the normalized path, and the path goes on behind it. */
  lemma VariableIsRead(name: string, rest: string)
    requires IsPlainName(name)
    ensures var path := "{" + (name + ("}" + rest));
            NormalizedPath(path) == "{}" + NormalizedPath(rest) && PathNames(path) == [name] + PathNames(rest)
  {
    PlainRun(name);
    RunOfName(name, rest);
    var path := "{" + (name + ("}" + rest));
    var tail := name + ("}" + rest);
    assert path[1..] == tail && tail[..|name|] == name && tail[|name| + 1..] == rest;
    assert Scan(path) == [Variable(name)] + Scan(rest);
    hide Scan, Run;
    assert ([Variable(name)] + Scan(rest))[1..] == Scan(rest);
  }

  /** The text behind an opening brace starts with a name and a closing brace. */
  ghost predicate OpensVariable(s: string) {
    exists name, rest :: IsPlainName(name) && s == name + ("}" + rest)
  }

  lemma NameStarts(s: string)
    ensures StartsName(s) <==> OpensVariable(s)
  {
    if StartsName(s) {
      var n := Run(s);
      RunTakes(s, n);
      PlainRun(s[..n]);
      assert IsPlainName(s[..n]) && s == s[..n] + ("}" + s[n + 1..]);
    }
    if name, rest :| IsPlainName(name) && s == name + ("}" + rest) {
      PlainRun(name);
      RunOfName(name, rest);
      assert s[|name|] == '}';
    }
  }

  /** Any other character stays, an opening brace that opens no variable included. */
  lemma CharacterStays(c: char, rest: string)
    requires c == '{' ==> !OpensVariable(rest)
    ensures NormalizedPath([c] + rest) == [c] + NormalizedPath(rest) && PathNames([c] + rest) == PathNames(rest)
  {
    NameStarts(rest);
    var path := [c] + rest;
    assert path[1..] == rest;
    assert Scan(path) == [Literal(c)] + Scan(rest);
    hide Scan, StartsName;
    assert ([Literal(c)] + Scan(rest))[1..] == Scan(rest);
  }
}
