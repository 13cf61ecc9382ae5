/**
  The bounded search for the modules a screen renders.

  The file system is a parameter: `canonical` gives the canonical form of each path that exists,
  `imports` the existing files that each readable module imports and renders, and `inRoot` tells
  which canonical paths lie in the project.
 */
module ScreenModules {
  import opened Wrappers

  const MAX_IMPORT_DEPTH := 16

  datatype Files = Files(canonical: map<string, string>, imports: map<string, seq<string>>, inRoot: string -> bool)

  datatype SearchError = Unreadable(path: string)

  // ----- what is reachable -----

  ghost predicate IsModule(f: Files, path: string, m: string) {
    path in f.canonical && f.canonical[path] == m && f.inRoot(m)
  }

  /** A module `m` of the project imports the file behind `path`. */
  ghost predicate Imports(f: Files, m: string, path: string) {
    m in f.imports && path in f.imports[m]
  }

  /** The path is a screen (depth 0) or imported by a module reached one step earlier. */
  ghost predicate Offered(f: Files, screens: seq<string>, path: string, depth: nat)
    decreases depth, 1
  {
    if depth == 0 then path in screens
    else exists m :: Reached(f, screens, m, depth - 1) && Imports(f, m, path)
  }

  /** The module is reached from a screen by exactly `depth` imports inside the project. */
  ghost predicate Reached(f: Files, screens: seq<string>, m: string, depth: nat)
    decreases depth, 2
  {
    exists path :: Offered(f, screens, path, depth) && IsModule(f, path, m)
  }

  ghost predicate Near(f: Files, screens: seq<string>, m: string) {
    exists depth: nat :: depth <= MAX_IMPORT_DEPTH && Reached(f, screens, m, depth)
  }

  /** The search must read a module, or follow a path, that does not exist. */
  ghost predicate Broken(f: Files, screens: seq<string>) {
    || (exists path, depth: nat :: depth <= MAX_IMPORT_DEPTH && Offered(f, screens, path, depth)
          && path !in f.canonical)
    || (exists m :: Near(f, screens, m) && m !in f.imports)
  }

  // ----- the search -----

  type Pending = seq<(string, nat)>

  /** A path that needs no more work: outside the project, or a module found at most this deep. */
  ghost predicate Settled(f: Files, found: map<string, nat>, path: string, depth: nat) {
    path in f.canonical
        && (f.inRoot(f.canonical[path]) ==> f.canonical[path] in found && found[f.canonical[path]] <= depth)
  }

  ghost predicate Handled(f: Files, pending: Pending, found: map<string, nat>, path: string, depth: nat) {
    (path, depth) in pending || Settled(f, found, path, depth)
  }

  /** Depths in the queue do not decrease and differ by at most one. */
  ghost predicate Ordered(pending: Pending) {
    forall i, j :: 0 <= i <= j < |pending| ==> pending[i].1 <= pending[j].1 <= pending[0].1 + 1
  }

  ghost predicate QueueIsSound(f: Files, screens: seq<string>, pending: Pending) {
    forall i :: 0 <= i < |pending|
        ==> pending[i].1 <= MAX_IMPORT_DEPTH && Offered(f, screens, pending[i].0, pending[i].1)
  }

  /** Everything found was reached at its recorded depth, and no deeper than what is still queued. */
  ghost predicate FoundIsSound(f: Files, screens: seq<string>, pending: Pending, found: map<string, nat>) {
    forall m <- found ::
      && found[m] <= MAX_IMPORT_DEPTH && Reached(f, screens, m, found[m])
      && m in f.imports
      && (pending != [] ==> found[m] <= pending[0].1)
  }

  ghost predicate NothingLost(f: Files, screens: seq<string>, pending: Pending, found: map<string, nat>) {
    && (forall path <- screens :: Handled(f, pending, found, path, 0))
    && (forall m, path :: m in found && found[m] < MAX_IMPORT_DEPTH && Imports(f, m, path)
          ==> Handled(f, pending, found, path, found[m] + 1))
  }

  function Queue(paths: seq<string>, depth: nat): (r: Pending)
    ensures |r| == |paths| && forall i :: 0 <= i < |r| ==> r[i] == (paths[i], depth)
  {
    seq(|paths|, i requires 0 <= i < |paths| => (paths[i], depth))
  }

  lemma SettledStays(f: Files, screens: seq<string>, pending: Pending, found: map<string, nat>, rest: Pending,
                     more: map<string, nat>, first: (string, nat))
    requires NothingLost(f, screens, pending, found)
    requires forall entry <- pending :: entry == first || entry in rest
    requires Settled(f, more, first.0, first.1)
    requires forall m <- found :: m in more && more[m] == found[m]
    ensures forall path <- screens :: Handled(f, rest, more, path, 0)
    ensures forall m, path :: m in found && found[m] < MAX_IMPORT_DEPTH && Imports(f, m, path)
              ==> Handled(f, rest, more, path, found[m] + 1)
  {
    forall path, depth | Handled(f, pending, found, path, depth) ensures Handled(f, rest, more, path, depth) {
    }
  }

  lemma {:induction false} NothingMissing(f: Files, screens: seq<string>, found: map<string, nat>, m: string,
                                          depth: nat)
    requires NothingLost(f, screens, [], found)
    requires depth <= MAX_IMPORT_DEPTH && Reached(f, screens, m, depth)
    ensures m in found && found[m] <= depth
    decreases depth
  {
    var path :| Offered(f, screens, path, depth) && IsModule(f, path, m);
    OfferedIsSettled(f, screens, found, path, depth);
  }

  lemma {:induction false} OfferedIsSettled(f: Files, screens: seq<string>, found: map<string, nat>, path: string,
                                            depth: nat)
    requires NothingLost(f, screens, [], found)
    requires depth <= MAX_IMPORT_DEPTH && Offered(f, screens, path, depth)
    ensures Settled(f, found, path, depth)
    decreases depth, 0
  {
    if depth == 0 {
      assert Handled(f, [], found, path, 0);
    } else {
      var n :| Reached(f, screens, n, depth - 1) && Imports(f, n, path);
      NothingMissing(f, screens, found, n, depth - 1);
      assert Handled(f, [], found, path, found[n] + 1);
    }
  }

  /** A search that ends with an empty queue found exactly the near modules, and nothing was broken. */
  lemma SearchIsComplete(f: Files, screens: seq<string>, found: map<string, nat>)
    requires Invariant(f, screens, [], found)
    ensures forall m :: m in found <==> Near(f, screens, m)
    ensures !Broken(f, screens)
  {
    forall m | Near(f, screens, m) ensures m in found {
      var depth: nat :| depth <= MAX_IMPORT_DEPTH && Reached(f, screens, m, depth);
      NothingMissing(f, screens, found, m, depth);
    }
    forall path, depth: nat | depth <= MAX_IMPORT_DEPTH && Offered(f, screens, path, depth)
      ensures path in f.canonical
    {
      OfferedIsSettled(f, screens, found, path, depth);
    }
  }

  lemma ImportsAreQueued(f: Files, screens: seq<string>, m: string, depth: nat, rest: Pending, pending: Pending)
    requires m in f.imports && depth < MAX_IMPORT_DEPTH && Reached(f, screens, m, depth)
    requires pending == rest + Queue(f.imports[m], depth + 1)
    requires QueueIsSound(f, screens, rest)
    ensures forall path :: Imports(f, m, path) ==> (path, depth + 1) in pending
    ensures forall entry <- rest :: entry in pending
    ensures QueueIsSound(f, screens, pending)
  {
    forall path | Imports(f, m, path) ensures (path, depth + 1) in pending {
      var i :| 0 <= i < |f.imports[m]| && f.imports[m][i] == path;
      assert pending[|rest| + i] == (path, depth + 1);
    }
    forall i | |rest| <= i < |pending| ensures Offered(f, screens, pending[i].0, depth + 1) {
      assert Imports(f, m, pending[i].0);
    }
  }

  ghost predicate Invariant(f: Files, screens: seq<string>, pending: Pending, found: map<string, nat>) {
    && Ordered(pending) && QueueIsSound(f, screens, pending)
    && FoundIsSound(f, screens, pending, found) && NothingLost(f, screens, pending, found)
  }

  lemma StartHolds(f: Files, screens: seq<string>)
    ensures Invariant(f, screens, Queue(screens, 0), map[])
  {
    forall path <- screens ensures (path, 0) in Queue(screens, 0) {
      var i :| 0 <= i < |screens| && screens[i] == path;
      assert Queue(screens, 0)[i] == (path, 0);
    }
  }

  /** The path at the front needs no work. */
  lemma SkipKeeps(f: Files, screens: seq<string>, pending: Pending, found: map<string, nat>)
    requires pending != [] && Invariant(f, screens, pending, found)
    requires var path := pending[0].0;
             path in f.canonical && (!f.inRoot(f.canonical[path]) || f.canonical[path] in found)
    ensures Invariant(f, screens, pending[1..], found)
  {
    hide Offered, Reached;
    SettledStays(f, screens, pending, found, pending[1..], found, pending[0]);
  }

  /** The path at the front is a module not found before; `queued` are the imports it adds. */
  ghost predicate Adds(f: Files, pending: Pending, found: map<string, nat>, queued: Pending) {
    && pending != [] && pending[0].1 <= MAX_IMPORT_DEPTH
    && var (path, depth) := pending[0];
    && path in f.canonical && f.inRoot(f.canonical[path])
    && f.canonical[path] !in found && f.canonical[path] in f.imports
    && queued == if depth == MAX_IMPORT_DEPTH then [] else Queue(f.imports[f.canonical[path]], depth + 1)
  }

  lemma QueueingKeepsOrder(pending: Pending, paths: seq<string>)
    requires pending != [] && Ordered(pending)
    ensures Ordered(pending[1..]) && Ordered(pending[1..] + Queue(paths, pending[0].1 + 1))
  {
  }

  lemma FrontIsReached(f: Files, screens: seq<string>, pending: Pending)
    requires pending != [] && QueueIsSound(f, screens, pending)
    requires pending[0].0 in f.canonical && f.inRoot(f.canonical[pending[0].0])
    ensures Reached(f, screens, f.canonical[pending[0].0], pending[0].1)
    ensures QueueIsSound(f, screens, pending[1..])
  {
    assert Offered(f, screens, pending[0].0, pending[0].1);
    assert IsModule(f, pending[0].0, f.canonical[pending[0].0]);
  }

  lemma AddKeepsQueue(f: Files, screens: seq<string>, pending: Pending, found: map<string, nat>, queued: Pending)
    requires Adds(f, pending, found, queued) && Ordered(pending) && QueueIsSound(f, screens, pending)
    ensures Ordered(pending[1..] + queued) && QueueIsSound(f, screens, pending[1..] + queued)
    ensures Reached(f, screens, f.canonical[pending[0].0], pending[0].1)
  {
    hide Offered, Reached, Ordered, QueueIsSound;
    var (path, depth) := pending[0];
    var m := f.canonical[path];
    FrontIsReached(f, screens, pending);
    QueueingKeepsOrder(pending, f.imports[m]);
    if depth < MAX_IMPORT_DEPTH {
      ImportsAreQueued(f, screens, m, depth, pending[1..], pending[1..] + queued);
    } else {
      assert pending[1..] + queued == pending[1..];
    }
  }

  lemma AddKeepsFound(f: Files, screens: seq<string>, pending: Pending, found: map<string, nat>, queued: Pending)
    requires Adds(f, pending, found, queued) && Ordered(pending)
    requires FoundIsSound(f, screens, pending, found) && Reached(f, screens, f.canonical[pending[0].0], pending[0].1)
    ensures FoundIsSound(f, screens, pending[1..] + queued, found[f.canonical[pending[0].0] := pending[0].1])
  {
    hide Reached;
    var rest := pending[1..] + queued;
    assert rest != [] ==> pending[0].1 <= rest[0].1;
  }

  lemma AddLosesNothing(f: Files, screens: seq<string>, pending: Pending, found: map<string, nat>, queued: Pending)
    requires Adds(f, pending, found, queued) && NothingLost(f, screens, pending, found)
    requires QueueIsSound(f, screens, pending) && Reached(f, screens, f.canonical[pending[0].0], pending[0].1)
    ensures NothingLost(f, screens, pending[1..] + queued, found[f.canonical[pending[0].0] := pending[0].1])
  {
    hide Offered, Reached;
    var (path, depth) := pending[0];
    var m := f.canonical[path];
    SettledStays(f, screens, pending, found, pending[1..] + queued, found[m := depth], pending[0]);
    if depth < MAX_IMPORT_DEPTH {
      ImportsAreQueued(f, screens, m, depth, pending[1..], pending[1..] + queued);
    }
  }

  lemma AddKeeps(f: Files, screens: seq<string>, pending: Pending, found: map<string, nat>, queued: Pending)
    requires Invariant(f, screens, pending, found) && Adds(f, pending, found, queued)
    ensures Invariant(f, screens, pending[1..] + queued, found[f.canonical[pending[0].0] := pending[0].1])
  {
    hide Ordered, QueueIsSound, FoundIsSound, NothingLost, Reached;
    AddKeepsQueue(f, screens, pending, found, queued);
    AddKeepsFound(f, screens, pending, found, queued);
    AddLosesNothing(f, screens, pending, found, queued);
  }

  lemma FrontDepth(f: Files, screens: seq<string>, pending: Pending, found: map<string, nat>)
    requires pending != [] && Invariant(f, screens, pending, found)
    ensures pending[0].1 <= MAX_IMPORT_DEPTH
  {
  }

  lemma FrontIsBroken(f: Files, screens: seq<string>, pending: Pending, found: map<string, nat>)
    requires pending != [] && Invariant(f, screens, pending, found)
    requires var path := pending[0].0;
             path !in f.canonical || (f.inRoot(f.canonical[path]) && f.canonical[path] !in f.imports)
    ensures Broken(f, screens)
  {
    var (path, depth) := pending[0];
    if path in f.canonical {
      assert IsModule(f, path, f.canonical[path]) && Reached(f, screens, f.canonical[path], depth);
    }
  }

  /**
    Breadth-first search with a visited set and a depth cutoff. It terminates on every finite set of
    files, fails exactly when it must, and otherwise returns precisely the project's modules reached
    from a screen by at most sixteen imports.
   */
  method FindScreenModules(f: Files, screens: seq<string>) returns (r: Result<set<string>, SearchError>)
    ensures r.Success? ==> forall m :: m in r.value <==> Near(f, screens, m)
    ensures r.Failure? <==> Broken(f, screens)
  {
    hide Invariant, Reached, Offered, Near, Broken;
    var pending := Queue(screens, 0);
    var modules: set<string> := {};
    ghost var found: map<string, nat> := map[];
    StartHolds(f, screens);
    while pending != []
      invariant modules == found.Keys <= f.canonical.Values
      invariant Invariant(f, screens, pending, found)
      decreases f.canonical.Values - modules, |pending|
    {
      ghost var before := pending;
      FrontDepth(f, screens, pending, found);
      var (path, depth) := pending[0];
      pending := pending[1..];
      if path !in f.canonical {
        FrontIsBroken(f, screens, before, found);
        return Failure(Unreadable(path));
      }
      var m := f.canonical[path];
      if !f.inRoot(m) || m in modules {
        SkipKeeps(f, screens, before, found);
        continue;
      }
      modules := modules + {m};
      if m !in f.imports {
        FrontIsBroken(f, screens, before, found);
        return Failure(Unreadable(m));
      }
      ghost var known := found;
      found := found[m := depth];
      if depth == MAX_IMPORT_DEPTH {
        AddKeeps(f, screens, before, known, []);
        assert pending + [] == pending;
        continue;
      }
      AddKeeps(f, screens, before, known, Queue(f.imports[m], depth + 1));
      for i := 0 to |f.imports[m]|
        invariant pending == before[1..] + Queue(f.imports[m][..i], depth + 1)
      {
        pending := pending + [(f.imports[m][i], depth + 1)];
      }
      assert f.imports[m][..|f.imports[m]|] == f.imports[m];
    }
    SearchIsComplete(f, screens, found);
    r := Success(modules);
  }

  // ----- reachability in terms of import paths -----

  /** A sequence of project modules from a screen, each imported by the one before it. */
  ghost predicate IsImportPath(f: Files, screens: seq<string>, chain: seq<string>) {
    && chain != []
    && (exists path :: path in screens && IsModule(f, path, chain[0]))
    && forall i :: 0 <= i < |chain| - 1 ==> ImportsModule(f, chain[i], chain[i + 1])
  }

  ghost predicate ImportsModule(f: Files, from: string, to: string) {
    exists path :: Imports(f, from, path) && IsModule(f, path, to)
  }

  lemma {:induction false} ReachedMeansPath(f: Files, screens: seq<string>, m: string, depth: nat)
    ensures Reached(f, screens, m, depth)
            <==> exists chain :: IsImportPath(f, screens, chain) && |chain| == depth + 1 && chain[depth] == m
    decreases depth
  {
    if Reached(f, screens, m, depth) {
      var path :| Offered(f, screens, path, depth) && IsModule(f, path, m);
      if depth == 0 {
        assert IsImportPath(f, screens, [m]);
      } else {
        var n :| Reached(f, screens, n, depth - 1) && Imports(f, n, path);
        ReachedMeansPath(f, screens, n, depth - 1);
        var chain :| IsImportPath(f, screens, chain) && |chain| == depth && chain[depth - 1] == n;
        assert ImportsModule(f, n, m);
        assert IsImportPath(f, screens, chain + [m]);
      }
    }
    if chain :| IsImportPath(f, screens, chain) && |chain| == depth + 1 && chain[depth] == m {
      if depth == 0 {
        var path :| path in screens && IsModule(f, path, chain[0]);
        assert Offered(f, screens, path, 0);
      } else {
        var front := chain[..depth];
        assert IsImportPath(f, screens, front) && front[depth - 1] == chain[depth - 1];
        ReachedMeansPath(f, screens, chain[depth - 1], depth - 1);
        assert ImportsModule(f, chain[depth - 1], chain[depth - 1 + 1]);
        var path :| Imports(f, chain[depth - 1], path) && IsModule(f, path, m);
        assert Offered(f, screens, path, depth);
      }
    }
  }

  /** The near modules are the ends of import paths of length at most sixteen. */
  lemma NearMeansShortPath(f: Files, screens: seq<string>, m: string)
    ensures Near(f, screens, m)
            <==> exists chain :: IsImportPath(f, screens, chain) && |chain| - 1 <= MAX_IMPORT_DEPTH
                   && chain[|chain| - 1] == m
  {
    if Near(f, screens, m) {
      var depth: nat :| depth <= MAX_IMPORT_DEPTH && Reached(f, screens, m, depth);
      ReachedMeansPath(f, screens, m, depth);
    }
    if chain :| IsImportPath(f, screens, chain) && |chain| - 1 <= MAX_IMPORT_DEPTH && chain[|chain| - 1] == m {
      ReachedMeansPath(f, screens, m, |chain| - 1);
    }
  }
}
