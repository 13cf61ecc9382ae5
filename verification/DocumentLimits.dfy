/** An input on which the comparison of documents misses an operation. */
module DocumentLimits {
  import opened Wrappers
  import opened Resolution
  import opened Reports
  import opened Security
  import opened PathTemplates
  import opened OpenApiDocument
  import opened DocumentOperations
  import opened Conformance
  import opened DocumentComparison
  import DocumentContract
  import DocumentRenaming
  import SchemaComparison

  /** The first operation accepts every caller, the second only callers with a credential. */
  const OPEN_OPERATION := Operation(None, None, [], None, map[])
  const GUARDED_OPERATION := Operation(None, Some([map["key" := {}]]), [], None, map[])

  function GetOnly(operation: Operation): Node<PathItem> {
    Here(PathItem([], map[GET := operation]))
  }

  function WithPaths(paths: Paths): Document {
    Document(map[], map[], map[], map[], map[], None, paths)
  }

  const SHADOWED := WithPaths([("/{a}", GetOnly(OPEN_OPERATION)), ("/{b}", GetOnly(GUARDED_OPERATION))])
  const REMAINING := WithPaths([("/{b}", GetOnly(GUARDED_OPERATION))])
  const KEY: OperationKey := (GET, "/{}")

  lemma NormalForms()
    ensures NormalizedPath("/{a}") == "/{}" && NormalizedPath("/{b}") == "/{}"
  {
    OneVariable("a");
    OneVariable("b");
  }

  lemma OneVariable(name: string)
    requires IsName(name)
    ensures NormalizedPath("/{" + name + "}") == "/{}"
  {
    var tail := [Variable(name)];
    var pieces := [Literal('/')] + tail;
    assert pieces[1..] == tail && tail[1..] == [];
    assert Scanned(tail) && Scanned(pieces);
    assert Render(tail) == "{" + (name + ("}" + ""));
    assert Render(pieces) == "/" + Render(tail) == "/{" + name + "}";
    ScanOfRendered(pieces);
    assert NormalForm(tail) == "{}";
    assert NormalForm(pieces) == "/" + NormalForm(tail);
  }

  // ----- the paths of a document matter only through its operations -----

  lemma SchemasElsewhere(d: Document, e: Document, current: Document)
    requires d.schemas == e.schemas
    ensures forall direction, key, place, b, c ::
              SchemaFindings(d, current, direction, key, place, b, c)
                  == SchemaFindings(e, current, direction, key, place, b, c)
  {
    hide SchemaComparison.Walk;
  }

  lemma ContentElsewhere(d: Document, e: Document, current: Document, direction: Direction, key: OperationKey,
                         place: string -> Place, removed: Rule, b: Content, c: Content)
    requires d.schemas == e.schemas
    ensures ContentFindings(d, current, direction, key, place, removed, b, c)
         == ContentFindings(e, current, direction, key, place, removed, b, c)
  {
    hide SchemaFindings, SchemaOr;
    SchemasElsewhere(d, e, current);
  }

  /** Everything of an entry that a comparison looks at. */
  ghost predicate SameEntry(b: Entry, e: Entry) {
    b.path == e.path && b.operation == e.operation && b.item.parameters == e.item.parameters
  }

  lemma ParametersElsewhere(d: Document, e: Document, current: Document, key: OperationKey, b: Entry, other: Entry,
                            c: Entry)
    requires e == d.(paths := e.paths) && SameEntry(b, other)
    ensures ParameterFindings(d, current, key, b, c) == ParameterFindings(e, current, key, other, c)
  {
    hide SchemaFindings, MergeParameters, NewlyRequired, ParameterSchema;
    SchemasElsewhere(d, e, current);
    assert Parameters(d, b) == Parameters(e, other);
  }

  lemma BodyElsewhere(d: Document, e: Document, current: Document, key: OperationKey, b: Operation, c: Operation)
    requires e == d.(paths := e.paths)
    ensures BodyFindings(d, current, key, b, c) == BodyFindings(e, current, key, b, c)
  {
    hide ContentFindings;
    if ResolveBody(d, b.requestBody).Success? && ResolveBody(current, c.requestBody).Success? {
      var bb, cb := ResolveBody(d, b.requestBody).value, ResolveBody(current, c.requestBody).value;
      if bb.Some? && cb.Some? {
        ContentElsewhere(d, e, current, Request, key, m => InRequestMedia(m), RequestMediaTypeRemoved, bb.value.content,
                         cb.value.content);
      }
    }
  }

  lemma StatusElsewhere(d: Document, e: Document, current: Document, key: OperationKey, b: Operation, c: Operation,
                        status: string)
    requires e == d.(paths := e.paths) && status in b.responses
    ensures StatusFindings(d, current, key, b, c, status) == StatusFindings(e, current, key, b, c, status)
  {
    hide ContentFindings;
    if status in c.responses {
      var bc, cc := Resolve(d.responses, b.responses[status]), Resolve(current.responses, c.responses[status]);
      if bc.Success? && cc.Success? {
        ContentElsewhere(d, e, current, Response, key, m => InResponseMedia(status, m), ResponseMediaTypeRemoved,
                         bc.value, cc.value);
      }
    }
  }

  lemma ResponsesElsewhere(d: Document, e: Document, current: Document, key: OperationKey, b: Operation, c: Operation)
    requires e == d.(paths := e.paths)
    ensures ResponseFindings(d, current, key, b, c) == ResponseFindings(e, current, key, b, c)
  {
    hide StatusFindings, IsSuccess;
    forall status | status in b.responses
      ensures StatusFindings(d, current, key, b, c, status) == StatusFindings(e, current, key, b, c, status)
    {
      StatusElsewhere(d, e, current, key, b, c, status);
    }
  }

  lemma OperationElsewhere(d: Document, e: Document, current: Document, key: OperationKey, b: Entry, other: Entry,
                           c: Entry)
    requires e == d.(paths := e.paths) && SameEntry(b, other)
    ensures OperationFindings(d, current, key, b, c) == OperationFindings(e, current, key, other, c)
  {
    ParametersElsewhere(d, e, current, key, b, other, c);
    BodyElsewhere(d, e, current, key, b.operation, c.operation);
    ResponsesElsewhere(d, e, current, key, b.operation, c.operation);
    hide ParameterFindings, BodyFindings, ResponseFindings;
  }

  /** The same error, or the same operations under the same keys. */
  ghost predicate SameOperations(b: Result<map<OperationKey, Entry>, ResolveError>,
                                 e: Result<map<OperationKey, Entry>, ResolveError>) {
    if b.Failure? then b == e
    else e.Success? && b.value.Keys == e.value.Keys && forall key <- b.value :: SameEntry(b.value[key], e.value[key])
  }

  /**
    A comparison depends on the paths of the base document only through the operations collected
    from them: what a later path shadows is compared with nothing.
   */
  lemma OnlyShownOperationsCount(d: Document, e: Document, current: Document, prefixes: seq<string>)
    requires e == d.(paths := e.paths)
    requires SameOperations(Operations(d, d.paths, prefixes), Operations(e, e.paths, prefixes))
    ensures Findings(d, current, prefixes) == Findings(e, current, prefixes)
  {
    hide OperationFindings, Operations, SameEntry;
    var bs, es := Operations(d, d.paths, prefixes), Operations(e, e.paths, prefixes);
    var cs := Operations(current, current.paths, prefixes);
    if bs.Success? && cs.Success? {
      forall key | key in bs.value
        ensures KeyFindings(d, current, bs.value, cs.value, key) == KeyFindings(e, current, es.value, cs.value, key)
      {
        if key in cs.value {
          OperationElsewhere(d, e, current, key, bs.value[key], es.value[key], cs.value[key]);
        }
      }
      hide KeyFindings;
    }
  }

  // ----- taking a shadowed operation away -----

  /** The document without one operation of its i-th path. */
  function WithoutOperation(d: Document, i: nat, verb: Method): Document
    requires i < |d.paths| && Resolve(d.items, d.paths[i].1).Success?
  {
    var item := Resolve(d.items, d.paths[i].1).value;
    d.(paths := d.paths[i := (d.paths[i].0, Here(item.(operations := item.operations - {verb})))])
  }

  lemma StillDeclares(d: Document, prefixes: seq<string>, key: OperationKey, i: nat, other: OperationKey, j: nat)
    requires Declares(d, d.paths, prefixes, key, i)
    ensures var e := WithoutOperation(d, i, key.0);
            Declares(e, e.paths, prefixes, other, j)
            <==> Declares(d, d.paths, prefixes, other, j) && !(j == i && other == key)
  {
    hide NormalizedPath, Selected;
  }

  /** What is shown stays shown, by the same path, and nothing else is. */
  lemma StillShows(d: Document, prefixes: seq<string>, key: OperationKey, i: nat, other: OperationKey, j: nat)
    requires Declares(d, d.paths, prefixes, key, i) && !Shows(d, d.paths, prefixes, key, i)
    ensures var e := WithoutOperation(d, i, key.0);
            Shows(e, e.paths, prefixes, other, j) <==> Shows(d, d.paths, prefixes, other, j)
  {
    var e := WithoutOperation(d, i, key.0);
    forall k: nat
      ensures Declares(e, e.paths, prefixes, other, k)
              <==> Declares(d, d.paths, prefixes, other, k) && !(k == i && other == key)
    {
      StillDeclares(d, prefixes, key, i, other, k);
    }
    hide Declares, WithoutOperation;
  }

  lemma EntryStays(d: Document, prefixes: seq<string>, key: OperationKey, i: nat, other: OperationKey, j: nat)
    requires Declares(d, d.paths, prefixes, key, i) && Declares(d, d.paths, prefixes, other, j)
    requires var e := WithoutOperation(d, i, key.0); Declares(e, e.paths, prefixes, other, j)
    ensures var e := WithoutOperation(d, i, key.0);
            SameEntry(EntryAt(d, d.paths, other.0, j), EntryAt(e, e.paths, other.0, j))
  {
    hide NormalizedPath, Selected;
  }

  /** The paths before the n-th fail on the same reference, or on none. */
  lemma {:induction false} SameError(d: Document, prefixes: seq<string>, i: nat, verb: Method, n: nat)
    requires i < |d.paths| && Resolve(d.items, d.paths[i].1).Success? && n <= |d.paths|
    ensures var e := WithoutOperation(d, i, verb);
            var b, c := Operations(d, d.paths[..n], prefixes), Operations(e, e.paths[..n], prefixes);
            if b.Failure? then c == b else c.Success?
  {
    hide Selected, ItemEntries;
    var e := WithoutOperation(d, i, verb);
    if n > 0 {
      SameError(d, prefixes, i, verb, n - 1);
      assert d.paths[..n][..n - 1] == d.paths[..n - 1] && e.paths[..n][..n - 1] == e.paths[..n - 1];
      assert n - 1 != i ==> d.paths[n - 1] == e.paths[n - 1];
    }
  }

  lemma OperationsStay(d: Document, prefixes: seq<string>, key: OperationKey, i: nat)
    requires Declares(d, d.paths, prefixes, key, i) && !Shows(d, d.paths, prefixes, key, i)
    ensures var e := WithoutOperation(d, i, key.0);
            SameOperations(Operations(d, d.paths, prefixes), Operations(e, e.paths, prefixes))
  {
    var e := WithoutOperation(d, i, key.0);
    SameError(d, prefixes, i, key.0, |d.paths|);
    assert d.paths[..|d.paths|] == d.paths && e.paths[..|e.paths|] == e.paths;
    if Operations(d, d.paths, prefixes).Success? {
      forall other
        ensures var b, c := Operations(d, d.paths, prefixes).value, Operations(e, e.paths, prefixes).value;
                (other in b <==> other in c) && (other in b ==> SameEntry(b[other], c[other]))
      {
        KeyStays(d, prefixes, key, i, other);
      }
    }
    hide Operations, SameEntry, Declares, Shows, WithoutOperation;
  }

  lemma KeyStays(d: Document, prefixes: seq<string>, key: OperationKey, i: nat, other: OperationKey)
    requires Declares(d, d.paths, prefixes, key, i) && !Shows(d, d.paths, prefixes, key, i)
    requires Operations(d, d.paths, prefixes).Success?
    requires var e := WithoutOperation(d, i, key.0); Operations(e, e.paths, prefixes).Success?
    ensures var e := WithoutOperation(d, i, key.0);
            var b, c := Operations(d, d.paths, prefixes).value, Operations(e, e.paths, prefixes).value;
            (other in b <==> other in c) && (other in b ==> SameEntry(b[other], c[other]))
  {
    hide Operations, SameEntry, WithoutOperation, EntryAt;
    var e := WithoutOperation(d, i, key.0);
    OperationsMean(d, d.paths, prefixes, other);
    OperationsMean(e, e.paths, prefixes, other);
    forall j: nat ensures Shows(e, e.paths, prefixes, other, j) <==> Shows(d, d.paths, prefixes, other, j) {
      StillShows(d, prefixes, key, i, other, j);
    }
    if other in Operations(d, d.paths, prefixes).value {
      var j: nat :| Shows(d, d.paths, prefixes, other, j);
      EntryStays(d, prefixes, key, i, other, j);
    }
  }

  /**
    An operation that a later path shadows is compared with nothing: for every document, taking it
    away changes nothing a comparison finds.
   */
  lemma ShadowedOperationsDoNotCount(d: Document, current: Document, prefixes: seq<string>, key: OperationKey, i: nat)
    requires Declares(d, d.paths, prefixes, key, i) && !Shows(d, d.paths, prefixes, key, i)
    ensures Findings(d, current, prefixes) == Findings(WithoutOperation(d, i, key.0), current, prefixes)
  {
    OperationsStay(d, prefixes, key, i);
    hide Findings, Operations, SameOperations;
    OnlyShownOperationsCount(d, WithoutOperation(d, i, key.0), current, prefixes);
  }

  // ----- the shadowed operation -----

  /** Both documents show the guarded operation, and nothing else. */
  lemma ShadowedOperations()
    ensures SameOperations(Operations(SHADOWED, SHADOWED.paths, []), Operations(REMAINING, REMAINING.paths, []))
  {
    OperationsSucceed(SHADOWED, SHADOWED.paths, []);
    OperationsSucceed(REMAINING, REMAINING.paths, []);
    forall key
      ensures var b := Operations(SHADOWED, SHADOWED.paths, []).value;
              var e := Operations(REMAINING, REMAINING.paths, []).value;
              (key in b <==> key in e) && (key in b ==> SameEntry(b[key], e[key]))
    {
      ShadowedKey(key);
    }
    hide Operations, SameEntry;
  }

  lemma ShadowedKey(key: OperationKey)
    requires Operations(SHADOWED, SHADOWED.paths, []).Success? && Operations(REMAINING, REMAINING.paths, []).Success?
    ensures var b := Operations(SHADOWED, SHADOWED.paths, []).value;
            var e := Operations(REMAINING, REMAINING.paths, []).value;
            (key in b <==> key in e) && (key in b ==> SameEntry(b[key], e[key]))
  {
    hide Operations, NormalizedPath;
    NormalForms();
    OperationsMean(SHADOWED, SHADOWED.paths, [], key);
    OperationsMean(REMAINING, REMAINING.paths, [], key);
    assert key == KEY ==> Shows(SHADOWED, SHADOWED.paths, [], key, 1) && Shows(REMAINING, REMAINING.paths, [], key, 0);
  }

  lemma RemainingPasses()
    ensures ReportsIn(Findings(REMAINING, REMAINING, [])) == {} && ErrorsIn(Findings(REMAINING, REMAINING, [])) == {}
  {
    assert DocumentRenaming.DocumentResolves(REMAINING);
    hide DocumentRenaming.DocumentResolves, Findings, ReportsIn, ErrorsIn, DocumentRenaming.Quiet, REMAINING;
    DocumentRenaming.DocumentIsCompatibleWithItself(REMAINING, []);
    QuietReportsNothing(Findings(REMAINING, REMAINING, []));
  }

  const CALL := DocumentContract.Call(map[], map[], None)

  /**
    When two paths of the base document differ only in the names of their variables, the operations
    of the earlier one are not compared: here it disappears, a client that calls it without a
    credential is no longer served, and the list of reports is empty.
   */
  lemma ShadowedOperationIsNotCompared(m: Meaning, steps: nat)
    ensures Declares(SHADOWED, SHADOWED.paths, [], KEY, 0) && !Shows(SHADOWED, SHADOWED.paths, [], KEY, 0)
    ensures ReportsIn(Findings(SHADOWED, REMAINING, [])) == {} && ErrorsIn(Findings(SHADOWED, REMAINING, [])) == {}
    ensures DocumentContract.Sends(m, SHADOWED, Strict(NoNames), steps, EntryAt(SHADOWED, SHADOWED.paths, GET, 0), CALL)
    ensures !DocumentContract.Serves(m, REMAINING, Strict(NoNames), steps, EntryAt(REMAINING, REMAINING.paths, GET, 0),
                                     CALL)
  {
    ShadowedDeclares();
    OpenSends(m, steps);
    GuardedServesNot(m, steps);
    assert !Shows(SHADOWED, SHADOWED.paths, [], KEY, 0);
    hide Findings, ReportsIn, ErrorsIn, Operations, Declares, Shows, DocumentContract.Sends, DocumentContract.Serves,
         EntryAt;
    ShadowedOperations();
    OnlyShownOperationsCount(SHADOWED, REMAINING, REMAINING, []);
    RemainingPasses();
  }

  lemma ShadowedDeclares()
    ensures Declares(SHADOWED, SHADOWED.paths, [], KEY, 0) && Declares(SHADOWED, SHADOWED.paths, [], KEY, 1)
    ensures EntryAt(SHADOWED, SHADOWED.paths, GET, 0) == Entry("/{a}", GetOnly(OPEN_OPERATION).value, OPEN_OPERATION)
    ensures EntryAt(REMAINING, REMAINING.paths, GET, 0)
         == Entry("/{b}", GetOnly(GUARDED_OPERATION).value, GUARDED_OPERATION)
  {
    hide NormalizedPath;
    NormalForms();
  }

  lemma OpenSends(m: Meaning, steps: nat)
    ensures DocumentContract.Sends(m, SHADOWED, Strict(NoNames), steps,
                                   Entry("/{a}", GetOnly(OPEN_OPERATION).value, OPEN_OPERATION), CALL)
  {
  }

  lemma GuardedServesNot(m: Meaning, steps: nat)
    ensures !DocumentContract.Serves(m, REMAINING, Strict(NoNames), steps,
                                     Entry("/{b}", GetOnly(GUARDED_OPERATION).value, GUARDED_OPERATION), CALL)
  {
    var requirement: Requirement := map["key" := {}];
    assert GUARDED_OPERATION.security == Some([requirement]) && "key" in requirement;
    assert !HasScopes(map[], "key", requirement["key"]);
    assert !HasAll(map[], requirement);
    assert !MeetsOne([requirement], map[]);
  }
}
