/**
  The comparison of two documents as an object that appends to a list of reports, and what an empty
  list means.
 */
module DocumentComparison {
  import opened Wrappers
  import opened Resolution
  import opened Schemas
  import opened Reports
  import opened Security
  import opened PathTemplates
  import opened OpenApiDocument
  import opened DocumentOperations
  import opened Conformance
  import SchemaRules
  import SchemaComparison
  import SchemaSoundness
  import DocumentContract
  import DocumentRenaming

  /** A break at a place of an operation, or inside the schemas compared at that place. */
  datatype Report =
    | AtPlace(rule: Rule, key: OperationKey, place: Place)
    | InSchema(key: OperationKey, place: Place, broken: Break)

  // ----- the reports and errors in what a comparison finds -----

  ghost function ReportsOf(finding: Finding): set<Report> {
    match finding
    case Outside(rule, key, place) => {AtPlace(rule, key, place)}
    case Inside(direction, key, place, event) =>
      set b | event.Compared?
              && b in SchemaRules.LocalBreaks(direction, event.base, event.current, event.pointer) ::
                    InSchema(key, place, b)
    case Failed(_) => {}
  }

  ghost function ReportsIn(findings: set<Finding>): set<Report> {
    set finding, report | finding in findings && report in ReportsOf(finding) :: report
  }

  ghost function ErrorsOf(finding: Finding): set<ResolveError> {
    match finding
    case Outside(_, _, _) => {}
    case Inside(_, _, _, event) => if event.Raised? then {event.error} else {}
    case Failed(error) => {error}
  }

  ghost function ErrorsIn(findings: set<Finding>): set<ResolveError> {
    set finding, error | finding in findings && error in ErrorsOf(finding) :: error
  }

  lemma InUnion(left: set<Finding>, right: set<Finding>)
    ensures ReportsIn(left + right) == ReportsIn(left) + ReportsIn(right)
    ensures ErrorsIn(left + right) == ErrorsIn(left) + ErrorsIn(right)
  {
    hide ReportsOf, ErrorsOf;
  }

  lemma InNothing()
    ensures ReportsIn({}) == {} && ErrorsIn({}) == {}
  {
  }

  lemma InPart(part: set<Finding>, whole: set<Finding>)
    requires part <= whole
    ensures ErrorsIn(part) <= ErrorsIn(whole)
  {
    hide ErrorsOf;
  }

  lemma InOne(rule: Rule, key: OperationKey, place: Place)
    ensures ReportsIn({Outside(rule, key, place)}) == {AtPlace(rule, key, place)}
    ensures ErrorsIn({Outside(rule, key, place)}) == {}
  {
    assert ReportsOf(Outside(rule, key, place)) == {AtPlace(rule, key, place)};
  }

  lemma InError(error: ResolveError)
    ensures error in ErrorsIn({Failed(error)})
  {
    assert error in ErrorsOf(Failed(error));
  }

  ghost function Placed(key: OperationKey, place: Place, breaks: set<Break>): set<Report> {
    set b | b in breaks :: InSchema(key, place, b)
  }

  /** The reports and errors of one schema comparison are its breaks and its errors. */
  lemma InSchemas(base: Document, current: Document, direction: Direction, key: OperationKey, place: Place, b: Schema,
                  c: Schema)
    ensures var events := SchemaComparison.Walk(SchemaDocs(base, current), b, c, [], {});
            var findings := SchemaFindings(base, current, direction, key, place, b, c);
            && ReportsIn(findings) == Placed(key, place, SchemaComparison.BreaksIn(direction, events))
            && (!SchemaComparison.Raises(events) ==> ErrorsIn(findings) == {})
            && (forall error :: SchemaComparison.Raised(error) in events ==> error in ErrorsIn(findings))
  {
    hide SchemaComparison.Walk, SchemaRules.LocalBreaks;
    var events := SchemaComparison.Walk(SchemaDocs(base, current), b, c, [], {});
    var findings := SchemaFindings(base, current, direction, key, place, b, c);
    forall event | event in events ensures Inside(direction, key, place, event) in findings {
    }
    var placed := Placed(key, place, SchemaComparison.BreaksIn(direction, events));
    forall report | report in placed ensures report in ReportsIn(findings) {
      var event :| event in events && event.Compared?
                   && report.broken in SchemaRules.LocalBreaks(direction, event.base, event.current, event.pointer);
      assert report in ReportsOf(Inside(direction, key, place, event));
    }
    forall report | report in ReportsIn(findings) ensures report in placed {
      var finding :| finding in findings && report in ReportsOf(finding);
      assert finding.event in events;
    }
    forall error | SchemaComparison.Raised(error) in events ensures error in ErrorsIn(findings) {
      assert error in ErrorsOf(Inside(direction, key, place, SchemaComparison.Raised(error)));
    }
  }

  // ----- one key after the other -----

  ghost function MediaFindings(base: Document, current: Document, direction: Direction, key: OperationKey,
                               place: string -> Place, removed: Rule, b: Content, c: Content,
                               media: string): set<Finding>
    requires media in b
  {
    if media in c
    then SchemaFindings(base, current, direction, key, place(media), SchemaOr(b[media]), SchemaOr(c[media]))
    else {Outside(removed, key, place(media))}
  }

  ghost function MediasFindings(base: Document, current: Document, direction: Direction, key: OperationKey,
                                place: string -> Place, removed: Rule, b: Content, c: Content,
                                medias: set<string>): set<Finding> {
    set media, f | media in medias && media in b
                   && f in MediaFindings(base, current, direction, key, place, removed, b, c, media) :: f
  }

  lemma MediaIsFound(base: Document, current: Document, direction: Direction, key: OperationKey, place: string -> Place,
                     removed: Rule, b: Content, c: Content, media: string)
    requires media in b
    ensures MediaFindings(base, current, direction, key, place, removed, b, c, media)
         <= ContentFindings(base, current, direction, key, place, removed, b, c)
  {
    hide SchemaFindings, SchemaOr;
  }

  lemma FoundInMedia(base: Document, current: Document, direction: Direction, key: OperationKey, place: string -> Place,
                     removed: Rule, b: Content, c: Content, f: Finding)
    requires f in ContentFindings(base, current, direction, key, place, removed, b, c)
    ensures f in MediasFindings(base, current, direction, key, place, removed, b, c, b.Keys)
  {
    hide SchemaFindings, SchemaOr;
    if media :| media in b && media !in c && f == Outside(removed, key, place(media)) {
      assert f in MediaFindings(base, current, direction, key, place, removed, b, c, media);
    } else {
      var media :| media in b && media in c
                   && f in SchemaFindings(base, current, direction, key, place(media), SchemaOr(b[media]),
                                          SchemaOr(c[media]));
      assert f in MediaFindings(base, current, direction, key, place, removed, b, c, media);
    }
  }

  lemma ContentSplit(base: Document, current: Document, direction: Direction, key: OperationKey, place: string -> Place,
                     removed: Rule, b: Content, c: Content)
    ensures ContentFindings(base, current, direction, key, place, removed, b, c)
         == MediasFindings(base, current, direction, key, place, removed, b, c, b.Keys)
  {
    hide ContentFindings, MediaFindings;
    forall f | f in ContentFindings(base, current, direction, key, place, removed, b, c)
      ensures f in MediasFindings(base, current, direction, key, place, removed, b, c, b.Keys)
    {
      hide MediasFindings;
      FoundInMedia(base, current, direction, key, place, removed, b, c, f);
    }
    forall media | media in b
      ensures MediaFindings(base, current, direction, key, place, removed, b, c, media)
           <= ContentFindings(base, current, direction, key, place, removed, b, c)
    {
      MediaIsFound(base, current, direction, key, place, removed, b, c, media);
    }
  }

  lemma MediasStep(base: Document, current: Document, direction: Direction, key: OperationKey, place: string -> Place,
                   removed: Rule, b: Content, c: Content, done: set<string>, media: string)
    requires media in b
    ensures MediasFindings(base, current, direction, key, place, removed, b, c, done + {media})
         == MediasFindings(base, current, direction, key, place, removed, b, c, done)
            + MediaFindings(base, current, direction, key, place, removed, b, c, media)
  {
    hide MediaFindings;
  }

  ghost function RequiredFindings(key: OperationKey, bs: map<ParameterKey, Parameter>, cs: map<ParameterKey, Parameter>,
                                  keys: set<ParameterKey>): set<Finding> {
    set k | k in keys && NewlyRequired(bs, cs, k) :: Outside(ParameterRequired, key, InParameter(k))
  }

  ghost function KeptFindings(base: Document, current: Document, key: OperationKey, bs: map<ParameterKey, Parameter>,
                              cs: map<ParameterKey, Parameter>, keys: set<ParameterKey>): set<Finding> {
    set k, f | k in keys && k in bs && f in PairFindings(base, current, key, bs, cs, k) :: f
  }

  ghost function PairFindings(base: Document, current: Document, key: OperationKey, bs: map<ParameterKey, Parameter>,
                              cs: map<ParameterKey, Parameter>, k: ParameterKey): set<Finding>
    requires k in bs
  {
    if k in cs
    then SchemaFindings(base, current, Request, key, InParameter(k), ParameterSchema(bs[k]), ParameterSchema(cs[k]))
    else {Outside(ParameterRemoved, key, InParameter(k))}
  }

  lemma ParametersSplit(base: Document, current: Document, key: OperationKey, b: Entry, c: Entry)
    requires Parameters(base, b).Success? && Parameters(current, c).Success?
    ensures var bs, cs := Parameters(base, b).value, Parameters(current, c).value;
            ParameterFindings(base, current, key, b, c)
            == RequiredFindings(key, bs, cs, cs.Keys) + KeptFindings(base, current, key, bs, cs, bs.Keys)
  {
    hide SchemaFindings, Parameters, NewlyRequired, ParameterSchema;
    var bs, cs := Parameters(base, b).value, Parameters(current, c).value;
    var whole := ParameterFindings(base, current, key, b, c);
    forall k | k in bs ensures PairFindings(base, current, key, bs, cs, k) <= whole {
    }
    forall f | f in whole
      ensures f in RequiredFindings(key, bs, cs, cs.Keys) + KeptFindings(base, current, key, bs, cs, bs.Keys)
    {
      if f !in RequiredFindings(key, bs, cs, cs.Keys) {
        var k :| k in bs && f in PairFindings(base, current, key, bs, cs, k);
      }
    }
  }

  lemma KeptStep(base: Document, current: Document, key: OperationKey, bs: map<ParameterKey, Parameter>,
                 cs: map<ParameterKey, Parameter>, done: set<ParameterKey>, k: ParameterKey)
    requires k in bs
    ensures KeptFindings(base, current, key, bs, cs, done + {k})
         == KeptFindings(base, current, key, bs, cs, done) + PairFindings(base, current, key, bs, cs, k)
  {
    hide SchemaFindings, PairFindings;
  }

  ghost function AddedFindings(key: OperationKey, b: Operation, c: Operation, statuses: set<string>): set<Finding> {
    set status | status in statuses && status !in b.responses
                 && IsSuccess(status) :: Outside(SuccessStatusAdded, key, InResponse(status))
  }

  ghost function DocumentedFindings(base: Document, current: Document, key: OperationKey, b: Operation, c: Operation,
                                    statuses: set<string>): set<Finding> {
    set status, f | status in statuses && status in b.responses
                    && f in StatusFindings(base, current, key, b, c, status) :: f
  }

  lemma ResponsesSplit(base: Document, current: Document, key: OperationKey, b: Operation, c: Operation)
    ensures ResponseFindings(base, current, key, b, c)
         == AddedFindings(key, b, c, c.responses.Keys) + DocumentedFindings(base, current, key, b, c, b.responses.Keys)
  {
    hide StatusFindings, IsSuccess;
  }

  lemma DocumentedStep(base: Document, current: Document, key: OperationKey, b: Operation, c: Operation,
                       done: set<string>, status: string)
    requires status in b.responses
    ensures DocumentedFindings(base, current, key, b, c, done + {status})
         == DocumentedFindings(base, current, key, b, c, done) + StatusFindings(base, current, key, b, c, status)
  {
    hide StatusFindings;
  }

  ghost function KeysFindings(base: Document, current: Document, bs: map<OperationKey, Entry>,
                              cs: map<OperationKey, Entry>, keys: set<OperationKey>): set<Finding> {
    set key, f | key in keys && key in bs && f in KeyFindings(base, current, bs, cs, key) :: f
  }

  lemma KeysStep(base: Document, current: Document, bs: map<OperationKey, Entry>, cs: map<OperationKey, Entry>,
                 done: set<OperationKey>, key: OperationKey)
    requires key in bs
    ensures KeysFindings(base, current, bs, cs, done + {key})
         == KeysFindings(base, current, bs, cs, done) + KeyFindings(base, current, bs, cs, key)
  {
    hide KeyFindings;
  }

  // ----- collecting operations and parameters -----

  method AddEntries(before: map<OperationKey, Entry>, path: string, item: PathItem)
    returns (found: map<OperationKey, Entry>)
    ensures found == before + ItemEntries(path, item)
  {
    hide NormalizedPath, METHODS;
    found := before;
    assert before + map[] == before;
    for j := 0 to |METHODS|
      invariant found == before + Entries(path, item, METHODS[..j])
    {
      var verb := METHODS[j];
      assert METHODS[..j + 1][..j] == METHODS[..j];
      if verb in item.operations {
        found := found[(verb, NormalizedPath(path)) := Entry(path, item, item.operations[verb])];
      }
    }
    assert METHODS[..|METHODS|] == METHODS;
  }

  /** The selected operations by method and normalized path; later paths win. */
  method CollectOperations(d: Document, prefixes: seq<string>)
    returns (r: Result<map<OperationKey, Entry>, ResolveError>)
    ensures r == Operations(d, d.paths, prefixes)
  {
    hide NormalizedPath, Selected, ItemEntries;
    var found: map<OperationKey, Entry> := map[];
    for i := 0 to |d.paths|
      invariant Operations(d, d.paths[..i], prefixes) == Success(found)
    {
      assert d.paths[..i + 1][..i] == d.paths[..i];
      var (path, node) := d.paths[i];
      if !Selected(prefixes, path) {
        continue;
      }
      var resolved := ResolveNode(d.items, node);
      if resolved.Failure? {
        FailsEarly(d, prefixes, i);
        return Failure(resolved.error);
      }
      found := AddEntries(found, path, resolved.value);
    }
    assert d.paths[..|d.paths|] == d.paths;
    r := Success(found);
  }

  lemma {:induction false} FailsEarlier(d: Document, paths: seq<(string, Node<PathItem>)>, prefixes: seq<string>,
                                        n: nat)
    requires n <= |paths| && Operations(d, paths[..n], prefixes).Failure?
    ensures Operations(d, paths, prefixes) == Operations(d, paths[..n], prefixes)
    decreases |paths|
  {
    hide Selected, ItemEntries;
    if n == |paths| {
      assert paths[..n] == paths;
    } else {
      var front := paths[..|paths| - 1];
      assert front[..n] == paths[..n];
      FailsEarlier(d, front, prefixes, n);
    }
  }

  lemma FailsEarly(d: Document, prefixes: seq<string>, i: nat)
    requires i < |d.paths| && Operations(d, d.paths[..i], prefixes).Success?
    requires Selected(prefixes, d.paths[i].0) && Resolve(d.items, d.paths[i].1).Failure?
    ensures Operations(d, d.paths, prefixes) == Failure(Resolve(d.items, d.paths[i].1).error)
  {
    hide Selected, ItemEntries;
    assert d.paths[..i + 1][..i] == d.paths[..i];
    FailsEarlier(d, d.paths, prefixes, i + 1);
  }

  lemma {:induction false} MergeFailsEarlier(components: Components<Parameter>, nodes: seq<Node<Parameter>>,
                                             names: seq<string>, n: nat)
    requires n <= |nodes| && MergeParameters(components, nodes[..n], names).Failure?
    ensures MergeParameters(components, nodes, names) == MergeParameters(components, nodes[..n], names)
    decreases |nodes|
  {
    if n == |nodes| {
      assert nodes[..n] == nodes;
    } else {
      var front := nodes[..|nodes| - 1];
      assert front[..n] == nodes[..n];
      MergeFailsEarlier(components, front, names, n);
    }
  }

  /** The parameters of the path item and the operation; later ones replace earlier ones. */
  method CollectParameters(d: Document, entry: Entry) returns (r: Result<map<ParameterKey, Parameter>, ResolveError>)
    ensures r == Parameters(d, entry)
  {
    hide PathNames, KeyOf;
    var pathNames := PathNames(entry.path);
    var nodes := entry.item.parameters + entry.operation.parameters;
    var merged: map<ParameterKey, Parameter> := map[];
    for i := 0 to |nodes|
      invariant MergeParameters(d.parameters, nodes[..i], pathNames) == Success(merged)
    {
      assert nodes[..i + 1][..i] == nodes[..i];
      var parameter := ResolveNode(d.parameters, nodes[i]);
      if parameter.Failure? {
        MergeFailsEarlier(d.parameters, nodes, pathNames, i + 1);
        return Failure(parameter.error);
      }
      merged := merged[KeyOf(parameter.value, pathNames) := parameter.value];
    }
    assert nodes[..|nodes|] == nodes;
    r := Success(merged);
  }

  // ----- the comparison -----

  class Comparison {
    const base: Document
    const current: Document
    const prefixes: seq<string>
    var breaks: seq<Report>
    ghost var found: set<Report>

    ghost predicate Valid()
      reads this
    {
      forall report :: report in breaks <==> report in found
    }

    constructor (base: Document, current: Document, prefixes: seq<string>)
      ensures this.base == base && this.current == current && this.prefixes == prefixes && breaks == [] && Valid()
    {
      this.base, this.current, this.prefixes, breaks, found := base, current, prefixes, [], {};
    }

    /** Without an error the list grew by exactly the reports in these findings; an error is one of theirs. */
    twostate predicate Ran(new raised: Option<ResolveError>, new findings: set<Finding>)
      reads this
    {
      && Valid()
      && (if raised.Some? then raised.value in ErrorsIn(findings)
          else ErrorsIn(findings) == {} && old(breaks) <= breaks && found == old(found) + ReportsIn(findings))
    }

    method Add(rule: Rule, key: OperationKey, place: Place)
      requires Valid()
      modifies this`breaks, this`found
      ensures breaks == old(breaks) + [AtPlace(rule, key, place)]
      ensures Ran(None, {Outside(rule, key, place)})
    {
      breaks := breaks + [AtPlace(rule, key, place)];
      found := found + {AtPlace(rule, key, place)};
      InOne(rule, key, place);
    }

    method CompareSchema(b: Schema, c: Schema, direction: Direction, key: OperationKey, place: Place)
      returns (raised: Option<ResolveError>)
      requires Valid()
      modifies this`breaks, this`found
      ensures Ran(raised, SchemaFindings(base, current, direction, key, place, b, c))
    {
      hide SchemaFindings, SchemaComparison.Walk, SchemaComparison.BreaksIn, SchemaComparison.Raises, ReportsIn,
           ErrorsIn;
      InSchemas(base, current, direction, key, place, b, c);
      var comparison := new SchemaComparison.SchemaComparison(SchemaDocs(base, current), direction);
      raised := comparison.Compare(b, c, [], {});
      if raised.Some? {
        return;
      }
      var collected := comparison.breaks;
      var reports := seq(|collected|, i requires 0 <= i < |collected| => InSchema(key, place, collected[i]));
      breaks := breaks + reports;
      found := found + Placed(key, place, comparison.found);
      PlacedReports(key, place, comparison.breaks, comparison.found, reports);
    }

    method CompareContent(key: OperationKey, place: string -> Place, b: Content, c: Content, direction: Direction,
                          removed: Rule)
      returns (raised: Option<ResolveError>)
      requires Valid()
      modifies this`breaks, this`found
      ensures Ran(raised, ContentFindings(base, current, direction, key, place, removed, b, c))
    {
      hide ReportsIn, ErrorsIn, SchemaFindings, MediasFindings, ContentFindings;
      raised := None;
      ContentSplit(base, current, direction, key, place, removed, b, c);
      ghost var findings :=
          (keys: set<string>) => MediasFindings(base, current, direction, key, place, removed, b, c, keys);
      NoMedias(base, current, direction, key, place, removed, b, c);
      InNothing();
      var left := b.Keys;
      assert b.Keys - left == {};
      while left != {}
        invariant left <= b.Keys && raised.None?
        invariant Ran(None, findings(b.Keys - left))
      {
        var media :| media in left;
        ghost var done := b.Keys - left;
        left := left - {media};
        assert b.Keys - left == done + {media};
        ghost var one := MediaFindings(base, current, direction, key, place, removed, b, c, media);
        MediasStep(base, current, direction, key, place, removed, b, c, done, media);
        InUnion(findings(done), one);
        if media !in c {
          Add(removed, key, place(media));
          continue;
        }
        raised := CompareSchema(SchemaOr(b[media]), SchemaOr(c[media]), direction, key, place(media));
        if raised.Some? {
          MediaIsFound(base, current, direction, key, place, removed, b, c, media);
          InPart(one, ContentFindings(base, current, direction, key, place, removed, b, c));
          return;
        }
      }
      assert b.Keys - left == b.Keys;
    }

    method CompareSecurityOptions(key: OperationKey, b: Operation, c: Operation)
      requires Valid()
      modifies this`breaks, this`found
      ensures Ran(None, SecurityFindings(base, current, key, b, c))
    {
      hide ReportsIn, ErrorsIn;
      var lost :=
          CompareSecurity(SecurityOptions(base.security, b.security), SecurityOptions(current.security, c.security));
      InNothing();
      assert Lost(key, lost[..0]) == {};
      for i := 0 to |lost|
        invariant Ran(None, Lost(key, lost[..i]))
      {
        LostStep(key, lost, i);
        InUnion(Lost(key, lost[..i]), {Outside(SecurityChanged, key, SecurityOption(lost[i]))});
        Add(SecurityChanged, key, SecurityOption(lost[i]));
      }
      assert lost[..|lost|] == lost;
      assert Lost(key, lost) == SecurityFindings(base, current, key, b, c);
    }

    method CompareParameters(key: OperationKey, b: Entry, c: Entry) returns (raised: Option<ResolveError>)
      requires Valid()
      modifies this`breaks, this`found
      ensures Ran(raised, ParameterFindings(base, current, key, b, c))
    {
      hide Parameters, ParameterFindings, RequiredFindings, KeptFindings, ReportsIn, ErrorsIn;
      ParametersFail(base, current, key, b, c);
      var bs := CollectParameters(base, b);
      if bs.Failure? {
        return Some(bs.error);
      }
      var cs := CollectParameters(current, c);
      if cs.Failure? {
        return Some(cs.error);
      }
      ParametersSplit(base, current, key, b, c);
      var required, kept := RequiredFindings(key, bs.value, cs.value, cs.value.Keys),
                            KeptFindings(base, current, key, bs.value, cs.value, bs.value.Keys);
      InUnion(required, kept);
      InPart(kept, required + kept);
      CheckRequired(key, bs.value, cs.value);
      raised := ComparePairs(key, bs.value, cs.value);
    }

    method CheckRequired(key: OperationKey, bs: map<ParameterKey, Parameter>, cs: map<ParameterKey, Parameter>)
      requires Valid()
      modifies this`breaks, this`found
      ensures Ran(None, RequiredFindings(key, bs, cs, cs.Keys))
    {
      hide ReportsIn, ErrorsIn;
      InNothing();
      assert RequiredFindings(key, bs, cs, {}) == {};
      var left := cs.Keys;
      assert cs.Keys - left == {};
      while left != {}
        invariant left <= cs.Keys
        invariant Ran(None, RequiredFindings(key, bs, cs, cs.Keys - left))
      {
        var k :| k in left;
        ghost var done := cs.Keys - left;
        left := left - {k};
        assert cs.Keys - left == done + {k};
        RequiredStep(key, bs, cs, done, k);
        InUnion(RequiredFindings(key, bs, cs, done), RequiredFindings(key, bs, cs, {k}));
        if !cs[k].required {
          continue;
        }
        if k !in bs || !bs[k].required {
          Add(ParameterRequired, key, InParameter(k));
        }
      }
      assert cs.Keys - left == cs.Keys;
    }

    method ComparePairs(key: OperationKey, bs: map<ParameterKey, Parameter>, cs: map<ParameterKey, Parameter>)
      returns (raised: Option<ResolveError>)
      requires Valid()
      modifies this`breaks, this`found
      ensures Ran(raised, KeptFindings(base, current, key, bs, cs, bs.Keys))
    {
      hide ReportsIn, ErrorsIn, SchemaFindings, KeptFindings, ParameterSchema;
      raised := None;
      InNothing();
      NothingKept(base, current, key, bs, cs);
      var left := bs.Keys;
      assert bs.Keys - left == {};
      while left != {}
        invariant left <= bs.Keys && raised.None?
        invariant Ran(None, KeptFindings(base, current, key, bs, cs, bs.Keys - left))
      {
        var k :| k in left;
        ghost var done := bs.Keys - left;
        left := left - {k};
        assert bs.Keys - left == done + {k};
        ghost var one := PairFindings(base, current, key, bs, cs, k);
        KeptStep(base, current, key, bs, cs, done, k);
        InUnion(KeptFindings(base, current, key, bs, cs, done), one);
        if k !in cs {
          Add(ParameterRemoved, key, InParameter(k));
          continue;
        }
        raised := CompareSchema(ParameterSchema(bs[k]), ParameterSchema(cs[k]), Request, key, InParameter(k));
        if raised.Some? {
          PairIsKept(base, current, key, bs, cs, k);
          InPart(one, KeptFindings(base, current, key, bs, cs, bs.Keys));
          return;
        }
      }
      assert bs.Keys - left == bs.Keys;
    }

    method CompareRequestBody(key: OperationKey, b: Operation, c: Operation) returns (raised: Option<ResolveError>)
      requires Valid()
      modifies this`breaks, this`found
      ensures Ran(raised, BodyFindings(base, current, key, b, c))
    {
      hide ReportsIn, ErrorsIn, ContentFindings, ResolveBody;
      raised := None;
      var baseBody := OptionalBody(base, b.requestBody);
      if baseBody.Failure? {
        InError(baseBody.error);
        return Some(baseBody.error);
      }
      var currentBody := OptionalBody(current, c.requestBody);
      if currentBody.Failure? {
        InError(currentBody.error);
        return Some(currentBody.error);
      }
      var bb, cb := baseBody.value, currentBody.value;
      ghost var required: set<Finding> := {};
      InNothing();
      label L:
      if cb.Some? && cb.value.required {
        if bb.None? || !bb.value.required {
          Add(RequestBodyRequired, key, InRequest);
          required := {Outside(RequestBodyRequired, key, InRequest)};
        }
      }
      assert Ran@L(None, required);
      if bb.None? || cb.None? {
        assert required + {} == required;
        return;
      }
      var place := m => InRequestMedia(m);
      ghost var contents :=
          ContentFindings(base, current, Request, key, place, RequestMediaTypeRemoved, bb.value.content,
                          cb.value.content);
      assert BodyFindings(base, current, key, b, c) == required + contents;
      InUnion(required, contents);
      raised := CompareContent(key, place, bb.value.content, cb.value.content, Request, RequestMediaTypeRemoved);
    }

    method CompareResponses(key: OperationKey, b: Operation, c: Operation) returns (raised: Option<ResolveError>)
      requires Valid()
      modifies this`breaks, this`found
      ensures Ran(raised, ResponseFindings(base, current, key, b, c))
    {
      hide ResponseFindings, AddedFindings, DocumentedFindings, ReportsIn, ErrorsIn;
      ResponsesSplit(base, current, key, b, c);
      InUnion(AddedFindings(key, b, c, c.responses.Keys),
              DocumentedFindings(base, current, key, b, c, b.responses.Keys));
      CheckStatuses(key, b, c);
      raised := CompareStatuses(key, b, c);
    }

    method CheckStatuses(key: OperationKey, b: Operation, c: Operation)
      requires Valid()
      modifies this`breaks, this`found
      ensures Ran(None, AddedFindings(key, b, c, c.responses.Keys))
    {
      hide ReportsIn, ErrorsIn, IsSuccess;
      InNothing();
      assert AddedFindings(key, b, c, {}) == {};
      var left := c.responses.Keys;
      assert c.responses.Keys - left == {};
      while left != {}
        invariant left <= c.responses.Keys
        invariant Ran(None, AddedFindings(key, b, c, c.responses.Keys - left))
      {
        var status :| status in left;
        ghost var done := c.responses.Keys - left;
        left := left - {status};
        assert c.responses.Keys - left == done + {status};
        AddedStep(key, b, c, done, status);
        InUnion(AddedFindings(key, b, c, done), AddedFindings(key, b, c, {status}));
        if status !in b.responses && IsSuccess(status) {
          Add(SuccessStatusAdded, key, InResponse(status));
        }
      }
      assert c.responses.Keys - left == c.responses.Keys;
    }

    method CompareStatuses(key: OperationKey, b: Operation, c: Operation) returns (raised: Option<ResolveError>)
      requires Valid()
      modifies this`breaks, this`found
      ensures Ran(raised, DocumentedFindings(base, current, key, b, c, b.responses.Keys))
    {
      hide ReportsIn, ErrorsIn, StatusFindings, DocumentedFindings;
      raised := None;
      InNothing();
      NothingDocumented(base, current, key, b, c);
      var left := b.responses.Keys;
      assert b.responses.Keys - left == {};
      while left != {}
        invariant left <= b.responses.Keys && raised.None?
        invariant Ran(None, DocumentedFindings(base, current, key, b, c, b.responses.Keys - left))
      {
        var status :| status in left;
        ghost var done := b.responses.Keys - left;
        left := left - {status};
        assert b.responses.Keys - left == done + {status};
        ghost var one := StatusFindings(base, current, key, b, c, status);
        DocumentedStep(base, current, key, b, c, done, status);
        InUnion(DocumentedFindings(base, current, key, b, c, done), one);
        raised := CompareStatus(key, b, c, status);
        if raised.Some? {
          StatusIsDocumented(base, current, key, b, c, status);
          InPart(one, DocumentedFindings(base, current, key, b, c, b.responses.Keys));
          return;
        }
      }
      assert b.responses.Keys - left == b.responses.Keys;
    }

    method CompareStatus(key: OperationKey, b: Operation, c: Operation, status: string)
      returns (raised: Option<ResolveError>)
      requires Valid() && status in b.responses
      modifies this`breaks, this`found
      ensures Ran(raised, StatusFindings(base, current, key, b, c, status))
    {
      hide ReportsIn, ErrorsIn, ContentFindings;
      raised := None;
      if status !in c.responses {
        Add(ResponseRemoved, key, InResponse(status));
        return;
      }
      var baseContent := ResolveNode(base.responses, b.responses[status]);
      if baseContent.Failure? {
        InError(baseContent.error);
        return Some(baseContent.error);
      }
      var currentContent := ResolveNode(current.responses, c.responses[status]);
      if currentContent.Failure? {
        InError(currentContent.error);
        return Some(currentContent.error);
      }
      raised :=
          CompareContent(key, m => InResponseMedia(status, m), baseContent.value, currentContent.value, Response,
                         ResponseMediaTypeRemoved);
    }

    /** The checks of one operation, in the order of `compare_operation`. */
    method CompareOperation(key: OperationKey, b: Entry, c: Entry) returns (raised: Option<ResolveError>)
      requires Valid()
      modifies this`breaks, this`found
      ensures Ran(raised, OperationFindings(base, current, key, b, c))
    {
      hide ReportsIn, ErrorsIn, SecurityFindings, ParameterFindings, BodyFindings, ResponseFindings;
      var ids, security := IdFindings(key, b.operation, c.operation),
                           SecurityFindings(base, current, key, b.operation, c.operation);
      ghost var parameters, body := ParameterFindings(base, current, key, b, c),
                                    BodyFindings(base, current, key, b.operation, c.operation);
      ghost var responses := ResponseFindings(base, current, key, b.operation, c.operation);
      InUnion(ids, security);
      InUnion(ids + security, parameters);
      InUnion(ids + security + parameters, body);
      InUnion(ids + security + parameters + body, responses);
      InNothing();
      if b.operation.operationId.Some? && b.operation.operationId != c.operation.operationId {
        Add(OperationIdChanged, key, Whole);
      }
      CompareSecurityOptions(key, b.operation, c.operation);
      raised := CompareParameters(key, b, c);
      if raised.Some? {
        return;
      }
      raised := CompareRequestBody(key, b.operation, c.operation);
      if raised.Some? {
        return;
      }
      raised := CompareResponses(key, b.operation, c.operation);
    }

    /** Collects the operations of both documents and compares each base operation with the current one. */
    method Run() returns (raised: Option<ResolveError>)
      requires Valid()
      modifies this`breaks, this`found
      ensures Ran(raised, Findings(base, current, prefixes))
    {
      hide ReportsIn, ErrorsIn, Operations, OperationFindings, KeysFindings, Findings;
      raised := None;
      RunFails(base, current, prefixes);
      var baseOperations := CollectOperations(base, prefixes);
      if baseOperations.Failure? {
        return Some(baseOperations.error);
      }
      var currentOperations := CollectOperations(current, prefixes);
      if currentOperations.Failure? {
        return Some(currentOperations.error);
      }
      var bs, cs := baseOperations.value, currentOperations.value;
      InNothing();
      NoKeys(base, current, bs, cs);
      var left := bs.Keys;
      assert bs.Keys - left == {};
      while left != {}
        invariant left <= bs.Keys && raised.None?
        invariant Ran(None, KeysFindings(base, current, bs, cs, bs.Keys - left))
      {
        var key :| key in left;
        ghost var done := bs.Keys - left;
        left := left - {key};
        assert bs.Keys - left == done + {key};
        ghost var one := KeyFindings(base, current, bs, cs, key);
        KeysStep(base, current, bs, cs, done, key);
        InUnion(KeysFindings(base, current, bs, cs, done), one);
        if key !in cs {
          Add(OperationRemoved, key, Whole);
          continue;
        }
        raised := CompareOperation(key, bs[key], cs[key]);
        if raised.Some? {
          KeyIsFound(base, current, bs, cs, key);
          InPart(one, KeysFindings(base, current, bs, cs, bs.Keys));
          return;
        }
      }
      assert bs.Keys - left == bs.Keys;
    }
  }

  // ----- the steps of the loops above -----

  method OptionalBody(d: Document, body: Option<Node<RequestBody>>)
    returns (r: Result<Option<RequestBody>, ResolveError>)
    ensures r == ResolveBody(d, body)
  {
    if body.None? {
      return Success(None);
    }
    var resolved := ResolveNode(d.bodies, body.value);
    if resolved.Failure? {
      return Failure(resolved.error);
    }
    r := Success(Some(resolved.value));
  }

  ghost function Lost(key: OperationKey, options: seq<Requirement>): set<Finding> {
    set option | option in options :: Outside(SecurityChanged, key, SecurityOption(option))
  }

  lemma LostStep(key: OperationKey, options: seq<Requirement>, i: nat)
    requires i < |options|
    ensures Lost(key, options[..i + 1])
         == Lost(key, options[..i]) + {Outside(SecurityChanged, key, SecurityOption(options[i]))}
  {
    assert options[..i + 1] == options[..i] + [options[i]];
  }

  lemma NoMedias(base: Document, current: Document, direction: Direction, key: OperationKey, place: string -> Place,
                 removed: Rule, b: Content, c: Content)
    ensures MediasFindings(base, current, direction, key, place, removed, b, c, {}) == {}
  {
  }

  lemma ParametersFail(base: Document, current: Document, key: OperationKey, b: Entry, c: Entry)
    ensures var bs, cs := Parameters(base, b), Parameters(current, c);
            var errors := ErrorsIn(ParameterFindings(base, current, key, b, c));
            (bs.Failure? ==> bs.error in errors) && (bs.Success? && cs.Failure? ==> cs.error in errors)
  {
    hide ErrorsIn, Parameters;
    if Parameters(base, b).Failure? {
      InError(Parameters(base, b).error);
    } else if Parameters(current, c).Failure? {
      InError(Parameters(current, c).error);
    }
  }

  lemma RequiredStep(key: OperationKey, bs: map<ParameterKey, Parameter>, cs: map<ParameterKey, Parameter>,
                     done: set<ParameterKey>, k: ParameterKey)
    ensures RequiredFindings(key, bs, cs, done + {k})
         == RequiredFindings(key, bs, cs, done) + RequiredFindings(key, bs, cs, {k})
    ensures RequiredFindings(key, bs, cs, {k}) == if NewlyRequired(bs, cs, k)
                                                  then {Outside(ParameterRequired, key, InParameter(k))} else {}
  {
    hide NewlyRequired;
  }

  lemma NothingKept(base: Document, current: Document, key: OperationKey, bs: map<ParameterKey, Parameter>,
                    cs: map<ParameterKey, Parameter>)
    ensures KeptFindings(base, current, key, bs, cs, {}) == {}
  {
  }

  lemma PairIsKept(base: Document, current: Document, key: OperationKey, bs: map<ParameterKey, Parameter>,
                   cs: map<ParameterKey, Parameter>, k: ParameterKey)
    requires k in bs
    ensures PairFindings(base, current, key, bs, cs, k) <= KeptFindings(base, current, key, bs, cs, bs.Keys)
  {
    hide PairFindings;
  }

  lemma AddedStep(key: OperationKey, b: Operation, c: Operation, done: set<string>, status: string)
    ensures AddedFindings(key, b, c, done + {status})
         == AddedFindings(key, b, c, done) + AddedFindings(key, b, c, {status})
    ensures AddedFindings(key, b, c, {status})
         == if status !in b.responses && IsSuccess(status) then {Outside(SuccessStatusAdded, key, InResponse(status))}
            else {}
  {
    hide IsSuccess;
  }

  lemma NothingDocumented(base: Document, current: Document, key: OperationKey, b: Operation, c: Operation)
    ensures DocumentedFindings(base, current, key, b, c, {}) == {}
  {
  }

  lemma StatusIsDocumented(base: Document, current: Document, key: OperationKey, b: Operation, c: Operation,
                           status: string)
    requires status in b.responses
    ensures StatusFindings(base, current, key, b, c, status)
         <= DocumentedFindings(base, current, key, b, c, b.responses.Keys)
  {
    hide StatusFindings;
  }

  lemma NoKeys(base: Document, current: Document, bs: map<OperationKey, Entry>, cs: map<OperationKey, Entry>)
    ensures KeysFindings(base, current, bs, cs, {}) == {}
  {
  }

  lemma KeyIsFound(base: Document, current: Document, bs: map<OperationKey, Entry>, cs: map<OperationKey, Entry>,
                   key: OperationKey)
    requires key in bs
    ensures KeyFindings(base, current, bs, cs, key) <= KeysFindings(base, current, bs, cs, bs.Keys)
  {
    hide KeyFindings;
  }

  lemma RunFails(base: Document, current: Document, prefixes: seq<string>)
    ensures var bs, cs := Operations(base, base.paths, prefixes), Operations(current, current.paths, prefixes);
            var findings := Findings(base, current, prefixes);
            && (bs.Failure? ==> bs.error in ErrorsIn(findings))
            && (bs.Success? && cs.Failure? ==> cs.error in ErrorsIn(findings))
            && (bs.Success? && cs.Success?
                ==> findings == KeysFindings(base, current, bs.value, cs.value, bs.value.Keys))
  {
    hide ErrorsIn, Operations, KeyFindings;
    if Operations(base, base.paths, prefixes).Failure? {
      InError(Operations(base, base.paths, prefixes).error);
    } else if Operations(current, current.paths, prefixes).Failure? {
      InError(Operations(current, current.paths, prefixes).error);
    }
  }

  lemma PlacedReports(key: OperationKey, place: Place, breaks: seq<Break>, found: set<Break>, reports: seq<Report>)
    requires forall b :: b in breaks <==> b in found
    requires |reports| == |breaks| && forall i :: 0 <= i < |breaks| ==> reports[i] == InSchema(key, place, breaks[i])
    ensures forall report :: report in reports <==> report in Placed(key, place, found)
  {
    forall report | report in Placed(key, place, found) ensures report in reports {
      var i :| 0 <= i < |breaks| && breaks[i] == report.broken;
      assert reports[i] == report;
    }
  }

  // ----- what a run without reports means -----

  /** Every schema comparison meets what soundness takes for granted. */
  ghost predicate AllFindingsGranted(added: Keywords -> set<string>, findings: set<Finding>) {
    forall finding <- findings :: finding.Inside? ==> SchemaSoundness.Granted(finding.direction, added, finding.event)
  }

  /** A finding that is not clean shows in the reports or in the errors. */
  lemma DirtyFindingShows(added: Keywords -> set<string>, finding: Finding)
    requires !DocumentContract.CleanFinding(added, finding)
    requires finding.Inside? ==> SchemaSoundness.Granted(finding.direction, added, finding.event)
    ensures ReportsOf(finding) != {} || ErrorsOf(finding) != {}
  {
    hide SchemaRules.LocalBreaks, SchemaSoundness.Granted;
    match finding {
      case Outside(rule, key, place) =>
        assert AtPlace(rule, key, place) in ReportsOf(finding);
      case Inside(direction, key, place, event) =>
        if event.Compared? {
          var b :| b in SchemaRules.LocalBreaks(direction, event.base, event.current, event.pointer);
          assert InSchema(key, place, b) in ReportsOf(finding);
        } else {
          assert event.error in ErrorsOf(finding);
        }
      case Failed(error) =>
        assert error in ErrorsOf(finding);
    }
  }

  lemma NothingReportedIsClean(added: Keywords -> set<string>, findings: set<Finding>)
    requires ReportsIn(findings) == {} && ErrorsIn(findings) == {} && AllFindingsGranted(added, findings)
    ensures DocumentContract.Clean(added, findings)
  {
    hide SchemaSoundness.Granted, DocumentContract.CleanFinding, ReportsOf, ErrorsOf;
    forall finding | finding in findings ensures DocumentContract.CleanFinding(added, finding) {
      assert ReportsOf(finding) <= ReportsIn(findings) && ErrorsOf(finding) <= ErrorsIn(findings);
      if !DocumentContract.CleanFinding(added, finding) {
        DirtyFindingShows(added, finding);
      }
    }
  }

  /** The check as it is run: two documents in, the list of reports or an error out. */
  method Check(base: Document, current: Document, prefixes: seq<string>) returns (r: Result<seq<Report>, ResolveError>)
    ensures r.Success? <==> ErrorsIn(Findings(base, current, prefixes)) == {}
    ensures r.Success? ==> forall report :: report in r.value
                             <==> report in ReportsIn(Findings(base, current, prefixes))
    ensures r.Failure? ==> r.error in ErrorsIn(Findings(base, current, prefixes))
  {
    hide ReportsIn, ErrorsIn, Findings;
    var comparison := new Comparison(base, current, prefixes);
    var raised := comparison.Run();
    if raised.Some? {
      return Failure(raised.value);
    }
    r := Success(comparison.breaks);
  }

  /**
    The promise kept: when the check ends without an error and with an empty list, every selected
    path of both documents resolves, and every operation of the base document that no later path
    shadows is still there, serves what its clients send and answers as they expect.
   */
  lemma EmptyListProtectsClients(m: Meaning, base: Document, current: Document, added: Keywords -> set<string>,
                                 prefixes: seq<string>, key: OperationKey, i: nat, steps: nat)
    requires !m.exclusive && AllFindingsGranted(added, Findings(base, current, prefixes))
    requires ReportsIn(Findings(base, current, prefixes)) == {} && ErrorsIn(Findings(base, current, prefixes)) == {}
    ensures AllItemsResolve(base, base.paths, prefixes) && AllItemsResolve(current, current.paths, prefixes)
    ensures Shows(base, base.paths, prefixes, key, i) ==>
              exists j: nat :: Shows(current, current.paths, prefixes, key, j)
                               && DocumentContract.Protects(m, base, current, added, steps,
                                                            EntryAt(base, base.paths, key.0, i),
                                                            EntryAt(current, current.paths, key.0, j))
  {
    hide Findings, ReportsIn, ErrorsIn, AllFindingsGranted, Operations, Shows, EntryAt, AllItemsResolve,
         DocumentContract.Protects;
    NothingReportedIsClean(added, Findings(base, current, prefixes));
    DocumentContract.CleanComparisonProtectsClients(m, base, current, added, prefixes, key, steps);
    OperationsSucceed(base, base.paths, prefixes);
    OperationsSucceed(current, current.paths, prefixes);
    OperationsMean(base, base.paths, prefixes, key);
    OperationsMean(current, current.paths, prefixes, key);
    if Shows(base, base.paths, prefixes, key, i) {
      var j: nat :| Shows(current, current.paths, prefixes, key, j);
    }
  }

  /** A copy with renamed path variables passes the check, when the document's references resolve. */
  lemma RenamedCopyPasses(d: Document, renaming: DocumentRenaming.Renaming, prefixes: seq<string>)
    requires forall i :: 0 <= i < |d.paths| ==> DocumentRenaming.MayRename(d, prefixes, d.paths[i], renaming)
    requires DocumentRenaming.DocumentResolves(d)
    ensures var findings := Findings(d, DocumentRenaming.RenameDocument(d, renaming), prefixes);
            ReportsIn(findings) == {} && ErrorsIn(findings) == {}
  {
    hide Findings, ReportsIn, ErrorsIn, DocumentRenaming.Quiet, DocumentRenaming.MayRename,
         DocumentRenaming.PathResolves;
    DocumentRenaming.RenamingIsCompatible(d, renaming, prefixes);
    QuietReportsNothing(Findings(d, DocumentRenaming.RenameDocument(d, renaming), prefixes));
  }

  lemma QuietReportsNothing(findings: set<Finding>)
    requires DocumentRenaming.Quiet(true, findings)
    ensures ReportsIn(findings) == {} && ErrorsIn(findings) == {}
  {
    hide SchemaRules.LocalBreaks;
    forall finding | finding in findings ensures ReportsOf(finding) == {} && ErrorsOf(finding) == {} {
    }
  }
}
