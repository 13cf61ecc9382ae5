/**
  What a whole comparison reports: which pairs of schema objects it reaches, and that its breaks are
  exactly what those pairs warrant.
 */
module SchemaReports {
  import opened Wrappers
  import opened Resolution
  import opened Schemas
  import opened CompositionMatching
  import opened Reports
  import opened SchemaRules
  import opened SchemaComparison
  import opened SchemaLimits
  import opened SchemaExactness

  // ----- one step down -----

  /** The subschema a step leads to. */
  function At(k: Keywords, step: Step): Option<Schema> {
    match step
    case Property(name) => Get(k.properties, name)
    case Extra => if k.additional.Typed? then Some(k.additional.schema) else None
    case Element => k.items
    case Member(keyword, index) =>
      if keyword in k.composition && index < |k.composition[keyword].members|
      then Some(k.composition[keyword].members[index]) else None
  }

  /**
    Subschemas are compared exactly when the same step leads to both of them; members of compositions
    when the base member is at that index and the matching pairs it with the current one.
   */
  lemma ChildrenAreExact(b: Keywords, c: Keywords, child: Child)
    ensures child in Children(b, c)
         <==> && At(b, child.step) == Some(child.base)
              && match child.step
                 case Member(keyword, index) =>
                   keyword in c.composition
                       && Pair(index, child.base, child.current) in MatchMembers(b, c, keyword).pairs
                 case _ => At(c, child.step) == Some(child.current)
  {
    hide MatchMembers, MemberChildren;
    OtherMembers(b, c, OneOf, child);
    OtherMembers(b, c, AnyOf, child);
    OtherMembers(b, c, AllOf, child);
    match child.step
    case Member(keyword, index) =>
      MemberChildrenAreExact(b, c, keyword, child);
      assert keyword == OneOf || keyword == AnyOf || keyword == AllOf;
    case _ =>
  }

  lemma OtherMembers(b: Keywords, c: Keywords, keyword: Composition, child: Child)
    ensures child in MemberChildren(b, c, keyword) ==> child.step.Member? && child.step.composition == keyword
  {
    hide MatchMembers;
  }

  lemma MemberChildrenAreExact(b: Keywords, c: Keywords, keyword: Composition, child: Child)
    requires child.step.Member? && child.step.composition == keyword
    ensures child in MemberChildren(b, c, keyword)
         <==> && At(b, child.step) == Some(child.base) && keyword in c.composition
              && Pair(child.step.index, child.base, child.current) in MatchMembers(b, c, keyword).pairs
  {
    if keyword in b.composition && keyword in c.composition {
      PairsAreAtTheirIndex(b, c, keyword);
      hide MatchMembers;
      var r, pair := MatchMembers(b, c, keyword), Pair(child.step.index, child.base, child.current);
      if pair in r.pairs {
        var i :| 0 <= i < |r.pairs| && r.pairs[i] == pair;
      }
    }
  }

  lemma PairsAreAtTheirIndex(b: Keywords, c: Keywords, keyword: Composition)
    requires keyword in b.composition && keyword in c.composition
    ensures var members := b.composition[keyword].members;
            forall pair <- MatchMembers(b, c, keyword).pairs :: pair.index < |members|
                && members[pair.index] == pair.prior
  {
    MatchIsMaximal(b.composition[keyword].members, c.composition[keyword].members, EqualityKey, CompositionIdentity);
    hide Match;
  }

  // ----- the pairs a comparison reaches -----

  function Steps(trail: seq<Child>): Pointer {
    if trail == [] then [] else [trail[0].step] + Steps(trail[1..])
  }

  /** The schema object a schema stands for, if references lead to one. */
  function ObjectOf(components: Components<Body>, schema: Schema): Option<Keywords> {
    var r := Resolve(components, schema);
    if r.Success? && r.value.Inline? then Some(r.value.keywords) else None
  }

  ghost predicate BothObjects(docs: Documents, base: Schema, current: Schema, b: Keywords, c: Keywords) {
    ObjectOf(docs.base, base) == Some(b) && ObjectOf(docs.current, current) == Some(c)
  }

  /** Each pair of the trail is a subschema pair of the one before; the last stands for these two objects. */
  ghost predicate IsTrail(docs: Documents, base: Schema, current: Schema, trail: seq<Child>, b: Keywords, c: Keywords)
    decreases |trail|
  {
    if trail == [] then BothObjects(docs, base, current, b, c)
    else
      && ObjectOf(docs.base, base).Some? && ObjectOf(docs.current, current).Some?
      && trail[0] in Children(ObjectOf(docs.base, base).value, ObjectOf(docs.current, current).value)
      && IsTrail(docs, trail[0].base, trail[0].current, trail[1..], b, c)
  }

  /** Following the steps from both schemas at once, through references, leads to this pair of objects. */
  ghost predicate Reaches(docs: Documents, base: Schema, current: Schema, steps: Pointer, b: Keywords, c: Keywords) {
    exists trail :: Steps(trail) == steps && IsTrail(docs, base, current, trail, b, c)
  }

  lemma StepDown(docs: Documents, base: Schema, current: Schema, bb: Keywords, cc: Keywords, child: Child,
                 steps: Pointer, b: Keywords, c: Keywords)
    requires BothObjects(docs, base, current, bb, cc) && child in Children(bb, cc)
    requires Reaches(docs, child.base, child.current, steps, b, c)
    ensures Reaches(docs, base, current, [child.step] + steps, b, c)
  {
    hide Children, ObjectOf;
    var trail :| Steps(trail) == steps && IsTrail(docs, child.base, child.current, trail, b, c);
    var longer := [child] + trail;
    assert longer[1..] == trail;
    assert IsTrail(docs, base, current, longer, b, c);
  }

  /** Every pair that is compared is reached by the steps its pointer adds. */
  lemma {:induction false} ComparedIsReached(docs: Documents, base: Schema, current: Schema, pointer: Pointer,
                                             seen: set<RefPair>, b: Keywords, c: Keywords, at: Pointer)
    requires Compared(b, c, at) in Walk(docs, base, current, pointer, seen)
    ensures pointer <= at && Reaches(docs, base, current, at[|pointer|..], b, c)
    decreases |Universe(docs) - seen|, base
  {
    hide Children, Universe, Resolve;
    WalkComparesObjects(docs, base, current, pointer, seen, Compared(b, c, at));
    var pair := PairOf(base, current);
    var bb, cc := Resolve(docs.base, base).value.keywords, Resolve(docs.current, current).value.keywords;
    RememberShrinks(docs, base, current, seen);
    var children := Children(bb, cc);
    if Compared(b, c, at) in Explore(docs, bb, children, pointer, Remember(seen, pair)) {
      var child :| child in children && Smaller(child, bb)
                   && Compared(b, c, at) in Walk(docs, child.base, child.current, pointer + [child.step],
                                                 Remember(seen, pair));
      if base.Here? {
        SmallerThanBase(docs, base, bb, child);
      }
      ComparedIsReached(docs, child.base, child.current, pointer + [child.step], Remember(seen, pair), b, c, at);
      var steps := at[|pointer + [child.step]|..];
      StepDown(docs, base, current, bb, cc, child, steps, b, c);
      assert at[|pointer|..] == [child.step] + steps;
    } else {
      assert Steps([]) == [] && IsTrail(docs, base, current, [], b, c);
      assert at == pointer && at[|pointer|..] == [] && Reaches(docs, base, current, [], b, c);
    }
  }

  lemma SmallerThanBase(docs: Documents, base: Schema, b: Keywords, child: Child)
    requires Resolve(docs.base, base) == Success(Inline(b)) && base.Here? && Smaller(child, b)
    ensures child.base < base
  {
  }

  lemma WalkComparesObjects(docs: Documents, base: Schema, current: Schema, pointer: Pointer, seen: set<RefPair>,
                            event: Event)
    requires event in Walk(docs, base, current, pointer, seen) && event.Compared?
    ensures PairOf(base, current) == (None, None) || PairOf(base, current) !in seen
    ensures exists b, c :: BothObjects(docs, base, current, b, c)
  {
    hide Children, Universe;
    var left, right := Resolve(docs.base, base).value, Resolve(docs.current, current).value;
    assert BothObjects(docs, base, current, left.keywords, right.keywords);
  }

  /** The pair of schemas after k steps of a trail. */
  function PairAfter(base: Schema, current: Schema, trail: seq<Child>, k: nat): (Schema, Schema)
    requires k <= |trail|
  {
    if k == 0 then (base, current) else (trail[k - 1].base, trail[k - 1].current)
  }

  lemma PairFurther(base: Schema, current: Schema, trail: seq<Child>, k: nat)
    requires k < |trail|
    ensures PairAfter(base, current, trail, k + 1) == PairAfter(trail[0].base, trail[0].current, trail[1..], k)
  {
  }

  function ReferencesAfter(base: Schema, current: Schema, trail: seq<Child>, k: nat): RefPair
    requires k <= |trail|
  {
    PairOf(PairAfter(base, current, trail, k).0, PairAfter(base, current, trail, k).1)
  }

  /** The comparison skips the pair after k steps, because the trail met its references before. */
  ghost predicate SkippedAfter(docs: Documents, base: Schema, current: Schema, events: set<Event>, seen: set<RefPair>,
                               trail: seq<Child>, k: nat) {
    && k <= |trail|
    && var pair := ReferencesAfter(base, current, trail, k);
       && Skipped(pair) in events
       && (pair in seen || exists i :: 0 <= i < k && ReferencesAfter(base, current, trail, i) == pair)
  }

  /** A comparison follows every trail to its end, or up to a pair it skips. */
  lemma {:induction false} TrailIsFollowed(docs: Documents, base: Schema, current: Schema, pointer: Pointer,
                                           seen: set<RefPair>, trail: seq<Child>, b: Keywords, c: Keywords)
    returns (k: nat)
    requires IsTrail(docs, base, current, trail, b, c)
    ensures var events := Walk(docs, base, current, pointer, seen);
            || Compared(b, c, pointer + Steps(trail)) in events
            || SkippedAfter(docs, base, current, events, seen, trail, k)
    decreases |trail|
  {
    hide Children, Universe, Explore, Walk, ObjectOf, BothObjects, SkippedAfter;
    var events := Walk(docs, base, current, pointer, seen);
    var pair := PairOf(base, current);
    k := 0;
    if pair != (None, None) && pair in seen {
      SkippedHere(docs, base, current, pointer, seen, trail);
    } else if trail == [] {
      ObjectsAreCompared(docs, base, current, pointer, seen, b, c);
      assert pointer + Steps([]) == pointer;
    } else {
      var bb, cc := ObjectOf(docs.base, base).value, ObjectOf(docs.current, current).value;
      var child := trail[0];
      var down := pointer + [child.step];
      k := TrailIsFollowed(docs, child.base, child.current, down, Remember(seen, pair), trail[1..], b, c);
      BothAre(docs, base, current);
      ObjectsAreCompared(docs, base, current, pointer, seen, bb, cc);
      assert down + Steps(trail[1..]) == pointer + Steps(trail);
      if Compared(b, c, pointer + Steps(trail)) !in events {
        SkippedBelow(docs, base, current, events, Walk(docs, child.base, child.current, down, Remember(seen, pair)),
                     seen, trail, k);
        k := k + 1;
      }
    }
  }

  lemma BothAre(docs: Documents, base: Schema, current: Schema)
    requires ObjectOf(docs.base, base).Some? && ObjectOf(docs.current, current).Some?
    ensures BothObjects(docs, base, current, ObjectOf(docs.base, base).value, ObjectOf(docs.current, current).value)
  {
  }

  lemma SkippedHere(docs: Documents, base: Schema, current: Schema, pointer: Pointer, seen: set<RefPair>,
                    trail: seq<Child>)
    requires PairOf(base, current) != (None, None) && PairOf(base, current) in seen
    ensures SkippedAfter(docs, base, current, Walk(docs, base, current, pointer, seen), seen, trail, 0)
  {
    hide Children, Universe, Explore;
    assert Walk(docs, base, current, pointer, seen) == {Skipped(PairOf(base, current))};
  }

  lemma ObjectsAreCompared(docs: Documents, base: Schema, current: Schema, pointer: Pointer, seen: set<RefPair>,
                           b: Keywords, c: Keywords)
    requires BothObjects(docs, base, current, b, c)
    requires PairOf(base, current) == (None, None) || PairOf(base, current) !in seen
    ensures var events := Walk(docs, base, current, pointer, seen);
            && Compared(b, c, pointer) in events
            && forall child <- Children(b, c) ::
                 Walk(docs, child.base, child.current, pointer + [child.step], Remember(seen, PairOf(base, current)))
                   <= events
  {
    hide Children, Universe, Explore, Walk;
    WalkOfKeywords(docs, Request, base, current, pointer, seen, b, c);
    var known := Remember(seen, PairOf(base, current));
    forall child | child in Children(b, c)
      ensures Walk(docs, child.base, child.current, pointer + [child.step], known)
           <= Walk(docs, base, current, pointer, seen)
    {
      ExploreContains(docs, b, Children(b, c), child, pointer, known);
    }
  }

  lemma SkippedBelow(docs: Documents, base: Schema, current: Schema, events: set<Event>, below: set<Event>,
                     seen: set<RefPair>, trail: seq<Child>, k: nat)
    requires trail != [] && below <= events
    requires SkippedAfter(docs, trail[0].base, trail[0].current, below, Remember(seen, PairOf(base, current)),
                          trail[1..], k)
    ensures SkippedAfter(docs, base, current, events, seen, trail, k + 1)
  {
    var child, rest := trail[0], trail[1..];
    assert forall i :: 0 <= i <= |rest| ==>
      ReferencesAfter(base, current, trail, i + 1) == ReferencesAfter(child.base, child.current, rest, i);
    var pair := ReferencesAfter(child.base, child.current, rest, k);
    if pair !in seen {
      if i :| 0 <= i < k && ReferencesAfter(child.base, child.current, rest, i) == pair {
        assert ReferencesAfter(base, current, trail, i + 1) == pair;
      } else {
        assert ReferencesAfter(base, current, trail, 0) == pair;
      }
    }
  }

  lemma AfterFirst(docs: Documents, base: Schema, current: Schema, trail: seq<Child>, b: Keywords, c: Keywords)
    requires trail != [] && IsTrail(docs, base, current, trail, b, c)
    ensures IsTrail(docs, trail[0].base, trail[0].current, trail[1..], b, c)
  {
    hide Children, ObjectOf;
  }

  lemma {:induction false} RestIsTrail(docs: Documents, base: Schema, current: Schema, trail: seq<Child>, k: nat,
                                       b: Keywords, c: Keywords)
    requires k <= |trail| && IsTrail(docs, base, current, trail, b, c)
    ensures var pair := PairAfter(base, current, trail, k); IsTrail(docs, pair.0, pair.1, trail[k..], b, c)
    decreases |trail|
  {
    hide IsTrail;
    if k == 0 {
      assert trail[0..] == trail;
    } else {
      var child := trail[0];
      AfterFirst(docs, base, current, trail, b, c);
      PairFurther(base, current, trail, k - 1);
      hide PairAfter;
      RestIsTrail(docs, child.base, child.current, trail[1..], k - 1, b, c);
      assert trail[1..][k - 1..] == trail[k..];
    }
  }

  /** A detour back to the same pair of schemas can be left out. */
  lemma {:induction false} Shortcut(docs: Documents, base: Schema, current: Schema, trail: seq<Child>, i: nat, k: nat,
                                    b: Keywords, c: Keywords)
    requires i < k <= |trail| && IsTrail(docs, base, current, trail, b, c)
    requires PairAfter(base, current, trail, i) == PairAfter(base, current, trail, k)
    ensures IsTrail(docs, base, current, trail[..i] + trail[k..], b, c)
    decreases |trail|
  {
    hide Children, ObjectOf;
    if i == 0 {
      RestIsTrail(docs, base, current, trail, k, b, c);
      assert trail[..0] + trail[k..] == trail[k..];
    } else {
      var rest := trail[1..];
      Shortcut(docs, trail[0].base, trail[0].current, rest, i - 1, k - 1, b, c);
      var shorter := trail[..i] + trail[k..];
      assert shorter[1..] == rest[..i - 1] + rest[k - 1..];
    }
  }

  /** Whatever is skipped is a reference on both sides, so that its references are its schemas. */
  ghost predicate SkipsReferencesOnly(events: set<Event>) {
    forall event <- events :: event.Skipped? ==> event.pair.0.Some? && event.pair.1.Some?
  }

  /** Every pair that is reached is compared, at the place of some trail to it. */
  lemma {:induction false} ReachedIsCompared(docs: Documents, base: Schema, current: Schema, pointer: Pointer,
                                             trail: seq<Child>, b: Keywords, c: Keywords)
    requires IsTrail(docs, base, current, trail, b, c)
    requires SkipsReferencesOnly(Walk(docs, base, current, pointer, {}))
    ensures exists at :: Compared(b, c, at) in Walk(docs, base, current, pointer, {})
    decreases |trail|
  {
    hide IsTrail, Walk;
    var events := Walk(docs, base, current, pointer, {});
    var k := TrailIsFollowed(docs, base, current, pointer, {}, trail, b, c);
    if Compared(b, c, pointer + Steps(trail)) !in events {
      var pair := ReferencesAfter(base, current, trail, k);
      var i :| 0 <= i < k && ReferencesAfter(base, current, trail, i) == pair;
      assert Skipped(pair) in events;
      assert PairAfter(base, current, trail, i) == PairAfter(base, current, trail, k);
      Shortcut(docs, base, current, trail, i, k, b, c);
      ReachedIsCompared(docs, base, current, pointer, trail[..i] + trail[k..], b, c);
    }
  }

  // ----- what is reported -----

  /**
    Every break a comparison reports is warranted by a pair of objects that both schemas reach by the
    steps of its pointer, up to the last ones that name the place inside the objects.
   */
  lemma ReportsAreWarranted(docs: Documents, direction: Direction, base: Schema, current: Schema, report: Break)
    returns (steps: Pointer, b: Keywords, c: Keywords, place: Pointer)
    requires report in BreaksIn(direction, Walk(docs, base, current, [], {}))
    ensures report.pointer == steps + place
    ensures Reaches(docs, base, current, steps, b, c) && Warranted(direction, b, c, report.rule, place)
  {
    hide Walk, LocalBreaks, Warranted, Reaches;
    var events := Walk(docs, base, current, [], {});
    var event :| event in events && event.Compared?
                 && report in LocalBreaks(direction, event.base, event.current, event.pointer);
    b, c, steps := event.base, event.current, event.pointer;
    ComparedIsReached(docs, base, current, [], {}, b, c, steps);
    LocalBreaksAreLocal(direction, b, c, steps, report);
    place := report.pointer[|steps|..];
    LocalBreaksAreExact(direction, b, c, steps, report.rule, place);
    assert steps[0..] == steps && report == Break(report.rule, steps + place);
  }

  /**
    A comparison reports a rule exactly when some pair of objects that both schemas reach by the same
    steps warrants it.
   */
  lemma ReportsAreExact(docs: Documents, direction: Direction, base: Schema, current: Schema, rule: Rule)
    requires SkipsReferencesOnly(Walk(docs, base, current, [], {}))
    ensures (exists report <- BreaksIn(direction, Walk(docs, base, current, [], {})) :: report.rule == rule)
         <==> exists steps, b, c, place :: Reaches(docs, base, current, steps, b, c)
                                           && Warranted(direction, b, c, rule, place)
  {
    hide Walk, LocalBreaks, Warranted, Reaches, SkipsReferencesOnly;
    var events := Walk(docs, base, current, [], {});
    if report :| report in BreaksIn(direction, events) && report.rule == rule {
      var steps, b, c, place := ReportsAreWarranted(docs, direction, base, current, report);
    }
    if steps, b, c, place :| Reaches(docs, base, current, steps, b, c) && Warranted(direction, b, c, rule, place) {
      var at := ReachedAt(docs, base, current, steps, b, c);
      LocalBreaksAreExact(direction, b, c, at, rule, place);
      assert Break(rule, at + place) in BreaksIn(direction, events);
    }
  }

  lemma ReachedAt(docs: Documents, base: Schema, current: Schema, steps: Pointer, b: Keywords, c: Keywords)
    returns (at: Pointer)
    requires SkipsReferencesOnly(Walk(docs, base, current, [], {})) && Reaches(docs, base, current, steps, b, c)
    ensures Compared(b, c, at) in Walk(docs, base, current, [], {})
  {
    hide IsTrail, Walk, SkipsReferencesOnly;
    var trail :| Steps(trail) == steps && IsTrail(docs, base, current, trail, b, c);
    ReachedIsCompared(docs, base, current, [], trail, b, c);
    at :| Compared(b, c, at) in Walk(docs, base, current, [], {});
  }

  /**
    A skip with a reference on one side only may hide a reached pair: here the property of an inline
    schema becomes a string, and nothing is reported.
   */
  lemma OneSidedSkipHidesAReport()
    ensures var node := EMPTY.(properties := map["a" := Link("N")]);
            var outer := EMPTY.(properties := map["a" := Plain(ANY_STRING)]);
            var docs := Documents(map["N" := Plain(node)], map[]);
            && Reaches(docs, Link("N"), Plain(outer), [Property("a")], node, ANY_STRING)
            && Warranted(Request, node, ANY_STRING, TypeChanged, [])
            && BreaksIn(Request, Walk(docs, Link("N"), Plain(outer), [], {})) == {}
  {
    var node := EMPTY.(properties := map["a" := Link("N")]);
    var outer := EMPTY.(properties := map["a" := Plain(ANY_STRING)]);
    var docs := Documents(map["N" := Plain(node)], map[]);
    HiddenTrail(docs, node, outer);
    HiddenReport(node);
    hide Warranted, LocalBreaks, Walk, Reaches;
    SkippedWalk(node, outer);
  }

  lemma HiddenReport(node: Keywords)
    requires node.types.None?
    ensures Warranted(Request, node, ANY_STRING, TypeChanged, [])
  {
  }

  lemma HiddenTrail(docs: Documents, node: Keywords, outer: Keywords)
    requires docs.base == map["N" := Plain(node)]
    requires node == EMPTY.(properties := map["a" := Link("N")])
    requires outer == EMPTY.(properties := map["a" := Plain(ANY_STRING)])
    ensures Reaches(docs, Link("N"), Plain(outer), [Property("a")], node, ANY_STRING)
  {
    SkippedPair(node, outer);
    NodeResolves(node);
    hide Children;
    var trail := [Child(Link("N"), Plain(ANY_STRING), Property("a"))];
    assert trail[1..] == [] && Steps([]) == [] && Steps(trail) == [Property("a")];
    assert IsTrail(docs, Link("N"), Plain(ANY_STRING), [], node, ANY_STRING);
    assert IsTrail(docs, Link("N"), Plain(outer), trail, node, ANY_STRING);
  }
}
