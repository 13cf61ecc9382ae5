/**
  The recursive comparison of two possibly recursive schemas.

  `Walk` is the set of everything one comparison visits: the pairs it compares, the pairs it skips
  because their references are being compared already, and the errors it raises. The breaks of a
  comparison are those its compared pairs report. The class below is the checker's algorithm, which
  appends breaks to a list as it goes.
 */
module SchemaComparison {
  import opened Wrappers
  import opened Resolution
  import opened Schemas
  import opened CompositionMatching
  import opened Reports
  import opened SchemaRules

  datatype Documents = Documents(base: Components<Body>, current: Components<Body>)

  type RefPair = (Option<string>, Option<string>)

  datatype Event =
    | Compared(base: Keywords, current: Keywords, pointer: Pointer)
    | Ignored(baseBody: Body, currentBody: Body)
    | Skipped(pair: RefPair)
    | Raised(error: ResolveError)

  function PairOf(base: Schema, current: Schema): RefPair {
    (Reference(base), Reference(current))
  }

  ghost function Targets(components: Components<Body>): set<Option<string>> {
    {None} + set t | t in components.Keys :: Some(t)
  }

  /** Every pair of references that can be followed, the absent reference included. */
  ghost function Universe(docs: Documents): set<RefPair> {
    set l, r | l in Targets(docs.base) && r in Targets(docs.current) :: (l, r)
  }

  function Remember(seen: set<RefPair>, pair: RefPair): set<RefPair> {
    if pair == (None, None) then seen else seen + {pair}
  }

  lemma RememberShrinks(docs: Documents, base: Schema, current: Schema, seen: set<RefPair>)
    requires PairOf(base, current) == (None, None) || PairOf(base, current) !in seen
    requires Resolve(docs.base, base).Success? && Resolve(docs.current, current).Success?
    ensures PairOf(base, current) == (None, None)
            || |Universe(docs) - Remember(seen, PairOf(base, current))| < |Universe(docs) - seen|
  {
    var pair := PairOf(base, current);
    if pair != (None, None) {
      assert pair in Universe(docs);
      assert Universe(docs) - seen == (Universe(docs) - Remember(seen, pair)) + {pair};
    }
  }

  /**
    Terminates on every pair of finite documents: a followed pair of references is new, and without
    references both schemas get smaller.
   */
  ghost function Walk(docs: Documents, base: Schema, current: Schema, pointer: Pointer, seen: set<RefPair>): set<Event>
    decreases |Universe(docs) - seen|, base, 1
  {
    hide Children, Universe;
    var pair := PairOf(base, current);
    if pair != (None, None) && pair in seen then {Skipped(pair)}
    else
      match Resolve(docs.base, base)
      case Failure(error) => {Raised(error)}
      case Success(baseBody) =>
        match Resolve(docs.current, current)
        case Failure(error) => {Raised(error)}
        case Success(currentBody) =>
          if baseBody.Flag? || currentBody.Flag? then {Ignored(baseBody, currentBody)}
          else
            var b, c := baseBody.keywords, currentBody.keywords;
            RememberShrinks(docs, base, current, seen);
            {Compared(b, c, pointer)} + Explore(docs, b, Children(b, c), pointer, Remember(seen, pair))
  }

  /** What comparing a set of subschema pairs does; `b` is the schema object the base sides belong to. */
  ghost function Explore(docs: Documents, b: Keywords, children: set<Child>, pointer: Pointer,
                         seen: set<RefPair>): set<Event>
    requires forall child <- children :: Smaller(child, b)
    decreases |Universe(docs) - seen|, Here(Inline(b)), 0
  {
    set child, event | child in children && Smaller(child, b)
      && event in Walk(docs, child.base, child.current, pointer + [child.step], seen) :: event
  }

  ghost function BreaksIn(direction: Direction, events: set<Event>): set<Break> {
    set event, b | event in events && event.Compared?
      && b in LocalBreaks(direction, event.base, event.current, event.pointer) :: b
  }

  ghost predicate Raises(events: set<Event>) {
    exists event <- events :: event.Raised?
  }

  lemma ExploreOne(docs: Documents, b: Keywords, child: Child, pointer: Pointer, seen: set<RefPair>)
    requires Smaller(child, b)
    ensures Explore(docs, b, {child}, pointer, seen)
         == Walk(docs, child.base, child.current, pointer + [child.step], seen)
  {
  }

  lemma ExploreUnion(docs: Documents, b: Keywords, left: set<Child>, right: set<Child>, pointer: Pointer,
                     seen: set<RefPair>)
    requires forall child <- left + right :: Smaller(child, b)
    ensures Explore(docs, b, left + right, pointer, seen)
         == Explore(docs, b, left, pointer, seen) + Explore(docs, b, right, pointer, seen)
  {
  }

  lemma ExploreContains(docs: Documents, b: Keywords, children: set<Child>, child: Child, pointer: Pointer,
                        seen: set<RefPair>)
    requires forall child <- children :: Smaller(child, b)
    requires child in children
    ensures Walk(docs, child.base, child.current, pointer + [child.step], seen)
         <= Explore(docs, b, children, pointer, seen)
  {
  }

  lemma ExploreNothing(docs: Documents, direction: Direction, b: Keywords, pointer: Pointer, seen: set<RefPair>)
    ensures var events := Explore(docs, b, {}, pointer, seen);
            events == {} && BreaksIn(direction, events) == {} && !Raises(events)
  {
  }

  lemma RaisesUnion(left: set<Event>, right: set<Event>)
    ensures Raises(left + right) <==> Raises(left) || Raises(right)
  {
  }

  lemma BreaksInUnion(direction: Direction, left: set<Event>, right: set<Event>)
    ensures BreaksIn(direction, left + right) == BreaksIn(direction, left) + BreaksIn(direction, right)
  {
  }

  /** The events of a pair that is actually compared. */
  lemma WalkOfKeywords(docs: Documents, direction: Direction, base: Schema, current: Schema, pointer: Pointer,
                       seen: set<RefPair>, b: Keywords, c: Keywords)
    requires PairOf(base, current) == (None, None) || PairOf(base, current) !in seen
    requires Resolve(docs.base, base) == Success(Inline(b)) && Resolve(docs.current, current) == Success(Inline(c))
    ensures var events := Walk(docs, base, current, pointer, seen);
            var below := Explore(docs, b, Children(b, c), pointer, Remember(seen, PairOf(base, current)));
            && events == {Compared(b, c, pointer)} + below
            && BreaksIn(direction, events) == LocalBreaks(direction, b, c, pointer) + BreaksIn(direction, below)
            && (Raises(events) <==> Raises(below))
  {
    hide Children, Universe, LocalBreaks;
    var one := Compared(b, c, pointer);
    var below := Explore(docs, b, Children(b, c), pointer, Remember(seen, PairOf(base, current)));
    assert BreaksIn(direction, {one}) == LocalBreaks(direction, b, c, pointer);
    BreaksInUnion(direction, {one}, below);
  }

  lemma NamedBreaksPlus(rule: Rule, names: set<string>, name: string, pointer: Pointer)
    ensures NamedBreaks(rule, names + {name}, pointer)
         == NamedBreaks(rule, names, pointer) + {Break(rule, pointer + [Property(name)])}
  {
  }

  class SchemaComparison {
    const docs: Documents
    const direction: Direction
    var breaks: seq<Break>
    ghost var found: set<Break>

    ghost predicate Valid()
      reads this
    {
      forall b :: b in breaks <==> b in found
    }

    constructor (docs: Documents, direction: Direction)
      ensures this.docs == docs && this.direction == direction && breaks == [] && Valid()
    {
      this.docs, this.direction, breaks, found := docs, direction, [], {};
    }

    /** The list only grew, and by exactly these breaks. */
    twostate predicate Gained(expected: set<Break>)
      reads this
    {
      Valid() && old(breaks) <= breaks && found == old(found) + expected
    }

    method Report(rule: Rule, pointer: Pointer)
      requires Valid()
      modifies this`breaks, this`found
      ensures breaks == old(breaks) + [Break(rule, pointer)]
      ensures Gained({Break(rule, pointer)})
    {
      breaks := breaks + [Break(rule, pointer)];
      found := found + {Break(rule, pointer)};
    }

    method CompareTypes(b: Keywords, c: Keywords, pointer: Pointer)
      requires Valid()
      modifies this`breaks, this`found
      ensures Gained(TypeBreaks(direction, b, c, pointer))
    {
      var baseTypes, currentTypes := SchemaTypes(b), SchemaTypes(c);
      var narrower;
      if direction.Request? {
        narrower := !Covers(currentTypes, baseTypes);
      } else {
        narrower := !Covers(baseTypes, currentTypes);
      }
      if narrower {
        Report(TypeChanged, pointer);
      }
    }

    method CompareEnum(b: Keywords, c: Keywords, pointer: Pointer)
      requires Valid()
      modifies this`breaks, this`found
      ensures Gained(EnumBreaks(direction, b, c, pointer))
    {
      var baseValues, currentValues := EnumValues(b), EnumValues(c);
      if direction.Request? && currentValues.Some? {
        if baseValues.None? {
          Report(EnumNarrowed, pointer);
        } else if MissesValues(baseValues.value, currentValues.value) {
          Report(EnumNarrowed, pointer);
        }
      }
      if !direction.Request? && baseValues.Some? {
        if currentValues.None? {
          Report(EnumWidened, pointer);
        } else if MissesValues(currentValues.value, baseValues.value) {
          Report(EnumWidened, pointer);
        }
      }
    }

    method CompareBounds(b: Keywords, c: Keywords, pointer: Pointer)
      requires Valid()
      modifies this`breaks, this`found
      ensures Gained(ConstraintBreaks(direction, b, c, pointer))
    {
      CompareBoundKeywords(b, c, pointer);
      if direction.Request? && c.uniqueItems && !b.uniqueItems {
        Report(ConstraintNarrowed, pointer);
      }
      if !direction.Request? && b.uniqueItems && !c.uniqueItems {
        Report(ConstraintWidened, pointer);
      }
      if b.multipleOf != c.multipleOf {
        var relevant := if direction.Request? then c else b;
        if relevant.multipleOf.Some? {
          Report(ConstraintRule(direction), pointer);
        }
      }
    }

    method CompareBoundKeywords(b: Keywords, c: Keywords, pointer: Pointer)
      requires Valid()
      modifies this`breaks, this`found
      ensures Gained(if AnyBoundBreaks(direction, b, c, |BOUNDS|) then {Break(ConstraintRule(direction), pointer)}
                     else {})
    {
      for i := 0 to |BOUNDS|
        invariant Gained(if AnyBoundBreaks(direction, b, c, i) then {Break(ConstraintRule(direction), pointer)} else {})
      {
        var bound := BOUNDS[i];
        var stricter := BoundIsStricter(Get(b.bounds, bound), Get(c.bounds, bound), IsUpper(bound));
        var looser := BoundIsStricter(Get(c.bounds, bound), Get(b.bounds, bound), IsUpper(bound));
        assert AnyBoundBreaks(direction, b, c, i + 1)
            <==> AnyBoundBreaks(direction, b, c, i) || BoundBreaks(direction, b, c, bound);
        if direction.Request? && stricter {
          Report(ConstraintNarrowed, pointer);
        }
        if !direction.Request? && looser {
          Report(ConstraintWidened, pointer);
        }
      }
    }

    method CompareStrings(b: Keywords, c: Keywords, pointer: Pointer)
      requires Valid()
      modifies this`breaks, this`found
      ensures Gained(StringBreaks(direction, b, c, pointer))
    {
      if b.pattern != c.pattern {
        var constrained := if direction.Request? then c.pattern else b.pattern;
        if constrained.Some? {
          Report(PatternChanged, pointer);
        }
      }
      if b.format != c.format {
        var constrained := if direction.Request? then c.format else b.format;
        if constrained.Some? {
          Report(FormatChanged, pointer);
        }
      }
    }

    method CompareDefault(b: Keywords, c: Keywords, pointer: Pointer)
      requires Valid()
      modifies this`breaks, this`found
      ensures Gained(DefaultBreaks(direction, b, c, pointer))
    {
      if !direction.Request? || b.defaultValue.None? {
        return;
      }
      if !SameValue(DefaultOf(b), DefaultOf(c)) {
        Report(DefaultChanged, pointer);
      }
    }

    method CompareScalars(b: Keywords, c: Keywords, pointer: Pointer)
      requires Valid()
      modifies this`breaks, this`found
      ensures Gained(ScalarBreaks(direction, b, c, pointer))
    {
      hide TypeBreaks, EnumBreaks, ConstraintBreaks, StringBreaks, DefaultBreaks;
      CompareTypes(b, c, pointer);
      CompareEnum(b, c, pointer);
      CompareBounds(b, c, pointer);
      CompareStrings(b, c, pointer);
      CompareDefault(b, c, pointer);
    }

    /** Reports one break for each name, in any order. */
    method ReportNames(rule: Rule, names: set<string>, pointer: Pointer)
      requires Valid()
      modifies this`breaks, this`found
      ensures Gained(NamedBreaks(rule, names, pointer))
    {
      var left := names;
      while left != {}
        invariant left <= names
        invariant Gained(NamedBreaks(rule, names - left, pointer))
      {
        var name :| name in left;
        NamedBreaksPlus(rule, names - left, name, pointer);
        left := left - {name};
        assert names - left == (names - (left + {name})) + {name};
        Report(rule, pointer + [Property(name)]);
      }
      assert names - left == names;
    }

    method CompareObject(b: Keywords, c: Keywords, pointer: Pointer, seen: set<RefPair>)
      returns (raised: Option<ResolveError>)
      requires Valid()
      modifies this`breaks, this`found
      ensures var events := Explore(docs, b, PropertyChildren(b, c) + ExtraChildren(b, c), pointer, seen);
              && old(breaks) <= breaks
              && (raised.None?
                  ==> !Raises(events) && Gained(ObjectBreaks(direction, b, c, pointer) + BreaksIn(direction, events)))
              && (raised.Some? ==> Raised(raised.value) in events)
      decreases |Universe(docs) - seen|, Here(Inline(b)), 1
    {
      hide PropertyChildren, ExtraChildren, Universe, Explore, Raises, BreaksIn, NamedBreaks, RemovedProperties,
           RequiredNames;
      var properties, extra := PropertyChildren(b, c), ExtraChildren(b, c);
      ghost var e1, e2 := Explore(docs, b, properties, pointer, seen), Explore(docs, b, extra, pointer, seen);
      ExploreUnion(docs, b, properties, extra, pointer, seen);
      BreaksInUnion(direction, e1, e2);
      RaisesUnion(e1, e2);
      ReportNames(PropertyRemoved, RemovedProperties(b, c), pointer);
      raised := CompareChildren(b, properties, pointer, seen);
      if raised.Some? {
        return;
      }
      ReportNames(RequiredRule(direction), RequiredNames(direction, b, c), pointer);
      if direction.Request? && ClosesAdditionalProperties(b, c) {
        Report(AdditionalPropertiesClosed, pointer);
      }
      raised := CompareChildren(b, extra, pointer, seen);
    }

    method CompareItems(b: Keywords, c: Keywords, pointer: Pointer, seen: set<RefPair>)
      returns (raised: Option<ResolveError>)
      requires Valid()
      modifies this`breaks, this`found
      ensures var events := Explore(docs, b, ItemChildren(b, c), pointer, seen);
              && old(breaks) <= breaks
              && (raised.None? ==> !Raises(events) && Gained(BreaksIn(direction, events)))
              && (raised.Some? ==> Raised(raised.value) in events)
      decreases |Universe(docs) - seen|, Here(Inline(b)), 1
    {
      raised := CompareChildren(b, ItemChildren(b, c), pointer, seen);
    }

    method CompareComposition(b: Keywords, c: Keywords, pointer: Pointer, seen: set<RefPair>)
      returns (raised: Option<ResolveError>)
      requires Valid()
      modifies this`breaks, this`found
      ensures var events := Explore(docs, b, CompositionChildren(b, c), pointer, seen);
              && old(breaks) <= breaks
              && (raised.None?
                  ==> !Raises(events)
                      && Gained(CompositionBreaks(direction, b, c, pointer) + BreaksIn(direction, events)))
              && (raised.Some? ==> Raised(raised.value) in events)
      decreases |Universe(docs) - seen|, Here(Inline(b)), 2
    {
      hide MemberChildren, Universe, Explore, Raises, BreaksIn, CompositionBreaksFor;
      var one, any, all := MemberChildren(b, c, OneOf), MemberChildren(b, c, AnyOf), MemberChildren(b, c, AllOf);
      ghost var e1 := Explore(docs, b, one, pointer, seen);
      ghost var e2 := Explore(docs, b, any, pointer, seen);
      ghost var e3 := Explore(docs, b, all, pointer, seen);
      ExploreUnion(docs, b, one, any, pointer, seen);
      ExploreUnion(docs, b, one + any, all, pointer, seen);
      BreaksInUnion(direction, e1, e2);
      BreaksInUnion(direction, e1 + e2, e3);
      RaisesUnion(e1, e2);
      RaisesUnion(e1 + e2, e3);
      raised := CompareMembers(b, c, OneOf, pointer, seen);
      if raised.Some? {
        return;
      }
      raised := CompareMembers(b, c, AnyOf, pointer, seen);
      if raised.Some? {
        return;
      }
      raised := CompareMembers(b, c, AllOf, pointer, seen);
    }

    method CompareMembers(b: Keywords, c: Keywords, keyword: Composition, pointer: Pointer, seen: set<RefPair>)
      returns (raised: Option<ResolveError>)
      requires Valid()
      modifies this`breaks, this`found
      ensures var events := Explore(docs, b, MemberChildren(b, c, keyword), pointer, seen);
              && old(breaks) <= breaks
              && (raised.None?
                  ==> !Raises(events)
                      && Gained(MemberBreaks(direction, b, c, keyword, pointer) + BreaksIn(direction, events)))
              && (raised.Some? ==> Raised(raised.value) in events)
      decreases |Universe(docs) - seen|, Here(Inline(b)), 1
    {
      hide Universe, BreaksIn, Raises, Explore, Match;
      ExploreNothing(docs, direction, b, pointer, seen);
      raised := None;
      if keyword !in b.composition && keyword !in c.composition {
        return;
      }
      if keyword !in b.composition || keyword !in c.composition {
        Report(CompositionChanged, pointer);
        return;
      }
      var r :=
          MatchCompositionMembers(b.composition[keyword].members, c.composition[keyword].members, EqualityKey,
                                  CompositionIdentity);
      raised := CompareChildren(b, MemberChildren(b, c, keyword), pointer, seen);
      if raised.Some? {
        return;
      }
      var one: set<Break> := {Break(CompositionChanged, pointer)};
      label L:
      if CompositionMemberBreaks(direction, keyword, false) {
        for i := 0 to |r.removed|
          invariant Gained@L(if i > 0 then one else {})
        {
          Report(CompositionChanged, pointer);
        }
      }
      label M:
      if CompositionMemberBreaks(direction, keyword, true) {
        for i := 0 to |r.added|
          invariant Gained@M(if i > 0 then one else {})
        {
          Report(CompositionChanged, pointer);
        }
      }
    }

    /** Compares each pair of subschemas, stopping at the first error. */
    method CompareChildren(b: Keywords, children: set<Child>, pointer: Pointer, seen: set<RefPair>)
      returns (raised: Option<ResolveError>)
      requires forall child <- children :: Smaller(child, b)
      requires Valid()
      modifies this`breaks, this`found
      ensures var events := Explore(docs, b, children, pointer, seen);
              && old(breaks) <= breaks
              && (raised.None? ==> !Raises(events) && Gained(BreaksIn(direction, events)))
              && (raised.Some? ==> Raised(raised.value) in events)
      decreases |Universe(docs) - seen|, Here(Inline(b)), 0
    {
      hide Universe, BreaksIn, Raises;
      raised := None;
      ExploreNothing(docs, direction, b, pointer, seen);
      var left := children;
      assert children - left == {};
      while left != {}
        invariant left <= children && raised.None?
        invariant !Raises(Explore(docs, b, children - left, pointer, seen))
        invariant Gained(BreaksIn(direction, Explore(docs, b, children - left, pointer, seen)))
      {
        var child :| child in left;
        ghost var done := children - left;
        left := left - {child};
        assert children - left == done + {child};
        ExploreUnion(docs, b, done, {child}, pointer, seen);
        ExploreOne(docs, b, child, pointer, seen);
        RaisesUnion(Explore(docs, b, done, pointer, seen),
                    Walk(docs, child.base, child.current, pointer + [child.step], seen));
        BreaksInUnion(direction, Explore(docs, b, done, pointer, seen),
                      Walk(docs, child.base, child.current, pointer + [child.step], seen));
        raised := Compare(child.base, child.current, pointer + [child.step], seen);
        if raised.Some? {
          ExploreContains(docs, b, children, child, pointer, seen);
          return;
        }
      }
      assert children - left == children;
    }

    /** Follows the cycle guard, the resolutions and the eight checks in the order of `compare`. */
    method Compare(base: Schema, current: Schema, pointer: Pointer, seen: set<RefPair>)
      returns (raised: Option<ResolveError>)
      requires Valid()
      modifies this`breaks, this`found
      ensures var events := Walk(docs, base, current, pointer, seen);
              && old(breaks) <= breaks
              && (raised.None? ==> !Raises(events) && Gained(BreaksIn(direction, events)))
              && (raised.Some? ==> Raised(raised.value) in events)
      decreases |Universe(docs) - seen|, base, 4
    {
      raised := None;
      var pair := PairOf(base, current);
      var known := seen;
      if pair != (None, None) {
        if pair in seen {
          return;
        }
        known := seen + {pair};
      }
      var baseBody := ResolveNode(docs.base, base);
      if baseBody.Failure? {
        return Some(baseBody.error);
      }
      var currentBody := ResolveNode(docs.current, current);
      if currentBody.Failure? {
        return Some(currentBody.error);
      }
      if baseBody.value.Flag? || currentBody.value.Flag? {
        return;
      }
      var b, c := baseBody.value.keywords, currentBody.value.keywords;
      RememberShrinks(docs, base, current, seen);
      raised := CompareKeywords(b, c, pointer, known);
      WalkOfKeywords(docs, direction, base, current, pointer, seen, b, c);
    }

    method CompareKeywords(b: Keywords, c: Keywords, pointer: Pointer, seen: set<RefPair>)
      returns (raised: Option<ResolveError>)
      requires Valid()
      modifies this`breaks, this`found
      ensures var events := Explore(docs, b, Children(b, c), pointer, seen);
              && old(breaks) <= breaks
              && (raised.None?
                  ==> !Raises(events) && Gained(LocalBreaks(direction, b, c, pointer) + BreaksIn(direction, events)))
              && (raised.Some? ==> Raised(raised.value) in events)
      decreases |Universe(docs) - seen|, Here(Inline(b)), 3
    {
      hide PropertyChildren, ExtraChildren, ItemChildren, CompositionChildren, ScalarBreaks, ObjectBreaks,
           CompositionBreaks, Universe, Explore, Raises, BreaksIn;
      ghost var objects := PropertyChildren(b, c) + ExtraChildren(b, c);
      ghost var e1 := Explore(docs, b, objects, pointer, seen);
      ghost var e2 := Explore(docs, b, ItemChildren(b, c), pointer, seen);
      ghost var e3 := Explore(docs, b, CompositionChildren(b, c), pointer, seen);
      ExploreUnion(docs, b, objects, ItemChildren(b, c), pointer, seen);
      ExploreUnion(docs, b, objects + ItemChildren(b, c), CompositionChildren(b, c), pointer, seen);
      BreaksInUnion(direction, e1, e2);
      BreaksInUnion(direction, e1 + e2, e3);
      RaisesUnion(e1, e2);
      RaisesUnion(e1 + e2, e3);
      CompareScalars(b, c, pointer);
      raised := CompareObject(b, c, pointer, seen);
      if raised.Some? {
        return;
      }
      raised := CompareItems(b, c, pointer, seen);
      if raised.Some? {
        return;
      }
      raised := CompareComposition(b, c, pointer, seen);
    }
  }
}
