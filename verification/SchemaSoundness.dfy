/**
  A comparison without breaks is sound: every value the narrower side accepts, the wider side
  accepts. For a request the base is narrower, for a response the current document is.
 */
module SchemaSoundness {
  import opened Wrappers
  import opened Resolution
  import opened Schemas
  import opened CompositionMatching
  import opened Reports
  import opened SchemaRules
  import opened SchemaComparison
  import opened Conformance

  function Narrow<T>(direction: Direction, base: T, current: T): T {
    if direction.Request? then base else current
  }

  function Wide<T>(direction: Direction, base: T, current: T): T {
    if direction.Request? then current else base
  }

  /**
    What the comparison takes for granted about a pair of schema objects. `added` gives, for a base
    object, the property names the current document may add to it.
   */
  ghost predicate Comparable(direction: Direction, added: Keywords -> set<string>, b: Keywords, c: Keywords) {
    var narrow, wide := Narrow(direction, b, c), Wide(direction, b, c);
    // Python equality confuses booleans with numbers; the two enums must not rely on it.
    && Unambiguous(EnumValues(narrow), EnumValues(wide))
    // `const` hides `enum` from the checker.
    && (wide.constant.Some? && wide.enumeration.Some? ==> wide.constant.value in wide.enumeration.value)
    // Items are compared only when both sides have them.
    && (wide.items.Some? ==> narrow.items.Some? || ExcludesArrays(narrow))
    // Schemas for undeclared properties are compared only when both sides have one.
    && (wide.additional.Typed? ==> narrow.additional.Typed? || narrow.additional.Closed?)
    // New properties are known to be new.
    && c.properties.Keys - b.properties.Keys <= added(b)
    // Required properties are declared ones.
    && (direction.Response? ==> b.required <= b.properties.Keys + c.required)
  }

  ghost predicate Unambiguous(source: Option<seq<Json>>, target: Option<seq<Json>>) {
    source.Some? && target.Some? ==>
      forall x <- source.value, y <- target.value :: SameValue(x, y) ==> x == y
  }

  predicate ExcludesArrays(k: Keywords) {
    SchemaTypes(k).Some? && KindArray !in SchemaTypes(k).value
  }

  // ----- one pair of schema objects -----

  lemma NoLocalBreaks(direction: Direction, b: Keywords, c: Keywords, pointer: Pointer)
    requires LocalBreaks(direction, b, c, pointer) == {}
    ensures TypeBreaks(direction, b, c, pointer) == {} && EnumBreaks(direction, b, c, pointer) == {}
    ensures ConstraintBreaks(direction, b, c, pointer) == {} && StringBreaks(direction, b, c, pointer) == {}
    ensures ObjectBreaks(direction, b, c, pointer) == {} && CompositionBreaks(direction, b, c, pointer) == {}
  {
    hide TypeBreaks, EnumBreaks, ConstraintBreaks, StringBreaks, DefaultBreaks, ObjectBreaks, CompositionBreaks;
  }

  lemma CoversTypes(wider: Option<set<Kind>>, narrower: Option<set<Kind>>, value: Json)
    requires Covers(wider, narrower) && TypesHold(narrower, value)
    ensures TypesHold(wider, value)
  {
    if wider.Some? {
      var kind :| kind in narrower.value && HasKind(value, kind);
      assert HasKind(value, if kind in wider.value then kind else KindNumber);
    }
  }

  lemma EnumSound(direction: Direction, b: Keywords, c: Keywords, pointer: Pointer, value: Json)
    requires EnumBreaks(direction, b, c, pointer) == {}
    requires Unambiguous(EnumValues(Narrow(direction, b, c)), EnumValues(Wide(direction, b, c)))
    requires var wide := Wide(direction, b, c);
             wide.constant.Some? && wide.enumeration.Some? ==> wide.constant.value in wide.enumeration.value
    requires EnumHolds(Narrow(direction, b, c), value)
    ensures EnumHolds(Wide(direction, b, c), value)
  {
    var narrow, wide := EnumValues(Narrow(direction, b, c)), EnumValues(Wide(direction, b, c));
    if wide.Some? {
      assert narrow.Some? && !MissesValues(narrow.value, wide.value);
      assert value in narrow.value;
      var i :| 0 <= i < |narrow.value| && narrow.value[i] == value;
      assert Listed(narrow.value[i], wide.value);
      var j :| 0 <= j < |wide.value| && SameValue(value, wide.value[j]);
      assert value == wide.value[j];
    }
  }

  lemma BoundSound(bound: Bound, narrow: Option<BoundValue>, wide: Option<BoundValue>, value: Json)
    requires !BoundIsStricter(narrow, wide, IsUpper(bound)) && LimitHolds(bound, narrow, value)
    ensures LimitHolds(bound, wide, value)
  {
  }

  lemma BoundsSound(direction: Direction, b: Keywords, c: Keywords, pointer: Pointer, value: Json)
    requires ConstraintBreaks(direction, b, c, pointer) == {}
    requires BoundsHold(Narrow(direction, b, c), value)
    ensures BoundsHold(Wide(direction, b, c), value)
  {
    var narrow, wide := Narrow(direction, b, c), Wide(direction, b, c);
    assert !AnyBoundBreaks(direction, b, c, |BOUNDS|);
    forall bound: Bound ensures LimitHolds(bound, Get(wide.bounds, bound), value) {
      var i :| 0 <= i < |BOUNDS| && BOUNDS[i] == bound by {
        BoundsListed(bound);
      }
      assert !BoundBreaks(direction, b, c, BOUNDS[i]);
      BoundSound(bound, Get(narrow.bounds, bound), Get(wide.bounds, bound), value);
    }
  }

  lemma BoundsListed(bound: Bound)
    ensures exists i :: 0 <= i < |BOUNDS| && BOUNDS[i] == bound
  {
    assert BOUNDS[0] == Minimum && BOUNDS[1] == ExclusiveMinimum && BOUNDS[2] == MinLength && BOUNDS[3] == MinItems
        && BOUNDS[4] == MinProperties && BOUNDS[5] == Maximum && BOUNDS[6] == ExclusiveMaximum && BOUNDS[7] == MaxLength
        && BOUNDS[8] == MaxItems && BOUNDS[9] == MaxProperties;
  }

  lemma ScalarsSound(m: Meaning, direction: Direction, b: Keywords, c: Keywords, pointer: Pointer,
                     added: Keywords -> set<string>, value: Json)
    requires LocalBreaks(direction, b, c, pointer) == {} && Comparable(direction, added, b, c)
    requires ScalarsHold(m, Narrow(direction, b, c), value)
    ensures ScalarsHold(m, Wide(direction, b, c), value)
  {
    hide ObjectBreaks, CompositionBreaks, AnyBoundBreaks, BoundsHold, EnumBreaks, EnumHolds, TypesHold, Covers,
         LocalBreaks, IsMultiple;
    NoLocalBreaks(direction, b, c, pointer);
    CoversTypes(SchemaTypes(Wide(direction, b, c)), SchemaTypes(Narrow(direction, b, c)), value);
    EnumSound(direction, b, c, pointer, value);
    BoundsSound(direction, b, c, pointer, value);
  }

  /** The verdicts carry over on one pair of subschemas. */
  ghost predicate Carries(direction: Direction, base: Schema, current: Schema, narrow: Verdict, wide: Verdict) {
    if direction.Request? then forall value :: narrow(base, value) ==> wide(current, value)
    else forall value :: narrow(current, value) ==> wide(base, value)
  }

  ghost predicate Transfers(direction: Direction, children: set<Child>, narrow: Verdict, wide: Verdict) {
    forall child <- children :: Carries(direction, child.base, child.current, narrow, wide)
  }

  function NarrowReading(direction: Direction, added: Keywords -> set<string>): Reading {
    Strict(if direction.Request? then added else NoNames)
  }

  function WideReading(direction: Direction, added: Keywords -> set<string>): Reading {
    if direction.Request? then Strict(NoNames) else Tolerant(added)
  }

  lemma NamedBreaksSome(rule: Rule, names: set<string>, pointer: Pointer)
    ensures names != {} ==> NamedBreaks(rule, names, pointer) != {}
  {
    if names != {} {
      var name :| name in names;
      assert Break(rule, pointer + [Property(name)]) in NamedBreaks(rule, names, pointer);
    }
  }

  lemma NoObjectBreaks(direction: Direction, b: Keywords, c: Keywords, pointer: Pointer)
    requires ObjectBreaks(direction, b, c, pointer) == {}
    ensures b.properties.Keys <= c.properties.Keys
    ensures RequiredNames(direction, b, c) == {}
    ensures direction.Request? ==> !ClosesAdditionalProperties(b, c)
  {
    NamedBreaksSome(PropertyRemoved, RemovedProperties(b, c), pointer);
    NamedBreaksSome(RequiredRule(direction), RequiredNames(direction, b, c), pointer);
    assert RemovedProperties(b, c) == {};
    forall name | name in b.properties ensures name in c.properties {
      assert name !in RemovedProperties(b, c);
    }
  }

  lemma FieldSound(direction: Direction, b: Keywords, c: Keywords, pointer: Pointer, added: Keywords -> set<string>,
                   narrow: Verdict, wide: Verdict, name: string, value: Json)
    requires ObjectBreaks(direction, b, c, pointer) == {} && Comparable(direction, added, b, c)
    requires Transfers(direction, PropertyChildren(b, c) + ExtraChildren(b, c), narrow, wide)
    requires FieldHolds(NarrowReading(direction, added), Narrow(direction, b, c), name, value, narrow)
    ensures FieldHolds(WideReading(direction, added), Wide(direction, b, c), name, value, wide)
  {
    NoObjectBreaks(direction, b, c, pointer);
    if name in b.properties {
      var child := Child(b.properties[name], c.properties[name], Property(name));
      assert child in PropertyChildren(b, c) && Carries(direction, child.base, child.current, narrow, wide);
    } else if name in c.properties {
      assert name in added(b);
    } else if b.additional.Typed? && c.additional.Typed? {
      var child := Child(b.additional.schema, c.additional.schema, Extra);
      assert child in ExtraChildren(b, c) && Carries(direction, child.base, child.current, narrow, wide);
    }
  }

  lemma FieldsSound(direction: Direction, b: Keywords, c: Keywords, pointer: Pointer, added: Keywords -> set<string>,
                    narrow: Verdict, wide: Verdict, value: Json)
    requires ObjectBreaks(direction, b, c, pointer) == {} && Comparable(direction, added, b, c)
    requires Transfers(direction, PropertyChildren(b, c) + ExtraChildren(b, c), narrow, wide)
    requires FieldsHold(NarrowReading(direction, added), Narrow(direction, b, c), value, narrow)
    ensures FieldsHold(WideReading(direction, added), Wide(direction, b, c), value, wide)
  {
    if value.Object? {
      NoObjectBreaks(direction, b, c, pointer);
      forall name | name in Wide(direction, b, c).required ensures name in Narrow(direction, b, c).required {
        assert name !in RequiredNames(direction, b, c);
      }
      forall name | name in value.fields
        ensures FieldHolds(WideReading(direction, added), Wide(direction, b, c), name, value.fields[name], wide)
      {
        FieldSound(direction, b, c, pointer, added, narrow, wide, name, value.fields[name]);
      }
    }
  }

  lemma ElementsSound(direction: Direction, b: Keywords, c: Keywords, added: Keywords -> set<string>, narrow: Verdict,
                      wide: Verdict, value: Json)
    requires Comparable(direction, added, b, c)
    requires Transfers(direction, ItemChildren(b, c), narrow, wide)
    requires TypesHold(SchemaTypes(Narrow(direction, b, c)), value)
    requires ElementsHold(Narrow(direction, b, c), value, narrow)
    ensures ElementsHold(Wide(direction, b, c), value, wide)
  {
    if Wide(direction, b, c).items.Some? && value.Array? && Narrow(direction, b, c).items.Some? {
      var child := Child(b.items.value, c.items.value, Element);
      assert child in ItemChildren(b, c) && Carries(direction, child.base, child.current, narrow, wide);
    }
  }

  lemma PairCarries(direction: Direction, b: Keywords, c: Keywords, keyword: Composition, narrow: Verdict,
                    wide: Verdict, i: nat)
    requires keyword in b.composition && keyword in c.composition
    requires i < |MatchMembers(b, c, keyword).pairs|
    requires Transfers(direction, MemberChildren(b, c, keyword), narrow, wide)
    ensures var pair := MatchMembers(b, c, keyword).pairs[i];
            Carries(direction, pair.prior, pair.current, narrow, wide)
  {
    hide MatchMembers, Carries;
    var pair := MatchMembers(b, c, keyword).pairs[i];
    assert Child(pair.prior, pair.current, Member(keyword, pair.index)) in MemberChildren(b, c, keyword);
  }

  /** The index of the pair that carries a base member when nothing was removed. */
  lemma BasePaired(b: Keywords, c: Keywords, keyword: Composition, member: Schema) returns (i: nat)
    requires keyword in b.composition && keyword in c.composition
    requires MatchMembers(b, c, keyword).removed == [] && member in b.composition[keyword].members
    ensures i < |MatchMembers(b, c, keyword).pairs| && MatchMembers(b, c, keyword).pairs[i].prior == member
  {
    hide Match;
    MatchCovers(b.composition[keyword].members, c.composition[keyword].members, EqualityKey, CompositionIdentity);
    i :| 0 <= i < |MatchMembers(b, c, keyword).pairs| && MatchMembers(b, c, keyword).pairs[i].prior == member;
  }

  /** The index of the pair that carries a current member when nothing was added. */
  lemma CurrentPaired(b: Keywords, c: Keywords, keyword: Composition, member: Schema) returns (i: nat)
    requires keyword in b.composition && keyword in c.composition
    requires MatchMembers(b, c, keyword).added == [] && member in c.composition[keyword].members
    ensures i < |MatchMembers(b, c, keyword).pairs| && MatchMembers(b, c, keyword).pairs[i].current == member
  {
    hide Match;
    MatchCovers(b.composition[keyword].members, c.composition[keyword].members, EqualityKey, CompositionIdentity);
    i :| 0 <= i < |MatchMembers(b, c, keyword).pairs| && MatchMembers(b, c, keyword).pairs[i].current == member;
  }

  lemma PairMembers(b: Keywords, c: Keywords, keyword: Composition, i: nat)
    requires keyword in b.composition && keyword in c.composition && i < |MatchMembers(b, c, keyword).pairs|
    ensures MatchMembers(b, c, keyword).pairs[i].prior in b.composition[keyword].members
    ensures MatchMembers(b, c, keyword).pairs[i].current in c.composition[keyword].members
  {
    hide Match;
    MatchCovers(b.composition[keyword].members, c.composition[keyword].members, EqualityKey, CompositionIdentity);
  }

  /** Each `allOf` member of the wide side is paired with one of the narrow side. */
  lemma AllMembersSound(direction: Direction, b: Keywords, c: Keywords, narrow: Verdict, wide: Verdict, value: Json)
    requires AllOf in b.composition && AllOf in c.composition
    requires !CompositionBreaksFor(direction, b, c, AllOf)
    requires Transfers(direction, MemberChildren(b, c, AllOf), narrow, wide)
    requires forall member <- Narrow(direction, b, c).composition[AllOf].members :: narrow(member, value)
    ensures forall member <- Wide(direction, b, c).composition[AllOf].members :: wide(member, value)
  {
    hide MatchMembers, MemberChildren, Transfers;
    forall member | member in Wide(direction, b, c).composition[AllOf].members ensures wide(member, value) {
      var i;
      if direction.Request? {
        i := CurrentPaired(b, c, AllOf, member);
      } else {
        i := BasePaired(b, c, AllOf, member);
      }
      PairMembers(b, c, AllOf, i);
      PairCarries(direction, b, c, AllOf, narrow, wide, i);
    }
  }

  /** Each alternative of the narrow side is paired with one of the wide side. */
  lemma SomeMemberSound(direction: Direction, b: Keywords, c: Keywords, keyword: Composition, narrow: Verdict,
                        wide: Verdict, value: Json)
    requires keyword in b.composition && keyword in c.composition && !keyword.AllOf?
    requires !CompositionBreaksFor(direction, b, c, keyword)
    requires Transfers(direction, MemberChildren(b, c, keyword), narrow, wide)
    requires SomeMemberHolds(Narrow(direction, b, c).composition[keyword].members, value, narrow)
    ensures SomeMemberHolds(Wide(direction, b, c).composition[keyword].members, value, wide)
  {
    hide MatchMembers, MemberChildren, Transfers;
    var member :| member in Narrow(direction, b, c).composition[keyword].members && narrow(member, value);
    var i;
    if direction.Request? {
      i := BasePaired(b, c, keyword, member);
    } else {
      i := CurrentPaired(b, c, keyword, member);
    }
    PairMembers(b, c, keyword, i);
    PairCarries(direction, b, c, keyword, narrow, wide, i);
  }

  lemma MembersSound(m: Meaning, direction: Direction, b: Keywords, c: Keywords, keyword: Composition, narrow: Verdict,
                     wide: Verdict, value: Json)
    requires !m.exclusive
    requires !CompositionBreaksFor(direction, b, c, keyword)
    requires Transfers(direction, MemberChildren(b, c, keyword), narrow, wide)
    requires CompositionHolds(m, Narrow(direction, b, c), keyword, value, narrow)
    ensures CompositionHolds(m, Wide(direction, b, c), keyword, value, wide)
  {
    hide MemberChildren, Transfers;
    if keyword in b.composition && keyword in c.composition {
      if keyword.AllOf? {
        AllMembersSound(direction, b, c, narrow, wide, value);
      } else {
        SomeMemberSound(direction, b, c, keyword, narrow, wide, value);
      }
    }
  }

  /** One pair of schema objects is sound once its pairs of subschemas are. */
  lemma KeywordsSound(m: Meaning, direction: Direction, b: Keywords, c: Keywords, pointer: Pointer,
                      added: Keywords -> set<string>, narrow: Verdict, wide: Verdict, value: Json)
    requires !m.exclusive
    requires LocalBreaks(direction, b, c, pointer) == {} && Comparable(direction, added, b, c)
    requires Transfers(direction, Children(b, c), narrow, wide)
    requires Satisfies(m, NarrowReading(direction, added), Narrow(direction, b, c), value, narrow)
    ensures Satisfies(m, WideReading(direction, added), Wide(direction, b, c), value, wide)
  {
    hide ObjectBreaks, CompositionBreaksFor, FieldsHold, ElementsHold, CompositionHolds, MemberChildren,
         PropertyChildren, ExtraChildren, ItemChildren, TypesHold, ScalarBreaks;
    NoLocalBreaks(direction, b, c, pointer);
    ScalarsSound(m, direction, b, c, pointer, added, value);
    FieldsSound(direction, b, c, pointer, added, narrow, wide, value);
    ElementsSound(direction, b, c, added, narrow, wide, value);
    forall keyword: Composition ensures CompositionHolds(m, Wide(direction, b, c), keyword, value, wide) {
      match keyword {
        case OneOf => assert MemberBreaks(direction, b, c, OneOf, pointer) == {};
        case AnyOf => assert MemberBreaks(direction, b, c, AnyOf, pointer) == {};
        case AllOf => assert MemberBreaks(direction, b, c, AllOf, pointer) == {};
      }
      assert CompositionHolds(m, Narrow(direction, b, c), keyword, value, narrow);
      MembersSound(m, direction, b, c, keyword, narrow, wide, value);
    }
  }

  // ----- the whole recursion -----

  ghost function NarrowVerdict(m: Meaning, docs: Documents, direction: Direction, added: Keywords -> set<string>,
                               steps: nat): Verdict {
    VerdictAfter(m, Narrow(direction, docs.base, docs.current), NarrowReading(direction, added), steps)
  }

  ghost function WideVerdict(m: Meaning, docs: Documents, direction: Direction, added: Keywords -> set<string>,
                             steps: nat): Verdict {
    VerdictAfter(m, Wide(direction, docs.base, docs.current), WideReading(direction, added), steps)
  }

  ghost predicate NarrowSatisfies(m: Meaning, docs: Documents, direction: Direction, added: Keywords -> set<string>,
                                  steps: nat, b: Keywords, c: Keywords, value: Json) {
    Satisfies(m, NarrowReading(direction, added), Narrow(direction, b, c), value,
              NarrowVerdict(m, docs, direction, added, steps))
  }

  ghost predicate WideSatisfies(m: Meaning, docs: Documents, direction: Direction, added: Keywords -> set<string>,
                                steps: nat, b: Keywords, c: Keywords, value: Json) {
    Satisfies(m, WideReading(direction, added), Wide(direction, b, c), value,
              WideVerdict(m, docs, direction, added, steps))
  }

  lemma VerdictIsConformance(m: Meaning, components: Components<Body>, reading: Reading, steps: nat)
    ensures forall schema, value :: VerdictAfter(m, components, reading, steps)(schema, value)
                                <==> Conforms(m, components, reading, steps, schema, value)
  {
  }

  lemma UnresolvedRaises(docs: Documents, base: Schema, current: Schema, pointer: Pointer, seen: set<RefPair>)
    requires PairOf(base, current) == (None, None) || PairOf(base, current) !in seen
    ensures Resolve(docs.base, base).Failure? || Resolve(docs.current, current).Failure?
            ==> Raises(Walk(docs, base, current, pointer, seen))
  {
    var events := Walk(docs, base, current, pointer, seen);
    if Resolve(docs.base, base).Failure? {
      assert Raised(Resolve(docs.base, base).error) in events;
    } else if Resolve(docs.current, current).Failure? {
      assert Raised(Resolve(docs.current, current).error) in events;
    }
  }

  /** Every value the narrower schema accepts, the wider one accepts, as far as `steps` steps can tell. */
  ghost predicate Sound(m: Meaning, docs: Documents, direction: Direction, added: Keywords -> set<string>, steps: nat,
                        base: Schema, current: Schema) {
    if direction.Request? then
      forall value :: Conforms(m, docs.base, Strict(added), steps, base, value)
                      ==> Conforms(m, docs.current, Strict(NoNames), steps, current, value)
    else
      forall value :: Conforms(m, docs.current, Strict(NoNames), steps, current, value)
                      ==> Conforms(m, docs.base, Tolerant(added), steps, base, value)
  }

  lemma SoundCarries(m: Meaning, docs: Documents, direction: Direction, added: Keywords -> set<string>, steps: nat,
                     base: Schema, current: Schema)
    requires Sound(m, docs, direction, added, steps, base, current)
    ensures Carries(direction, base, current, NarrowVerdict(m, docs, direction, added, steps),
                    WideVerdict(m, docs, direction, added, steps))
  {
    VerdictIsConformance(m, Narrow(direction, docs.base, docs.current), NarrowReading(direction, added), steps);
    VerdictIsConformance(m, Wide(direction, docs.base, docs.current), WideReading(direction, added), steps);
  }

  lemma SatisfiesSound(m: Meaning, docs: Documents, direction: Direction, added: Keywords -> set<string>, before: nat,
                       steps: nat, base: Schema, current: Schema, b: Keywords, c: Keywords)
    requires steps == before + 1
    requires Resolve(docs.base, base) == Success(Inline(b)) && Resolve(docs.current, current) == Success(Inline(c))
    requires forall value :: NarrowSatisfies(m, docs, direction, added, before, b, c, value)
                             ==> WideSatisfies(m, docs, direction, added, before, b, c, value)
    ensures Sound(m, docs, direction, added, steps, base, current)
  {
    hide Satisfies, VerdictAfter;
    if direction.Request? {
      forall value | Conforms(m, docs.base, Strict(added), steps, base, value)
        ensures Conforms(m, docs.current, Strict(NoNames), steps, current, value)
      {
        assert NarrowSatisfies(m, docs, direction, added, before, b, c, value);
      }
    } else {
      forall value | Conforms(m, docs.current, Strict(NoNames), steps, current, value)
        ensures Conforms(m, docs.base, Tolerant(added), steps, base, value)
      {
        assert NarrowSatisfies(m, docs, direction, added, before, b, c, value);
      }
    }
  }

  ghost predicate NoBreaks(direction: Direction, events: set<Event>) {
    BreaksIn(direction, events) == {} && !Raises(events)
  }

  /** What is taken for granted about one event of a comparison. */
  ghost predicate Granted(direction: Direction, added: Keywords -> set<string>, event: Event) {
    match event
    case Compared(b, c, _) => Comparable(direction, added, b, c)
    // Both sides are schema objects, or the pair is harmless.
    case Ignored(b, c) => Narrow(direction, b, c) == Flag(false) || Wide(direction, b, c) == Flag(true)
    // A pair is only skipped when both sides are references.
    case Skipped(pair) => pair.0.Some? && pair.1.Some?
    case Raised(_) => true
  }

  ghost predicate AllGranted(direction: Direction, added: Keywords -> set<string>, events: set<Event>) {
    forall event <- events :: Granted(direction, added, event)
  }

  ghost predicate SeenSound(m: Meaning, docs: Documents, direction: Direction, added: Keywords -> set<string>,
                            steps: nat, seen: set<RefPair>) {
    forall pair, n: nat :: pair in seen && n <= steps && pair.0.Some? && pair.1.Some?
                           ==> Sound(m, docs, direction, added, n, Link(pair.0.value), Link(pair.1.value))
  }

  lemma SmallerWalk(docs: Documents, direction: Direction, added: Keywords -> set<string>, events: set<Event>,
                    part: set<Event>)
    requires part <= events && NoBreaks(direction, events) && AllGranted(direction, added, events)
    ensures NoBreaks(direction, part) && AllGranted(direction, added, part)
  {
    BreaksInUnion(direction, part, events - part);
    assert part + (events - part) == events;
  }

  lemma IgnoredSound(m: Meaning, docs: Documents, direction: Direction, added: Keywords -> set<string>, base: Schema,
                     current: Schema, steps: nat)
    requires steps > 0
    requires Resolve(docs.base, base).Success? && Resolve(docs.current, current).Success?
    requires Granted(direction, added, Ignored(Resolve(docs.base, base).value, Resolve(docs.current, current).value))
    requires Resolve(docs.base, base).value.Flag? || Resolve(docs.current, current).value.Flag?
    ensures Sound(m, docs, direction, added, steps, base, current)
  {
  }

  /**
    Soundness of a comparison in progress. The pairs being compared already are sound for as many
    steps; that is what lets the comparison skip them.
   */
  lemma {:induction false} WalkSound(m: Meaning, docs: Documents, direction: Direction, added: Keywords -> set<string>,
                                     base: Schema, current: Schema, pointer: Pointer, seen: set<RefPair>, steps: nat)
    requires !m.exclusive
    requires var events := Walk(docs, base, current, pointer, seen);
             NoBreaks(direction, events) && AllGranted(direction, added, events)
    requires SeenSound(m, docs, direction, added, steps, seen)
    ensures Sound(m, docs, direction, added, steps, base, current)
    decreases steps
  {
    hide LocalBreaks, Comparable, Children, Universe, Satisfies, VerdictAfter;
    var events := Walk(docs, base, current, pointer, seen);
    var pair := PairOf(base, current);
    if steps == 0 {
    } else if pair != (None, None) && pair in seen {
      assert Granted(direction, added, Skipped(pair));
      assert base == Link(pair.0.value) && current == Link(pair.1.value);
    } else {
      UnresolvedRaises(docs, base, current, pointer, seen);
      var left, right := Resolve(docs.base, base).value, Resolve(docs.current, current).value;
      if left.Flag? || right.Flag? {
        assert Granted(direction, added, Ignored(left, right));
        IgnoredSound(m, docs, direction, added, base, current, steps);
      } else {
        var b, c := left.keywords, right.keywords;
        WalkOfKeywords(docs, direction, base, current, pointer, seen, b, c);
        assert Granted(direction, added, Compared(b, c, pointer));
        var narrow, wide := NarrowVerdict(m, docs, direction, added, steps - 1),
                            WideVerdict(m, docs, direction, added, steps - 1);
        forall child | child in Children(b, c) ensures Carries(direction, child.base, child.current, narrow, wide) {
          ChildSound(m, docs, direction, added, base, current, pointer, seen, steps, b, c, child);
          SoundCarries(m, docs, direction, added, steps - 1, child.base, child.current);
        }
        var before: nat := steps - 1;
        forall value | NarrowSatisfies(m, docs, direction, added, before, b, c, value)
          ensures WideSatisfies(m, docs, direction, added, before, b, c, value)
        {
          KeywordsSound(m, direction, b, c, pointer, added, narrow, wide, value);
        }
        SatisfiesSound(m, docs, direction, added, before, steps, base, current, b, c);
      }
    }
  }

  /** One step further down, the pair being compared has joined the pairs already seen. */
  lemma {:induction false} ChildSound(m: Meaning, docs: Documents, direction: Direction, added: Keywords -> set<string>,
                                      base: Schema, current: Schema, pointer: Pointer, seen: set<RefPair>, steps: nat,
                                      b: Keywords, c: Keywords, child: Child)
    requires !m.exclusive && steps > 0
    requires var events := Walk(docs, base, current, pointer, seen);
             NoBreaks(direction, events) && AllGranted(direction, added, events)
    requires SeenSound(m, docs, direction, added, steps, seen)
    requires PairOf(base, current) == (None, None) || PairOf(base, current) !in seen
    requires Resolve(docs.base, base) == Success(Inline(b)) && Resolve(docs.current, current) == Success(Inline(c))
    requires child in Children(b, c)
    ensures Sound(m, docs, direction, added, steps - 1, child.base, child.current)
    decreases steps, 0
  {
    hide LocalBreaks, Comparable, Children, Universe, Satisfies, Conforms, VerdictAfter, Granted;
    var pair := PairOf(base, current);
    var known := Remember(seen, pair);
    forall n: nat | n <= steps - 1 ensures Sound(m, docs, direction, added, n, base, current) {
      WalkSound(m, docs, direction, added, base, current, pointer, seen, n);
    }
    WalkOfKeywords(docs, direction, base, current, pointer, seen, b, c);
    var below := Walk(docs, child.base, child.current, pointer + [child.step], known);
    ExploreContains(docs, b, Children(b, c), child, pointer, known);
    SmallerWalk(docs, direction, added, Walk(docs, base, current, pointer, seen), below);
    WalkSound(m, docs, direction, added, child.base, child.current, pointer + [child.step], known, steps - 1);
  }

  /**
    Request soundness. When comparing two schemas reports nothing, every value that conforms to the
    base schema and uses no newly declared property name conforms to the current schema, for every
    number of steps.
   */
  lemma RequestSoundness(m: Meaning, docs: Documents, added: Keywords -> set<string>, base: Schema, current: Schema,
                         pointer: Pointer, steps: nat, value: Json)
    requires !m.exclusive
    requires NoBreaks(Request, Walk(docs, base, current, pointer, {}))
    requires AllGranted(Request, added, Walk(docs, base, current, pointer, {}))
    requires Conforms(m, docs.base, Strict(added), steps, base, value)
    ensures Conforms(m, docs.current, Strict(NoNames), steps, current, value)
  {
    WalkSound(m, docs, Request, added, base, current, pointer, {}, steps);
  }

  /**
    Response soundness. When comparing two schemas reports nothing, every value that conforms to the
    current schema conforms to the base schema as a reader that tolerates undeclared properties
    reads it, for every number of steps.
   */
  lemma ResponseSoundness(m: Meaning, docs: Documents, added: Keywords -> set<string>, base: Schema, current: Schema,
                          pointer: Pointer, steps: nat, value: Json)
    requires !m.exclusive
    requires NoBreaks(Response, Walk(docs, base, current, pointer, {}))
    requires AllGranted(Response, added, Walk(docs, base, current, pointer, {}))
    requires Conforms(m, docs.current, Strict(NoNames), steps, current, value)
    ensures Conforms(m, docs.base, Tolerant(added), steps, base, value)
  {
    WalkSound(m, docs, Response, added, base, current, pointer, {}, steps);
  }
}
