/**
  How tight the checks are: where they are exact, and inputs that show that what soundness takes
  for granted cannot be dropped.
 */
module SchemaLimits {
  import opened Wrappers
  import opened Resolution
  import opened Schemas
  import opened CompositionMatching
  import opened Reports
  import opened SchemaRules
  import opened SchemaComparison
  import opened Conformance
  import opened SchemaSoundness

  // ----- exact checks -----

  /** A value that has this kind and, besides the wider kind of numbers for an integer, no other. */
  function Sample(kind: Kind): Json {
    match kind
    case KindNull => Null
    case KindBoolean => Bool(true)
    case KindInteger => Number(1.0)
    case KindNumber => Number(0.5)
    case KindString => Text("")
    case KindArray => Array([])
    case KindObject => Object(map[])
    case OtherKind(_) => Null
  }

  lemma SampleKinds(kind: Kind, other: Kind)
    requires !kind.OtherKind?
    ensures HasKind(Sample(kind), other) <==> other == kind || (kind == KindInteger && other == KindNumber)
  {
    assert 0.5 != (0.5 as real).Floor as real;
  }

  const EVERY_KIND := {KindNull, KindBoolean, KindNumber, KindString, KindArray, KindObject}

  lemma EveryKindIsEnough(wider: set<Kind>)
    ensures (forall value :: TypesHold(Some(wider), value)) <==> EVERY_KIND <= wider
  {
    if EVERY_KIND <= wider {
      forall value: Json ensures TypesHold(Some(wider), value) {
        var kind := match value
                    case Null => KindNull
                    case Bool(_) => KindBoolean
                    case Number(_) => KindNumber
                    case Text(_) => KindString
                    case Array(_) => KindArray
                    case Object(_) => KindObject;
        assert kind in wider && HasKind(value, kind);
      }
    }
    if forall value :: TypesHold(Some(wider), value) {
      forall kind | kind in EVERY_KIND ensures kind in wider {
        assert TypesHold(Some(wider), Sample(kind));
        forall other | other in wider && HasKind(Sample(kind), other) ensures other == kind {
          SampleKinds(kind, other);
        }
      }
    }
  }

  /** Every value of the narrower types has one of the wider types. */
  ghost predicate Includes(wider: Option<set<Kind>>, narrower: Option<set<Kind>>) {
    forall value :: TypesHold(narrower, value) ==> TypesHold(wider, value)
  }

  lemma KnownKindsAreExact(wider: set<Kind>, narrower: set<Kind>)
    requires forall kind <- narrower :: kind.OtherKind? ==> kind in wider
    ensures Covers(Some(wider), Some(narrower)) <==> Includes(Some(wider), Some(narrower))
  {
    if Covers(Some(wider), Some(narrower)) {
      forall value | TypesHold(Some(narrower), value) ensures TypesHold(Some(wider), value) {
        CoversTypes(Some(wider), Some(narrower), value);
      }
    } else {
      var kind :| kind in narrower && kind !in wider && !(kind == KindInteger && KindNumber in wider);
      SampleKinds(kind, kind);
      assert TypesHold(Some(narrower), Sample(kind));
      forall other | other in wider ensures !HasKind(Sample(kind), other) {
        SampleKinds(kind, other);
      }
      assert !TypesHold(Some(wider), Sample(kind));
    }
  }

  /**
    `covers` says yes exactly when every value of the narrower types has one of the wider types,
    apart from two cases in which it says no although nothing is lost: no narrower types against a
    list of all kinds, and a narrower type name without any value that the wider types do not list.
   */
  lemma CoversIsExact(wider: Option<set<Kind>>, narrower: Option<set<Kind>>)
    ensures Covers(wider, narrower)
            <==> && Includes(wider, narrower)
                 && !(narrower.None? && wider.Some? && EVERY_KIND <= wider.value)
                 && !(narrower.Some? && wider.Some? && exists kind <- narrower.value :: kind.OtherKind?
                                                         && kind !in wider.value)
  {
    if wider.Some? && narrower.Some? {
      if forall kind <- narrower.value :: kind.OtherKind? ==> kind in wider.value {
        KnownKindsAreExact(wider.value, narrower.value);
      }
    } else if wider.Some? {
      EveryKindIsEnough(wider.value);
      assert Includes(wider, narrower) <==> forall value :: TypesHold(Some(wider.value), value);
    }
  }

  predicate OnNumbers(bound: Bound) {
    bound.Minimum? || bound.ExclusiveMinimum? || bound.Maximum? || bound.ExclusiveMaximum?
  }

  /** A numeric bound is reported as stricter exactly when it excludes a number the other bound allows. */
  lemma NumberBoundIsExact(bound: Bound, base: Option<BoundValue>, current: Option<BoundValue>)
    requires OnNumbers(bound)
    ensures BoundIsStricter(base, current, IsUpper(bound))
            <==> exists value :: LimitHolds(bound, base, value) && !LimitHolds(bound, current, value)
  {
    if BoundIsStricter(base, current, IsUpper(bound)) {
      var c := current.value.limit;
      var between := if base.None? || base.value.Switch? then if IsUpper(bound) then c + 1.0 else c - 1.0
                     else (base.value.limit + c) / 2.0;
      assert LimitHolds(bound, base, Number(between)) && !LimitHolds(bound, current, Number(between));
    } else {
      forall value | LimitHolds(bound, base, value) ensures LimitHolds(bound, current, value) {
        BoundSound(bound, base, current, value);
      }
    }
  }

  /** A value whose measure on a counting bound is n. */
  function Counted(bound: Bound, n: nat): Json
    requires !OnNumbers(bound)
  {
    match bound
    case MinLength => Text(seq(n, i => 'a'))
    case MaxLength => Text(seq(n, i => 'a'))
    case MinItems => Array(seq(n, i => Null))
    case MaxItems => Array(seq(n, i => Null))
    case MinProperties => Object(Fields(n))
    case MaxProperties => Object(Fields(n))
  }

  function Fields(n: nat): (r: map<string, Json>)
    ensures |r| == n && forall name <- r :: |name| < n
  {
    if n == 0 then map[] else Fields(n - 1)[seq(n - 1, i => 'a') := Null]
  }

  lemma CountedMeasures(bound: Bound, limit: real, n: nat)
    requires !OnNumbers(bound)
    ensures BoundHolds(bound, limit, Counted(bound, n))
         <==> if IsUpper(bound) then n as real <= limit else n as real >= limit
  {
  }

  /** The smallest count that is not below the limit. */
  function FirstCount(limit: real): nat {
    if limit <= 0.0 then 0 else if limit == limit.Floor as real then limit.Floor else limit.Floor + 1
  }

  function Numeric(limit: Option<BoundValue>): Option<real> {
    if limit.Some? && limit.value.Limit? then Some(limit.value.limit) else None
  }

  /**
    For bounds that count, a stricter bound loses nothing when no count lies between the two: below
    zero or between two whole numbers.
   */
  predicate NoCountBetween(base: Option<real>, current: real, upper: bool) {
    if upper then base.Some? && (base.value < 0.0 || base.value.Floor as real <= current)
    else current <= FirstCount(if base.Some? then base.value else 0.0) as real
  }

  /**
    A bound on a length or a count excludes a value the other one allows exactly when it is reported
    as stricter and some count lies between the two.
   */
  lemma CountBoundIsExact(bound: Bound, base: Option<BoundValue>, current: Option<BoundValue>)
    requires !OnNumbers(bound)
    ensures (exists value :: LimitHolds(bound, base, value) && !LimitHolds(bound, current, value))
            <==> && BoundIsStricter(base, current, IsUpper(bound))
                 && !NoCountBetween(Numeric(base), current.value.limit, IsUpper(bound))
  {
    if !BoundIsStricter(base, current, IsUpper(bound)) {
      forall value | LimitHolds(bound, base, value) ensures LimitHolds(bound, current, value) {
        BoundSound(bound, base, current, value);
      }
    } else {
      var b, c := Numeric(base), current.value.limit;
      if NoCountBetween(b, c, IsUpper(bound)) {
        forall value | LimitHolds(bound, base, value) ensures LimitHolds(bound, current, value) {
          NothingBetween(bound, b, c, value);
        }
      } else {
        var n := if !IsUpper(bound) then FirstCount(if b.Some? then b.value else 0.0)
                 else if b.Some? then b.value.Floor else FirstCount(c) + 1;
        CountedMeasures(bound, c, n);
        if b.Some? {
          CountedMeasures(bound, b.value, n);
        }
        assert LimitHolds(bound, base, Counted(bound, n)) && !LimitHolds(bound, current, Counted(bound, n));
      }
    }
  }

  /**
    A bound excludes a value the other one allows exactly when it is reported as stricter and, if it
    counts, some count lies between the two.
   */
  lemma BoundIsStricterIsExact(bound: Bound, base: Option<BoundValue>, current: Option<BoundValue>)
    ensures (exists value :: LimitHolds(bound, base, value) && !LimitHolds(bound, current, value))
            <==> && BoundIsStricter(base, current, IsUpper(bound))
                 && (OnNumbers(bound) || !NoCountBetween(Numeric(base), current.value.limit, IsUpper(bound)))
  {
    hide LimitHolds, BoundIsStricter;
    if OnNumbers(bound) {
      NumberBoundIsExact(bound, base, current);
    } else {
      CountBoundIsExact(bound, base, current);
    }
  }

  lemma NothingBetween(bound: Bound, base: Option<real>, current: real, value: Json)
    requires !OnNumbers(bound) && NoCountBetween(base, current, IsUpper(bound))
    requires base.Some? ==> BoundHolds(bound, base.value, value)
    ensures BoundHolds(bound, current, value)
  {
    hide NoCountBetween;
    if value.Text? && (bound.MinLength? || bound.MaxLength?) {
      NoCount(base, current, IsUpper(bound), |value.s|);
    } else if value.Array? && (bound.MinItems? || bound.MaxItems?) {
      NoCount(base, current, IsUpper(bound), |value.elements|);
    } else if value.Object? && (bound.MinProperties? || bound.MaxProperties?) {
      NoCount(base, current, IsUpper(bound), |value.fields|);
    }
  }

  lemma NoCount(base: Option<real>, current: real, upper: bool, n: nat)
    requires NoCountBetween(base, current, upper)
    requires base.Some? ==> if upper then n as real <= base.value else n as real >= base.value
    ensures if upper then n as real <= current else n as real >= current
  {
    hide FirstCount;
    if upper {
      FloorIsLast(base.value, n);
      InOrder(n, base.value.Floor);
    } else {
      var least := if base.Some? then base.value else 0.0;
      FirstCountIsFirst(least, n);
      InOrder(FirstCount(least), n);
    }
  }

  lemma InOrder(i: int, j: int)
    requires i <= j
    ensures i as real <= j as real
  {
  }

  lemma FloorIsLast(limit: real, n: nat)
    requires n as real <= limit
    ensures n <= limit.Floor
  {
  }

  lemma FirstCountIsFirst(limit: real, n: nat)
    requires n as real >= limit
    ensures n >= FirstCount(limit)
  {
  }

  lemma InListed(value: Json, values: seq<Json>)
    ensures value in values ==> Listed(value, values)
  {
    if value in values {
      var j :| 0 <= j < |values| && values[j] == value;
      assert SameValue(value, values[j]);
    }
  }

  /** A value of the source is not among the targets, but equality takes one of them for it. */
  ghost predicate Confuses(source: seq<Json>, target: seq<Json>) {
    exists value <- source :: value !in target && Listed(value, target)
  }

  /**
    A value is lost exactly when one is reported missing or equality confuses one. So the report is
    exact on all enums whose values equality does not confuse.
   */
  lemma MissesValuesIsExact(source: seq<Json>, target: seq<Json>)
    ensures (exists value <- source :: value !in target) <==> MissesValues(source, target) || Confuses(source, target)
    ensures Unambiguous(Some(source), Some(target)) ==> !Confuses(source, target)
  {
    if MissesValues(source, target) {
      var i :| 0 <= i < |source| && !Listed(source[i], target);
      InListed(source[i], target);
      assert source[i] in source;
    }
    if value :| value in source && value !in target {
      var i :| 0 <= i < |source| && source[i] == value;
      if Listed(value, target) {
        assert Confuses(source, target);
      }
    }
    if Unambiguous(Some(source), Some(target)) && Confuses(source, target) {
      var value :| value in source && value !in target && Listed(value, target);
      var j :| 0 <= j < |target| && SameValue(value, target[j]);
      assert target[j] in target;
    }
  }

  // ----- what soundness takes for granted is needed -----

  const NO_DOCUMENTS := Documents(map[], map[])

  function Plain(k: Keywords): Schema {
    Here(Inline(k))
  }

  lemma ChildlessWalk(b: Keywords, c: Keywords)
    requires Children(b, c) == {}
    ensures Walk(NO_DOCUMENTS, Plain(b), Plain(c), [], {}) == {Compared(b, c, [])}
  {
  }

  /** The base schema accepts the value and the current one does not, although nothing is reported. */
  ghost predicate Unsound(m: Meaning, docs: Documents, base: Schema, current: Schema, value: Json) {
    && NoBreaks(Request, Walk(docs, base, current, [], {}))
    && (forall steps: nat :: steps >= 3 ==> Conforms(m, docs.base, Strict(NoNames), steps, base, value)
                                            && !Conforms(m, docs.current, Strict(NoNames), steps, current, value))
  }

  lemma ChildlessUnsound(m: Meaning, b: Keywords, c: Keywords, value: Json)
    requires Children(b, c) == {} && LocalBreaks(Request, b, c, []) == {}
    requires forall steps: nat :: steps >= 2 ==>
      Satisfies(m, Strict(NoNames), b, value, VerdictAfter(m, map[], Strict(NoNames), steps))
      && !Satisfies(m, Strict(NoNames), c, value, VerdictAfter(m, map[], Strict(NoNames), steps))
    ensures Unsound(m, NO_DOCUMENTS, Plain(b), Plain(c), value)
  {
    hide LocalBreaks, Children, Satisfies, VerdictAfter;
    ChildlessWalk(b, c);
    forall steps: nat | steps >= 3
      ensures Conforms(m, map[], Strict(NoNames), steps, Plain(b), value)
              && !Conforms(m, map[], Strict(NoNames), steps, Plain(c), value)
    {
      var before: nat := steps - 1;
      assert before >= 2;
    }
  }

  const ANY_STRING := EMPTY.(types := Some(One(KindString)))
  const ANY_ARRAY := EMPTY.(types := Some(One(KindArray)))

  /** Python takes `true` for 1, so an enum may change from one to the other unnoticed. */
  lemma BooleanEnumIsConfused(m: Meaning)
    ensures Unsound(m, NO_DOCUMENTS, Plain(EMPTY.(enumeration := Some([Bool(true)]))),
                    Plain(EMPTY.(enumeration := Some([Number(1.0)]))), Bool(true))
  {
    var b, c := EMPTY.(enumeration := Some([Bool(true)])), EMPTY.(enumeration := Some([Number(1.0)]));
    assert SameValue(Bool(true), Number(1.0));
    assert Listed(Bool(true), [Number(1.0)]) by {
      assert [Number(1.0)][0] == Number(1.0);
    }
    ChildlessUnsound(m, b, c, Bool(true));
  }

  /** With both keywords, `const` hides from the comparison that `enum` excludes the value. */
  lemma ConstHidesEnum(m: Meaning)
    ensures Unsound(m, NO_DOCUMENTS, Plain(EMPTY.(constant := Some(Null))),
                    Plain(EMPTY.(constant := Some(Null), enumeration := Some([Text("")]))), Null)
  {
    var b, c := EMPTY.(constant := Some(Null)), EMPTY.(constant := Some(Null), enumeration := Some([Text("")]));
    assert Listed(Null, [Null]) by {
      assert SameValue(Null, [Null][0]);
    }
    ChildlessUnsound(m, b, c, Null);
  }

  /** A schema object that becomes `false` is not compared, although nothing conforms any more. */
  lemma ClosedSchemaIsMissed(m: Meaning)
    ensures Unsound(m, NO_DOCUMENTS, Plain(EMPTY), Here(Flag(false)), Null)
  {
    assert Walk(NO_DOCUMENTS, Plain(EMPTY), Here(Flag(false)), [], {}) == {Ignored(Inline(EMPTY), Flag(false))};
    forall steps: nat | steps >= 3
      ensures Conforms(m, map[], Strict(NoNames), steps, Plain(EMPTY), Null)
      ensures !Conforms(m, map[], Strict(NoNames), steps, Here(Flag(false)), Null)
    {
    }
  }

  /** The current schema can return the value and the base one does not allow it, although nothing is reported. */
  ghost predicate UnsoundResponse(m: Meaning, docs: Documents, base: Schema, current: Schema, value: Json) {
    && NoBreaks(Response, Walk(docs, base, current, [], {}))
    && (forall steps: nat :: steps >= 3 ==> Conforms(m, docs.current, Strict(NoNames), steps, current, value)
                                            && !Conforms(m, docs.base, Tolerant(NoNames), steps, base, value))
  }

  /** In a response, a required name that neither side declares as a property may go missing unreported. */
  lemma UndeclaredRequiredIsMissed(m: Meaning)
    ensures UnsoundResponse(m, NO_DOCUMENTS, Plain(EMPTY.(required := {"a"})), Plain(EMPTY), Object(map[]))
  {
    var b, c, value := EMPTY.(required := {"a"}), EMPTY, Object(map[]);
    assert RequiredNames(Response, b, c) == {};
    assert LocalBreaks(Response, b, c, []) == {};
    assert Children(b, c) == {};
    ChildlessWalk(b, c);
    forall steps: nat | steps >= 3
      ensures Conforms(m, map[], Strict(NoNames), steps, Plain(c), value)
              && !Conforms(m, map[], Tolerant(NoNames), steps, Plain(b), value)
    {
      assert "a" in b.required && "a" !in value.fields;
      assert !FieldsHold(Tolerant(NoNames), b, value, VerdictAfter(m, map[], Tolerant(NoNames), steps - 1));
      assert Satisfies(m, Strict(NoNames), c, value, VerdictAfter(m, map[], Strict(NoNames), steps - 1));
    }
  }

  /** Items that only the current schema declares are not compared. */
  lemma NewItemsAreMissed(m: Meaning)
    ensures Unsound(m, NO_DOCUMENTS, Plain(ANY_ARRAY), Plain(ANY_ARRAY.(items := Some(Plain(ANY_STRING)))),
                    Array([Null]))
  {
    var b, c := ANY_ARRAY, ANY_ARRAY.(items := Some(Plain(ANY_STRING)));
    var value := Array([Null]);
    forall steps: nat | steps >= 2
      ensures !Satisfies(m, Strict(NoNames), c, value, VerdictAfter(m, map[], Strict(NoNames), steps))
    {
      NullIsNoString(m, steps);
      assert value.elements[0] == Null;
    }
    assert HasKind(value, KindArray);
    ChildlessUnsound(m, b, c, value);
  }

  lemma NullIsNoString(m: Meaning, steps: nat)
    requires steps > 0
    ensures !VerdictAfter(m, map[], Strict(NoNames), steps)(Plain(ANY_STRING), Null)
  {
    assert !TypesHold(SchemaTypes(ANY_STRING), Null);
    assert !Conforms(m, map[], Strict(NoNames), steps, Plain(ANY_STRING), Null);
  }

  /** A schema for undeclared properties that only the current document has is not compared. */
  lemma NewExtraSchemaIsMissed(m: Meaning)
    ensures Unsound(m, NO_DOCUMENTS, Plain(EMPTY), Plain(EMPTY.(additional := Typed(Plain(ANY_STRING)))),
                    Object(map["a" := Null]))
  {
    var b, c := EMPTY, EMPTY.(additional := Typed(Plain(ANY_STRING)));
    var value := Object(map["a" := Null]);
    forall steps: nat | steps >= 2
      ensures !Satisfies(m, Strict(NoNames), c, value, VerdictAfter(m, map[], Strict(NoNames), steps))
    {
      NullIsNoString(m, steps);
      assert "a" in value.fields;
    }
    ChildlessUnsound(m, b, c, value);
  }

  /** A client that sends a name before the current document declares it may be rejected. */
  lemma NewPropertyMayClash(m: Meaning)
    ensures Unsound(m, NO_DOCUMENTS, Plain(EMPTY), Plain(EMPTY.(properties := map["a" := Plain(ANY_STRING)])),
                    Object(map["a" := Null]))
  {
    var b, c := EMPTY, EMPTY.(properties := map["a" := Plain(ANY_STRING)]);
    var value := Object(map["a" := Null]);
    forall steps: nat | steps >= 2
      ensures !Satisfies(m, Strict(NoNames), c, value, VerdictAfter(m, map[], Strict(NoNames), steps))
    {
      NullIsNoString(m, steps);
      assert "a" in value.fields;
    }
    ChildlessUnsound(m, b, c, value);
  }

  /**
    The cycle guard takes an inline schema for the absent reference, so two different inline schemas
    below the same reference share one key: the inner one is skipped although it was never compared.
   */
  lemma OneSidedSkipIsUnsound(m: Meaning)
    ensures var node := EMPTY.(properties := map["a" := Link("N")]);
            var outer := EMPTY.(properties := map["a" := Plain(ANY_STRING)]);
            var docs := Documents(map["N" := Plain(node)], map[]);
            && Unsound(m, docs, Link("N"), Plain(outer), Object(map["a" := Object(map[])]))
            && Walk(docs, Link("N"), Plain(outer), [], {}) == {Compared(node, outer, []), Skipped((Some("N"), None))}
            && Comparable(Request, NoNames, node, outer)
  {
    hide LocalBreaks, Children, Satisfies, VerdictAfter, Explore, Comparable;
    var node := EMPTY.(properties := map["a" := Link("N")]);
    var outer := EMPTY.(properties := map["a" := Plain(ANY_STRING)]);
    SkippedWalk(node, outer);
    forall steps: nat | steps >= 3
      ensures Conforms(m, map["N" := Plain(node)], Strict(NoNames), steps, Link("N"), Object(map["a" := Object(map[])]))
      ensures !Conforms(m, map[], Strict(NoNames), steps, Plain(outer), Object(map["a" := Object(map[])]))
    {
      SkippedConforms(m, node, Object(map["a" := Object(map[])]), steps);
      SkippedIsRejected(m, outer, steps - 1);
    }
  }

  lemma SkippedWalk(node: Keywords, outer: Keywords)
    requires node == EMPTY.(properties := map["a" := Link("N")])
    requires outer == EMPTY.(properties := map["a" := Plain(ANY_STRING)])
    ensures Comparable(Request, NoNames, node, outer)
    ensures var events := Walk(Documents(map["N" := Plain(node)], map[]), Link("N"), Plain(outer), [], {});
            events == {Compared(node, outer, []), Skipped((Some("N"), None))} && NoBreaks(Request, events)
  {
    var docs := Documents(map["N" := Plain(node)], map[]);
    var child := Child(Link("N"), Plain(ANY_STRING), Property("a"));
    var seen: set<RefPair> := {(Some("N"), None)};
    SkippedPair(node, outer);
    hide Children, LocalBreaks, Comparable;
    ExploreOne(docs, node, child, [], seen);
    assert [] + [child.step] == [child.step];
    assert Walk(docs, child.base, child.current, [child.step], seen) == {Skipped((Some("N"), None))};
    NodeResolves(node);
    assert Remember({}, (Some("N"), None)) == seen;
    WalkOfKeywords(docs, Request, Link("N"), Plain(outer), [], {}, node, outer);
  }

  lemma SkippedPair(node: Keywords, outer: Keywords)
    requires node == EMPTY.(properties := map["a" := Link("N")])
    requires outer == EMPTY.(properties := map["a" := Plain(ANY_STRING)])
    ensures Children(node, outer) == {Child(Link("N"), Plain(ANY_STRING), Property("a"))}
    ensures LocalBreaks(Request, node, outer, []) == {}
    ensures Comparable(Request, NoNames, node, outer)
  {
    assert Children(node, outer) == PropertyChildren(node, outer);
  }

  lemma SkippedIsRejected(m: Meaning, outer: Keywords, steps: nat)
    requires steps > 0 && outer == EMPTY.(properties := map["a" := Plain(ANY_STRING)])
    ensures !Satisfies(m, Strict(NoNames), outer, Object(map["a" := Object(map[])]),
                       VerdictAfter(m, map[], Strict(NoNames), steps))
  {
    var value := Object(map["a" := Object(map[])]);
    ObjectIsNoString(m, steps);
    assert "a" in value.fields;
    assert !FieldHolds(Strict(NoNames), outer, "a", Object(map[]), VerdictAfter(m, map[], Strict(NoNames), steps));
  }

  lemma NodeResolves(node: Keywords)
    ensures Resolve(map["N" := Plain(node)], Link("N")) == Success(Inline(node))
  {
    var components: Components<Body> := map["N" := Plain(node)];
    var seen: set<string> := {} + {"N"};
    assert ResolveFrom(components, components["N"], seen) == Success(Inline(node));
  }

  lemma ObjectIsNoString(m: Meaning, steps: nat)
    requires steps > 0
    ensures !VerdictAfter(m, map[], Strict(NoNames), steps)(Plain(ANY_STRING), Object(map[]))
  {
    assert !TypesHold(SchemaTypes(ANY_STRING), Object(map[]));
    assert !Conforms(m, map[], Strict(NoNames), steps, Plain(ANY_STRING), Object(map[]));
  }

  /** The recursive base schema accepts nested objects. */
  lemma SkippedConforms(m: Meaning, node: Keywords, value: Json, steps: nat)
    requires node == EMPTY.(properties := map["a" := Link("N")])
    requires value == Object(map[]) || (value == Object(map["a" := Object(map[])]) && steps >= 2)
    requires steps > 0
    ensures Conforms(m, map["N" := Plain(node)], Strict(NoNames), steps, Link("N"), value)
  {
    var components := map["N" := Plain(node)];
    if value != Object(map[]) {
      SkippedConforms(m, node, Object(map[]), steps - 1);
      VerdictIsConformance(m, components, Strict(NoNames), steps - 1);
    }
    NodeResolves(node);
    assert Satisfies(m, Strict(NoNames), node, value, VerdictAfter(m, components, Strict(NoNames), steps - 1));
  }

  /**
    With `oneOf` read as exactly one, adding an alternative to a request can reject a value: it may
    now match two. The checker takes every added alternative as harmless.
   */
  lemma AddedAlternativeMayOverlap(m: Meaning)
    requires m.exclusive
    ensures Unsound(m, NO_DOCUMENTS, Plain(ONE_ALTERNATIVE), Plain(TWO_ALTERNATIVES), Text(""))
  {
    hide LocalBreaks, Children, Satisfies, VerdictAfter, Explore;
    var b, c := ONE_ALTERNATIVE, TWO_ALTERNATIVES;
    AlternativesReportNothing();
    WalkOfKeywords(NO_DOCUMENTS, Request, Plain(b), Plain(c), [], {}, b, c);
    AlternativeWalks();
    forall steps: nat | steps >= 3
      ensures Conforms(m, map[], Strict(NoNames), steps, Plain(b), Text(""))
              && !Conforms(m, map[], Strict(NoNames), steps, Plain(c), Text(""))
    {
      AlternativesConform(m, steps - 1);
    }
  }

  lemma AlternativesReportNothing()
    ensures LocalBreaks(Request, ONE_ALTERNATIVE, TWO_ALTERNATIVES, []) == {}
  {
    hide Match;
    AlternativesMatch();
  }

  const ONE_ALTERNATIVE := EMPTY.(composition := map[OneOf := MemberList([Plain(ANY_STRING)])])
  const TWO_ALTERNATIVES := EMPTY.(composition := map[OneOf := MemberList([Plain(ANY_STRING), Plain(EMPTY)])])

  lemma AlternativesMatch()
    ensures MatchMembers(ONE_ALTERNATIVE, TWO_ALTERNATIVES, OneOf)
         == Matching([Pair(0, Plain(ANY_STRING), Plain(ANY_STRING))], [], [Plain(EMPTY)])
  {
    hide Match, CanonicalSchema;
    MatchOfHead(Plain(ANY_STRING), [Plain(EMPTY)], EqualityKey, CompositionIdentity);
    assert [Plain(ANY_STRING)] + [Plain(EMPTY)] == TWO_ALTERNATIVES.composition[OneOf].members;
  }

  lemma AlternativeWalks()
    ensures var below := Explore(NO_DOCUMENTS, ONE_ALTERNATIVE, Children(ONE_ALTERNATIVE, TWO_ALTERNATIVES), [], {});
            BreaksIn(Request, below) == {} && !Raises(below)
  {
    hide Match, LocalBreaks;
    var child := Child(Plain(ANY_STRING), Plain(ANY_STRING), Member(OneOf, 0));
    AlternativesMatch();
    var pairs := MatchMembers(ONE_ALTERNATIVE, TWO_ALTERNATIVES, OneOf).pairs;
    assert |pairs| == 1 && pairs[0] == Pair(0, Plain(ANY_STRING), Plain(ANY_STRING));
    forall x ensures x in MemberChildren(ONE_ALTERNATIVE, TWO_ALTERNATIVES, OneOf) <==> x == child {
      assert x == child ==> x == Child(pairs[0].prior, pairs[0].current, Member(OneOf, pairs[0].index));
    }
    assert MemberChildren(ONE_ALTERNATIVE, TWO_ALTERNATIVES, AnyOf) == {};
    assert MemberChildren(ONE_ALTERNATIVE, TWO_ALTERNATIVES, AllOf) == {};
    assert Children(ONE_ALTERNATIVE, TWO_ALTERNATIVES) == {child};
    ExploreOne(NO_DOCUMENTS, ONE_ALTERNATIVE, child, [], {});
    assert Children(ANY_STRING, ANY_STRING) == {};
    WalkOfKeywords(NO_DOCUMENTS, Request, child.base, child.current, [child.step], {}, ANY_STRING, ANY_STRING);
    AnyStringIsUnchanged([child.step]);
    assert [] + [child.step] == [child.step];
    assert Explore(NO_DOCUMENTS, ANY_STRING, {}, [child.step], {}) == {};
    assert BreaksIn(Request, {}) == {};
  }

  lemma AnyStringIsUnchanged(pointer: Pointer)
    ensures LocalBreaks(Request, ANY_STRING, ANY_STRING, pointer) == {}
  {
  }

  lemma AlternativesConform(m: Meaning, steps: nat)
    requires m.exclusive && steps >= 2
    ensures Satisfies(m, Strict(NoNames), ONE_ALTERNATIVE, Text(""), VerdictAfter(m, map[], Strict(NoNames), steps))
    ensures !Satisfies(m, Strict(NoNames), TWO_ALTERNATIVES, Text(""), VerdictAfter(m, map[], Strict(NoNames), steps))
  {
    var ok := VerdictAfter(m, map[], Strict(NoNames), steps);
    assert HasKind(Text(""), KindString) && TypesHold(SchemaTypes(ANY_STRING), Text(""));
    assert Conforms(m, map[], Strict(NoNames), steps, Plain(ANY_STRING), Text(""));
    assert Conforms(m, map[], Strict(NoNames), steps, Plain(EMPTY), Text(""));
    assert ok(Plain(ANY_STRING), Text("")) && ok(Plain(EMPTY), Text(""));
    var one, two := ONE_ALTERNATIVE.composition[OneOf].members, TWO_ALTERNATIVES.composition[OneOf].members;
    assert one[0] == Plain(ANY_STRING) && two[0] == Plain(ANY_STRING) && two[1] == Plain(EMPTY);
    assert OneMemberHolds(one, Text(""), ok) && !OneMemberHolds(two, Text(""), ok);
    assert !CompositionHolds(m, TWO_ALTERNATIVES, OneOf, Text(""), ok);
  }
}
