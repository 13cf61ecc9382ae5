/**
  When exactly a pair of schema objects reports each rule, stated on the values, field sets and
  numbers that the two objects accept.
 */
module SchemaExactness {
  import opened Wrappers
  import opened Resolution
  import opened Schemas
  import opened CompositionMatching
  import opened MatchingOrder
  import opened Reports
  import opened SchemaRules
  import opened Conformance
  import opened SchemaSoundness
  import opened SchemaLimits

  // ----- equality -----

  /** Equality of JSON values in Python, where a boolean equals the number 1 or 0. */
  predicate PyEqual(left: Json, right: Json) {
    match left
    case Null => right.Null?
    case Bool(b) => right == left || right == Number(if b then 1.0 else 0.0)
    case Number(n) => right == left || (n == 1.0 && right == Bool(true)) || (n == 0.0 && right == Bool(false))
    case Text(_) => right == left
    case Array(elements) =>
      && right.Array? && |elements| == |right.elements|
      && forall i :: 0 <= i < |elements| ==> PyEqual(elements[i], right.elements[i])
    case Object(fields) =>
      && right.Object? && fields.Keys == right.fields.Keys
      && forall name <- fields :: PyEqual(fields[name], right.fields[name])
  }

  lemma {:induction false} SameValueIsPyEqual(left: Json, right: Json)
    ensures SameValue(left, right) <==> PyEqual(left, right)
  {
    if left.Array? && right.Array? {
      SameArrays(left.elements, right.elements);
      if |left.elements| == |right.elements| {
        forall i | 0 <= i < |left.elements|
          ensures SameValue(left.elements[i], right.elements[i]) <==> PyEqual(left.elements[i], right.elements[i]) {
          SameValueIsPyEqual(left.elements[i], right.elements[i]);
        }
      }
    } else if left.Object? && right.Object? {
      SameObjects(left.fields, right.fields);
      if left.fields.Keys == right.fields.Keys {
        forall name | name in left.fields
          ensures SameValue(left.fields[name], right.fields[name]) <==> PyEqual(left.fields[name], right.fields[name]) {
          SameValueIsPyEqual(left.fields[name], right.fields[name]);
        }
      }
    }
  }

  lemma SameArrays(left: seq<Json>, right: seq<Json>)
    ensures SameValue(Array(left), Array(right))
         <==> |left| == |right| && forall i :: 0 <= i < |left| ==> SameValue(left[i], right[i])
  {
    var l, r := CanonicalValue(Array(left)).elements, CanonicalValue(Array(right)).elements;
    assert |l| == |left| && |r| == |right|;
    assert forall i :: 0 <= i < |left| ==> l[i] == CanonicalValue(left[i]);
    assert forall i :: 0 <= i < |right| ==> r[i] == CanonicalValue(right[i]);
    if |left| == |right| && forall i :: 0 <= i < |left| ==> SameValue(left[i], right[i]) {
      assert l == r;
    }
  }

  lemma SameObjects(left: map<string, Json>, right: map<string, Json>)
    ensures SameValue(Object(left), Object(right))
         <==> left.Keys == right.Keys && forall name <- left :: SameValue(left[name], right[name])
  {
    var l, r := CanonicalValue(Object(left)).fields, CanonicalValue(Object(right)).fields;
    assert l.Keys == left.Keys && r.Keys == right.Keys;
    assert forall name <- left :: l[name] == CanonicalValue(left[name]);
    assert forall name <- right :: r[name] == CanonicalValue(right[name]);
    if left.Keys == right.Keys && forall name <- left :: SameValue(left[name], right[name]) {
      assert l == r;
    }
  }

  ghost predicate OptionsEqual(left: Option<Json>, right: Option<Json>) {
    (left.None? && right.None?) || (left.Some? && right.Some? && PyEqual(left.value, right.value))
  }

  lemma OptionsEqualMeans(left: Option<Json>, right: Option<Json>)
    ensures CanonicalOption(left) == CanonicalOption(right) <==> OptionsEqual(left, right)
  {
    if left.Some? && right.Some? {
      SameValueIsPyEqual(left.value, right.value);
    }
  }

  ghost predicate BoundsEqual(left: BoundValue, right: BoundValue) {
    match left
    case Limit(n) => right == left || (n == 1.0 && right == Switch(true)) || (n == 0.0 && right == Switch(false))
    case Switch(on) => right == left || right == Limit(if on then 1.0 else 0.0)
  }

  lemma BoundsEqualMeans(left: BoundValue, right: BoundValue)
    ensures CanonicalBound(left) == CanonicalBound(right) <==> BoundsEqual(left, right)
  {
  }

  /** The keywords that hold no values and no schemas. */
  ghost predicate LabelsEqual(left: Keywords, right: Keywords) {
    && left.types == right.types && left.nullable == right.nullable && left.uniqueItems == right.uniqueItems
    && left.multipleOf == right.multipleOf && left.pattern == right.pattern && left.format == right.format
    && left.required == right.required
  }

  /** The keywords that hold JSON values. */
  ghost predicate ValuesEqual(left: Keywords, right: Keywords) {
    && OptionsEqual(left.constant, right.constant) && OptionsEqual(left.defaultValue, right.defaultValue)
    && PyEqual(left.rest, right.rest)
    && (left.enumeration.Some? <==> right.enumeration.Some?)
    && (left.enumeration.Some? ==> PyEqual(Array(left.enumeration.value), Array(right.enumeration.value)))
    && left.bounds.Keys == right.bounds.Keys
    && (forall bound <- left.bounds :: BoundsEqual(left.bounds[bound], right.bounds[bound]))
  }

  /** Two schemas as their dictionaries compare in Python. */
  ghost predicate SchemasEqual(left: Schema, right: Schema)
    decreases left
  {
    match left
    case Link(_) => right == left
    case Here(Flag(_)) => right == left
    case Here(Inline(k)) =>
      && right.Here? && right.value.Inline?
      && var m := right.value.keywords;
         && LabelsEqual(k, m) && ValuesEqual(k, m)
         && k.properties.Keys == m.properties.Keys
         && (forall name <- k.properties :: SchemasEqual(k.properties[name], m.properties[name]))
         && (if k.additional.Typed? then m.additional.Typed? && SchemasEqual(k.additional.schema, m.additional.schema)
             else m.additional == k.additional)
         && (if k.items.Some? then m.items.Some? && SchemasEqual(k.items.value, m.items.value) else m.items.None?)
         && k.composition.Keys == m.composition.Keys
         && (forall keyword <- k.composition ::
               var l, r := k.composition[keyword].members, m.composition[keyword].members;
               |l| == |r| && forall i :: 0 <= i < |l| ==> SchemasEqual(l[i], r[i]))
  }

  function Canonical(k: Keywords): Keywords {
    CanonicalSchema(Here(Inline(k))).value.keywords
  }

  lemma CanonicalValues(k: Keywords)
    ensures var r := Canonical(k);
            && r.constant == CanonicalOption(k.constant) && r.defaultValue == CanonicalOption(k.defaultValue)
            && r.rest == CanonicalValue(k.rest)
            && (r.enumeration.Some? <==> k.enumeration.Some?)
            && (k.enumeration.Some? ==> Array(r.enumeration.value) == CanonicalValue(Array(k.enumeration.value)))
            && r.bounds.Keys == k.bounds.Keys
            && (forall bound <- k.bounds :: r.bounds[bound] == CanonicalBound(k.bounds[bound]))
  {
    hide CanonicalBound;
  }

  lemma CanonicalParts(k: Keywords)
    ensures var r := Canonical(k);
            && LabelsEqual(r, k)
            && r.properties.Keys == k.properties.Keys
            && (forall name <- k.properties :: r.properties[name] == CanonicalSchema(k.properties[name]))
            && r.additional
                  == (if k.additional.Typed? then Typed(CanonicalSchema(k.additional.schema)) else k.additional)
            && r.items == (if k.items.Some? then Some(CanonicalSchema(k.items.value)) else None)
  {
    hide CanonicalBound, CanonicalValue, CanonicalOption;
  }

  lemma CanonicalComposition(k: Keywords)
    ensures var r := Canonical(k);
            && r.composition.Keys == k.composition.Keys
            && (forall keyword <- k.composition ::
                  var l, m := k.composition[keyword].members, r.composition[keyword].members;
                  |l| == |m| && forall i :: 0 <= i < |l| ==> m[i] == CanonicalSchema(l[i]))
  {
    hide CanonicalBound, CanonicalValue, CanonicalOption;
  }

  lemma ValuesEqualMeans(left: Keywords, right: Keywords)
    ensures var l, r := Canonical(left), Canonical(right);
            && (ValuesEqual(left, right)
                <==> && l.constant == r.constant && l.defaultValue == r.defaultValue && l.rest == r.rest
                     && l.enumeration == r.enumeration && l.bounds == r.bounds)
  {
    var l, r := Canonical(left), Canonical(right);
    CanonicalValues(left);
    CanonicalValues(right);
    OptionsEqualMeans(left.constant, right.constant);
    OptionsEqualMeans(left.defaultValue, right.defaultValue);
    SameValueIsPyEqual(left.rest, right.rest);
    if left.enumeration.Some? && right.enumeration.Some? {
      SameValueIsPyEqual(Array(left.enumeration.value), Array(right.enumeration.value));
    }
    hide PyEqual, OptionsEqual, BoundsEqual, Canonical, CanonicalValue, CanonicalBound, CanonicalOption;
    if left.bounds.Keys == right.bounds.Keys {
      forall bound | bound in left.bounds
        ensures l.bounds[bound] == r.bounds[bound] <==> BoundsEqual(left.bounds[bound], right.bounds[bound]) {
        BoundsEqualMeans(left.bounds[bound], right.bounds[bound]);
      }
    }
  }

  lemma {:induction false} PropertiesMean(k: Keywords, m: Keywords)
    ensures Canonical(k).properties == Canonical(m).properties
            <==> && k.properties.Keys == m.properties.Keys
                 && forall name <- k.properties :: SchemasEqual(k.properties[name], m.properties[name])
    decreases Here(Inline(k)), 0
  {
    CanonicalParts(k);
    CanonicalParts(m);
    hide CanonicalSchema, Canonical, SchemasEqual;
    var l, r := Canonical(k).properties, Canonical(m).properties;
    if k.properties.Keys == m.properties.Keys {
      forall name | name in k.properties
        ensures l[name] == r[name] <==> SchemasEqual(k.properties[name], m.properties[name]) {
        EqualityIsExact(k.properties[name], m.properties[name]);
      }
    }
  }

  lemma {:induction false} ExtrasAndItemsMean(k: Keywords, m: Keywords)
    ensures Canonical(k).additional == Canonical(m).additional
            <==> if k.additional.Typed?
                 then m.additional.Typed? && SchemasEqual(k.additional.schema, m.additional.schema)
                 else m.additional == k.additional
    ensures Canonical(k).items == Canonical(m).items
            <==> if k.items.Some? then m.items.Some? && SchemasEqual(k.items.value, m.items.value) else m.items.None?
    decreases Here(Inline(k)), 0
  {
    CanonicalParts(k);
    CanonicalParts(m);
    hide CanonicalSchema, Canonical, SchemasEqual;
    if k.additional.Typed? && m.additional.Typed? {
      EqualityIsExact(k.additional.schema, m.additional.schema);
    }
    if k.items.Some? && m.items.Some? {
      EqualityIsExact(k.items.value, m.items.value);
    }
  }

  lemma {:induction false} MembersMean(k: Keywords, m: Keywords, keyword: Composition)
    requires keyword in k.composition && keyword in m.composition
    ensures keyword in Canonical(k).composition && keyword in Canonical(m).composition
    ensures var l, r := k.composition[keyword].members, m.composition[keyword].members;
            Canonical(k).composition[keyword] == Canonical(m).composition[keyword]
            <==> |l| == |r| && forall i :: 0 <= i < |l| ==> SchemasEqual(l[i], r[i])
    decreases Here(Inline(k)), 0
  {
    CanonicalComposition(k);
    CanonicalComposition(m);
    hide CanonicalSchema, Canonical, SchemasEqual;
    var l, r := k.composition[keyword].members, m.composition[keyword].members;
    if |l| == |r| {
      var left, right := Canonical(k).composition[keyword].members, Canonical(m).composition[keyword].members;
      forall i | 0 <= i < |l| ensures left[i] == right[i] <==> SchemasEqual(l[i], r[i]) {
        EqualityIsExact(l[i], r[i]);
      }
      assert left == right <==> forall i :: 0 <= i < |l| ==> left[i] == right[i];
    }
  }

  lemma {:induction false} CompositionsMean(k: Keywords, m: Keywords)
    ensures Canonical(k).composition == Canonical(m).composition
            <==> && k.composition.Keys == m.composition.Keys
                 && (forall keyword <- k.composition ::
                       var l, r := k.composition[keyword].members, m.composition[keyword].members;
                       |l| == |r| && forall i :: 0 <= i < |l| ==> SchemasEqual(l[i], r[i]))
    decreases Here(Inline(k)), 1
  {
    CanonicalComposition(k);
    CanonicalComposition(m);
    hide CanonicalSchema, Canonical, SchemasEqual;
    if k.composition.Keys == m.composition.Keys {
      forall keyword | keyword in k.composition
        ensures Canonical(k).composition[keyword] == Canonical(m).composition[keyword]
                <==> var l, r := k.composition[keyword].members, m.composition[keyword].members;
                     |l| == |r| && forall i :: 0 <= i < |l| ==> SchemasEqual(l[i], r[i])
      {
        MembersMean(k, m, keyword);
      }
    }
  }

  /** Two members are paired as equal exactly when their dictionaries are. */
  lemma {:induction false} EqualityIsExact(left: Schema, right: Schema)
    ensures SameKey(EqualityKey, left, right) <==> SchemasEqual(left, right)
    decreases left, 2
  {
    if left.Here? && left.value.Inline? && right.Here? && right.value.Inline? {
      var k, m := left.value.keywords, right.value.keywords;
      assert CanonicalSchema(left) == CanonicalSchema(right) <==> Canonical(k) == Canonical(m);
      PropertiesMean(k, m);
      ExtrasAndItemsMean(k, m);
      CompositionsMean(k, m);
      ValuesEqualMeans(k, m);
      CanonicalParts(k);
      CanonicalParts(m);
      hide CanonicalSchema, Canonical, ValuesEqual;
    }
  }

  // ----- types -----

  /** One of the declared types has the value; null is also accepted where the object is nullable. */
  predicate TypeAllows(k: Keywords, value: Json) {
    match k.types
    case None => true
    case Some(One(kind)) => HasKind(value, kind) || (k.nullable && value.Null?)
    case Some(Many(kinds)) => (exists i :: 0 <= i < |kinds| && HasKind(value, kinds[i])) || (k.nullable && value.Null?)
  }

  predicate Names(k: Keywords, kind: Kind) {
    match k.types
    case None => false
    case Some(One(declared)) => kind == declared
    case Some(Many(kinds)) => kind in kinds
  }

  lemma TypesHoldIsExact(k: Keywords, value: Json)
    ensures TypesHold(SchemaTypes(k), value) <==> TypeAllows(k, value)
  {
    if k.types.Some? {
      var types := SchemaTypes(k).value;
      if TypeAllows(k, value) {
        if k.nullable && value.Null? {
          assert KindNull in types && HasKind(value, KindNull);
        } else if k.types.value.Many? {
          var kinds := k.types.value.kinds;
          var i :| 0 <= i < |kinds| && HasKind(value, kinds[i]);
          assert kinds[i] in types;
        } else {
          assert k.types.value.kind in types;
        }
      }
    }
  }

  lemma NamesAreTypes(k: Keywords, name: string)
    ensures Names(k, OtherKind(name)) <==> SchemaTypes(k).Some? && OtherKind(name) in SchemaTypes(k).value
  {
  }

  /**
    The narrow side's values do not all have a type of the wide side. A wide side with types is also
    reported against a narrow side without any, and against a type name it does not know.
   */
  ghost predicate TypesNarrow(narrow: Keywords, wide: Keywords) {
    wide.types.Some?
    && (|| narrow.types.None?
        || (exists value :: TypeAllows(narrow, value) && !TypeAllows(wide, value))
        || (exists name: string :: Names(narrow, OtherKind(name)) && !Names(wide, OtherKind(name))))
  }

  lemma IncludesMeans(narrow: Keywords, wide: Keywords)
    ensures Includes(SchemaTypes(wide), SchemaTypes(narrow))
         <==> !exists value :: TypeAllows(narrow, value) && !TypeAllows(wide, value)
  {
    hide SchemaTypes, TypesHold, TypeAllows;
    forall value
      ensures TypesHold(SchemaTypes(wide), value) <==> TypeAllows(wide, value)
      ensures TypesHold(SchemaTypes(narrow), value) <==> TypeAllows(narrow, value)
    {
      TypesHoldIsExact(wide, value);
      TypesHoldIsExact(narrow, value);
    }
  }

  lemma UnknownNameMeans(narrow: Keywords, wide: Keywords)
    requires narrow.types.Some? && wide.types.Some?
    ensures SchemaTypes(narrow).Some? && SchemaTypes(wide).Some?
    ensures (exists kind <- SchemaTypes(narrow).value :: kind.OtherKind? && kind !in SchemaTypes(wide).value)
         <==> exists name: string :: Names(narrow, OtherKind(name)) && !Names(wide, OtherKind(name))
  {
    var w, n := SchemaTypes(wide), SchemaTypes(narrow);
    forall name: string
      ensures Names(narrow, OtherKind(name)) <==> OtherKind(name) in n.value
      ensures Names(wide, OtherKind(name)) <==> OtherKind(name) in w.value
    {
      NamesAreTypes(narrow, name);
      NamesAreTypes(wide, name);
    }
    hide SchemaTypes, Names;
    if kind :| kind in n.value && kind.OtherKind? && kind !in w.value {
      assert Names(narrow, OtherKind(kind.name)) && !Names(wide, OtherKind(kind.name));
    }
  }

  lemma CoversMeans(narrow: Keywords, wide: Keywords)
    ensures !Covers(SchemaTypes(wide), SchemaTypes(narrow)) <==> TypesNarrow(narrow, wide)
  {
    if narrow.types.Some? && wide.types.Some? {
      CoversIsExact(SchemaTypes(wide), SchemaTypes(narrow));
      IncludesMeans(narrow, wide);
      UnknownNameMeans(narrow, wide);
      hide SchemaTypes, TypeAllows, Names, Covers, Includes;
    }
  }

  // ----- enums -----

  predicate IsRestricted(k: Keywords) {
    k.constant.Some? || k.enumeration.Some?
  }

  /** The object writes down the value; a `const` hides the `enum` beside it. */
  predicate Writes(k: Keywords, value: Json) {
    if k.constant.Some? then value == k.constant.value else k.enumeration.Some? && value in k.enumeration.value
  }

  /** A value written on the narrow side equals none that is written on the wide side. */
  ghost predicate ValuesNarrow(narrow: Keywords, wide: Keywords) {
    && IsRestricted(wide)
    && (|| !IsRestricted(narrow)
        || exists value :: Writes(narrow, value) && forall other :: Writes(wide, other) ==> !PyEqual(value, other))
  }

  lemma ListedMeans(value: Json, wide: Keywords)
    requires IsRestricted(wide)
    ensures Listed(value, EnumValues(wide).value) <==> exists other :: Writes(wide, other) && PyEqual(value, other)
  {
    var values := EnumValues(wide).value;
    assert forall other :: Writes(wide, other) <==> other in values;
    hide EnumValues, Writes, SameValue, PyEqual;
    if Listed(value, values) {
      var i :| 0 <= i < |values| && SameValue(value, values[i]);
      SameValueIsPyEqual(value, values[i]);
      assert Writes(wide, values[i]);
    }
    if other :| Writes(wide, other) && PyEqual(value, other) {
      var i :| 0 <= i < |values| && values[i] == other;
      SameValueIsPyEqual(value, other);
    }
  }

  lemma MissesMeans(narrow: Keywords, wide: Keywords)
    requires IsRestricted(narrow) && IsRestricted(wide)
    ensures MissesValues(EnumValues(narrow).value, EnumValues(wide).value) <==> ValuesNarrow(narrow, wide)
  {
    var source, target := EnumValues(narrow).value, EnumValues(wide).value;
    assert forall value :: Writes(narrow, value) <==> value in source;
    hide EnumValues, Writes, PyEqual, Listed;
    if MissesValues(source, target) {
      var i :| 0 <= i < |source| && !Listed(source[i], target);
      ListedMeans(source[i], wide);
      assert Writes(narrow, source[i]);
    }
    if value :| Writes(narrow, value) && forall other :: Writes(wide, other) ==> !PyEqual(value, other) {
      ListedMeans(value, wide);
      var i :| 0 <= i < |source| && source[i] == value;
      assert !Listed(source[i], target);
    }
  }

  // ----- bounds -----

  /** The numbers a bound allows, whether they are values, lengths or counts. */
  predicate Allows(bound: Bound, limit: Option<BoundValue>, n: real) {
    limit.Some? && limit.value.Limit? ==>
      match bound
      case Minimum => limit.value.limit <= n
      case MinLength => limit.value.limit <= n
      case MinItems => limit.value.limit <= n
      case MinProperties => limit.value.limit <= n
      case ExclusiveMinimum => limit.value.limit < n
      case Maximum => n <= limit.value.limit
      case MaxLength => n <= limit.value.limit
      case MaxItems => n <= limit.value.limit
      case MaxProperties => n <= limit.value.limit
      case ExclusiveMaximum => n < limit.value.limit
  }

  /** The wide limit excludes a number that the narrow limit allows. */
  ghost predicate BoundNarrows(bound: Bound, narrow: Option<BoundValue>, wide: Option<BoundValue>) {
    exists n: real :: Allows(bound, narrow, n) && !Allows(bound, wide, n)
  }

  lemma BoundIsStricterMeans(bound: Bound, base: Option<BoundValue>, current: Option<BoundValue>)
    ensures BoundIsStricter(base, current, IsUpper(bound)) <==> BoundNarrows(bound, base, current)
  {
    if BoundIsStricter(base, current, IsUpper(bound)) {
      var c := current.value.limit;
      var between := if base.None? || base.value.Switch? then if IsUpper(bound) then c + 1.0 else c - 1.0
                     else (base.value.limit + c) / 2.0;
      assert Allows(bound, base, between) && !Allows(bound, current, between);
    }
  }

  /** Some bound of the wide side excludes a number that the same bound of the narrow side allows. */
  ghost predicate BoundsNarrow(narrow: Keywords, wide: Keywords) {
    exists bound: Bound :: BoundNarrows(bound, Get(narrow.bounds, bound), Get(wide.bounds, bound))
  }

  predicate Unique(k: Keywords, elements: seq<Json>) {
    k.uniqueItems ==> AllDistinct(elements)
  }

  /** Some array with a repeated element is allowed on the narrow side only. */
  ghost predicate UniquenessNarrows(narrow: Keywords, wide: Keywords) {
    exists elements :: Unique(narrow, elements) && !Unique(wide, elements)
  }

  lemma UniquenessMeans(narrow: Keywords, wide: Keywords)
    ensures wide.uniqueItems && !narrow.uniqueItems <==> UniquenessNarrows(narrow, wide)
  {
    assert [Null, Null][0] == [Null, Null][1];
    if wide.uniqueItems && !narrow.uniqueItems {
      assert Unique(narrow, [Null, Null]) && !Unique(wide, [Null, Null]);
    }
  }

  /** The wide side has a `multipleOf` that the narrow side does not share. */
  predicate MultipleNarrows(narrow: Keywords, wide: Keywords) {
    wide.multipleOf.Some? && narrow.multipleOf != wide.multipleOf
  }

  ghost predicate ConstraintsNarrow(narrow: Keywords, wide: Keywords) {
    BoundsNarrow(narrow, wide) || UniquenessNarrows(narrow, wide) || MultipleNarrows(narrow, wide)
  }

  lemma AnyBoundMeans(direction: Direction, b: Keywords, c: Keywords)
    ensures AnyBoundBreaks(direction, b, c, |BOUNDS|)
         <==> BoundsNarrow(Narrow(direction, b, c), Wide(direction, b, c))
  {
    var narrow, wide := Narrow(direction, b, c), Wide(direction, b, c);
    hide BoundNarrows;
    forall bound: Bound
      ensures BoundBreaks(direction, b, c, bound)
              <==> BoundNarrows(bound, Get(narrow.bounds, bound), Get(wide.bounds, bound))
    {
      BoundIsStricterMeans(bound, Get(narrow.bounds, bound), Get(wide.bounds, bound));
    }
    hide BoundBreaks, BoundIsStricter, IsUpper;
    if bound: Bound :| BoundNarrows(bound, Get(narrow.bounds, bound), Get(wide.bounds, bound)) {
      BoundsListed(bound);
      var i :| 0 <= i < |BOUNDS| && BOUNDS[i] == bound;
      assert BoundBreaks(direction, b, c, BOUNDS[i]);
    }
  }

  // ----- objects -----

  /** Some set of fields has all that `before` asks for and lacks that one name of what `after` asks for. */
  ghost predicate AsksFor(before: set<string>, after: set<string>, name: string) {
    exists fields: set<string> :: before <= fields && !(after <= fields) && after <= fields + {name}
  }

  lemma AsksForMeans(before: set<string>, after: set<string>, name: string)
    ensures AsksFor(before, after, name) <==> name in after - before
  {
    if name in after - before {
      var fields := (before + after) - {name};
      assert before <= fields && !(after <= fields) && after <= fields + {name};
    }
  }

  /**
    A request requires a name more exactly when a client that sends all that was required, and lacks
    that name only, is now refused. A response loses a required name exactly when a server that sends
    all that is still required may leave it out, and it is still declared.
   */
  lemma RequiredNamesAreExact(direction: Direction, b: Keywords, c: Keywords, name: string)
    ensures name in RequiredNames(direction, b, c)
         <==> && AsksFor(Narrow(direction, b, c).required, Wide(direction, b, c).required, name)
              && (direction.Request? || name in c.properties)
  {
    AsksForMeans(b.required, c.required, name);
    AsksForMeans(c.required, b.required, name);
    hide AsksFor;
  }

  lemma NothingMissing(before: set<string>, after: set<string>)
    ensures (forall fields: set<string> :: before <= fields ==> after <= fields) <==> after <= before
  {
    if forall fields: set<string> :: before <= fields ==> after <= fields {
      assert after <= before;
    }
  }

  /**
    No name is reported exactly when every set of fields that was enough still is; for a response,
    when every set that is enough now was, as far as the names are still declared.
   */
  lemma NoRequiredNames(b: Keywords, c: Keywords)
    ensures RequiredNames(Request, b, c) == {}
            <==> (forall fields: set<string> :: b.required <= fields ==> c.required <= fields)
    ensures RequiredNames(Response, b, c) == {}
            <==> (forall fields: set<string> :: c.required <= fields ==> b.required * c.properties.Keys <= fields)
  {
    NothingMissing(b.required, c.required);
    NothingMissing(c.required, b.required * c.properties.Keys);
    var needed := RequiredNames(Request, b, c);
    assert forall name :: name in needed <==> name in c.required && name !in b.required;
    var lost := RequiredNames(Response, b, c);
    assert forall name :: name in lost <==> name in b.required * c.properties.Keys && name !in c.required;
  }

  /** An object may have a property that is not declared, whatever its value is worth. */
  ghost predicate AcceptsExtra(k: Keywords) {
    exists name, value, ok: Verdict :: UndeclaredHolds(Strict(NoNames), k, name, value, ok)
  }

  lemma ClosedMeans(k: Keywords)
    ensures k.additional.Closed? <==> !AcceptsExtra(k)
  {
    if !k.additional.Closed? {
      assert UndeclaredHolds(Strict(NoNames), k, "", Null, (schema, value) => true);
    }
  }

  // ----- compositions -----

  /** References to one target, or inline schema objects that declare the same types, in whatever order. */
  predicate AreAlike(left: Schema, right: Schema) {
    || (left.Link? && left == right)
    || (&& left.Here? && left.value.Inline? && right.Here? && right.value.Inline?
        && var l, r := left.value.keywords.types, right.value.keywords.types;
           l.Some? && r.Some?
           && (l == r || (l.value.Many? && r.value.Many? && multiset(l.value.kinds) == multiset(r.value.kinds))))
  }

  lemma IdentityIsExact(left: Schema, right: Schema)
    ensures SameKey(CompositionIdentity, left, right) <==> AreAlike(left, right)
  {
  }

  /** The members that found no partner: those beyond the equal ones, and of these beyond the ones alike. */
  function Unpaired(members: seq<Schema>, others: seq<Schema>): seq<Schema> {
    Beyond(Beyond(members, others, EqualityKey), Beyond(others, members, EqualityKey), CompositionIdentity)
  }

  /**
    One side lacks the composition, or an alternative of the narrow side, or a part of the wide side,
    has no partner.
   */
  predicate CompositionNarrows(direction: Direction, b: Keywords, c: Keywords, keyword: Composition) {
    if keyword in b.composition && keyword in c.composition then
      var narrow := Narrow(direction, b, c).composition[keyword].members;
      var wide := Wide(direction, b, c).composition[keyword].members;
      if keyword.AllOf? then Unpaired(wide, narrow) != [] else Unpaired(narrow, wide) != []
    else keyword in b.composition || keyword in c.composition
  }

  lemma CompositionMeans(direction: Direction, b: Keywords, c: Keywords, keyword: Composition)
    ensures CompositionBreaksFor(direction, b, c, keyword) <==> CompositionNarrows(direction, b, c, keyword)
  {
    hide MatchMembers, Unpaired;
    if keyword in b.composition && keyword in c.composition {
      LeftoversMean(b, c, keyword);
    }
  }

  lemma LeftoversMean(b: Keywords, c: Keywords, keyword: Composition)
    requires keyword in b.composition && keyword in c.composition
    ensures var members, others := b.composition[keyword].members, c.composition[keyword].members;
            && MatchMembers(b, c, keyword).removed == Unpaired(members, others)
            && MatchMembers(b, c, keyword).added == Unpaired(others, members)
  {
    hide Match, Beyond, MatchingOrder.InOrder, Chosen, CanonicalSchema;
    MatchMeans(b.composition[keyword].members, c.composition[keyword].members, EqualityKey, CompositionIdentity);
  }

  // ----- all rules -----

  predicate TextNarrows(narrow: Option<string>, wide: Option<string>) {
    wide.Some? && narrow != wide
  }

  /** The request default is gone or reads differently; a default that is absent reads as null. */
  predicate DefaultDiffers(b: Keywords, c: Keywords) {
    && b.defaultValue.Some?
    && !PyEqual(b.defaultValue.value, if c.defaultValue.Some? then c.defaultValue.value else Null)
  }

  /** What must hold of the two objects for a rule to be reported, at the object itself or at one property. */
  ghost predicate Warranted(direction: Direction, b: Keywords, c: Keywords, rule: Rule, steps: Pointer) {
    var narrow, wide := Narrow(direction, b, c), Wide(direction, b, c);
    match rule
    case PropertyRemoved =>
      exists name :: steps == [Property(name)] && name in b.properties && name !in c.properties
    case RequiredAdded =>
      direction.Request? && exists name :: steps == [Property(name)] && AsksFor(b.required, c.required, name)
    case RequiredRemoved =>
      direction.Response? && exists name :: steps == [Property(name)] && AsksFor(c.required, b.required, name)
                                            && name in c.properties
    case _ =>
      && steps == []
      && match rule
         case TypeChanged => TypesNarrow(narrow, wide)
         case EnumNarrowed => direction.Request? && ValuesNarrow(narrow, wide)
         case EnumWidened => direction.Response? && ValuesNarrow(narrow, wide)
         case ConstraintNarrowed => direction.Request? && ConstraintsNarrow(narrow, wide)
         case ConstraintWidened => direction.Response? && ConstraintsNarrow(narrow, wide)
         case PatternChanged => TextNarrows(narrow.pattern, wide.pattern)
         case FormatChanged => TextNarrows(narrow.format, wide.format)
         case DefaultChanged => direction.Request? && DefaultDiffers(b, c)
         case AdditionalPropertiesClosed => direction.Request? && AcceptsExtra(b) && !AcceptsExtra(c)
         case CompositionChanged => exists keyword: Composition :: CompositionNarrows(direction, b, c, keyword)
         case _ => false
  }

  lemma ScalarBreaksAreExact(direction: Direction, b: Keywords, c: Keywords, pointer: Pointer, rule: Rule)
    ensures rule.TypeChanged? ==>
              (Break(rule, pointer) in TypeBreaks(direction, b, c, pointer) <==> Warranted(direction, b, c, rule, []))
    ensures rule.PatternChanged? || rule.FormatChanged? ==>
              (Break(rule, pointer) in StringBreaks(direction, b, c, pointer) <==> Warranted(direction, b, c, rule, []))
    ensures rule.DefaultChanged? ==>
              (Break(rule, pointer) in DefaultBreaks(direction, b, c, pointer)
               <==> Warranted(direction, b, c, rule, []))
  {
    CoversMeans(Narrow(direction, b, c), Wide(direction, b, c));
    SameValueIsPyEqual(DefaultOf(b), DefaultOf(c));
    hide Covers, TypesNarrow, SameValue, PyEqual;
  }

  lemma EnumBreaksAreExact(direction: Direction, b: Keywords, c: Keywords, pointer: Pointer, rule: Rule)
    requires rule.EnumNarrowed? || rule.EnumWidened?
    ensures Break(rule, pointer) in EnumBreaks(direction, b, c, pointer) <==> Warranted(direction, b, c, rule, [])
  {
    var narrow, wide := Narrow(direction, b, c), Wide(direction, b, c);
    if IsRestricted(narrow) && IsRestricted(wide) {
      MissesMeans(narrow, wide);
    }
    hide MissesValues, Writes, PyEqual;
  }

  lemma ConstraintBreaksAreExact(direction: Direction, b: Keywords, c: Keywords, pointer: Pointer, rule: Rule)
    requires rule.ConstraintNarrowed? || rule.ConstraintWidened?
    ensures Break(rule, pointer) in ConstraintBreaks(direction, b, c, pointer)
         <==> Warranted(direction, b, c, rule, [])
  {
    AnyBoundMeans(direction, b, c);
    UniquenessMeans(Narrow(direction, b, c), Wide(direction, b, c));
    hide AnyBoundBreaks, BoundsNarrow, UniquenessNarrows;
  }

  lemma CompositionBreaksAreExact(direction: Direction, b: Keywords, c: Keywords, pointer: Pointer)
    ensures Break(CompositionChanged, pointer) in CompositionBreaks(direction, b, c, pointer)
         <==> Warranted(direction, b, c, CompositionChanged, [])
  {
    hide CompositionBreaksFor, CompositionNarrows;
    forall keyword: Composition
      ensures CompositionBreaksFor(direction, b, c, keyword) <==> CompositionNarrows(direction, b, c, keyword)
    {
      CompositionMeans(direction, b, c, keyword);
    }
    if keyword: Composition :| CompositionNarrows(direction, b, c, keyword) {
      assert keyword == OneOf || keyword == AnyOf || keyword == AllOf;
    }
  }

  lemma NamedBreaksAre(rule: Rule, names: set<string>, pointer: Pointer, report: Break)
    ensures report in NamedBreaks(rule, names, pointer)
         <==> report.rule == rule && exists name <- names :: report.pointer == pointer + [Property(name)]
  {
  }

  /** Which checks can report a rule. */
  function BreaksOfRule(direction: Direction, b: Keywords, c: Keywords, pointer: Pointer, rule: Rule): set<Break> {
    match rule
    case TypeChanged => TypeBreaks(direction, b, c, pointer)
    case EnumNarrowed => EnumBreaks(direction, b, c, pointer)
    case EnumWidened => EnumBreaks(direction, b, c, pointer)
    case ConstraintNarrowed => ConstraintBreaks(direction, b, c, pointer)
    case ConstraintWidened => ConstraintBreaks(direction, b, c, pointer)
    case PatternChanged => StringBreaks(direction, b, c, pointer)
    case FormatChanged => StringBreaks(direction, b, c, pointer)
    case DefaultChanged => DefaultBreaks(direction, b, c, pointer)
    case CompositionChanged => CompositionBreaks(direction, b, c, pointer)
    case PropertyRemoved => ObjectBreaks(direction, b, c, pointer)
    case RequiredAdded => ObjectBreaks(direction, b, c, pointer)
    case RequiredRemoved => ObjectBreaks(direction, b, c, pointer)
    case AdditionalPropertiesClosed => ObjectBreaks(direction, b, c, pointer)
    case _ => {}
  }

  lemma ScalarBreaksByRule(direction: Direction, b: Keywords, c: Keywords, pointer: Pointer, report: Break)
    ensures report in ScalarBreaks(direction, b, c, pointer)
         <==> || report in TypeBreaks(direction, b, c, pointer) || report in EnumBreaks(direction, b, c, pointer)
              || report in ConstraintBreaks(direction, b, c, pointer)
                 || report in StringBreaks(direction, b, c, pointer)
              || report in DefaultBreaks(direction, b, c, pointer)
  {
    hide TypeBreaks, EnumBreaks, ConstraintBreaks, StringBreaks, DefaultBreaks;
  }

  /** The rules each check reports, all but those of properties at the object itself. */
  lemma RulesOfChecks(direction: Direction, b: Keywords, c: Keywords, pointer: Pointer, report: Break)
    ensures report in TypeBreaks(direction, b, c, pointer) ==> report == Break(TypeChanged, pointer)
    ensures report in EnumBreaks(direction, b, c, pointer) ==>
              report == Break(EnumNarrowed, pointer) || report == Break(EnumWidened, pointer)
    ensures report in ConstraintBreaks(direction, b, c, pointer) ==>
              report == Break(ConstraintNarrowed, pointer) || report == Break(ConstraintWidened, pointer)
    ensures report in StringBreaks(direction, b, c, pointer) ==>
              report == Break(PatternChanged, pointer) || report == Break(FormatChanged, pointer)
    ensures report in DefaultBreaks(direction, b, c, pointer) ==> report == Break(DefaultChanged, pointer)
    ensures report in CompositionBreaks(direction, b, c, pointer) ==> report == Break(CompositionChanged, pointer)
    ensures report in ObjectBreaks(direction, b, c, pointer) ==>
              || report.rule.PropertyRemoved? || report.rule.RequiredAdded? || report.rule.RequiredRemoved?
              || report == Break(AdditionalPropertiesClosed, pointer)
  {
    hide Covers, MissesValues, EnumValues, SchemaTypes, AnyBoundBreaks, UniquenessBreaks, MultipleBreaks, TextBreaks;
    hide SameValue, CompositionBreaksFor, RemovedProperties, RequiredNames;
  }

  lemma BreaksByRule(direction: Direction, b: Keywords, c: Keywords, pointer: Pointer, report: Break)
    ensures report in LocalBreaks(direction, b, c, pointer)
         <==> report in BreaksOfRule(direction, b, c, pointer, report.rule)
  {
    ScalarBreaksByRule(direction, b, c, pointer, report);
    RulesOfChecks(direction, b, c, pointer, report);
    hide ScalarBreaks, ObjectBreaks, CompositionBreaks, TypeBreaks, EnumBreaks, ConstraintBreaks, StringBreaks;
    hide DefaultBreaks;
  }

  lemma ObjectBreaksAreExact(direction: Direction, b: Keywords, c: Keywords, pointer: Pointer, steps: Pointer,
                             rule: Rule)
    requires || rule.PropertyRemoved? || rule.RequiredAdded? || rule.RequiredRemoved?
             || rule.AdditionalPropertiesClosed?
    ensures Break(rule, pointer + steps) in ObjectBreaks(direction, b, c, pointer)
         <==> Warranted(direction, b, c, rule, steps)
  {
    var report := Break(rule, pointer + steps);
    var names := RequiredNames(direction, b, c);
    NamedBreaksAre(PropertyRemoved, RemovedProperties(b, c), pointer, report);
    NamedBreaksAre(RequiredRule(direction), names, pointer, report);
    forall name ensures pointer + steps == pointer + [Property(name)] <==> steps == [Property(name)] {
      SameSuffix(pointer, steps, [Property(name)]);
    }
    assert pointer + steps == pointer <==> steps == [];
    hide NamedBreaks, AcceptsExtra, AsksFor;
    if rule.RequiredAdded? || rule.RequiredRemoved? {
      forall name ensures name in names
        <==> && AsksFor(Narrow(direction, b, c).required, Wide(direction, b, c).required, name)
             && (direction.Request? || name in c.properties)
      {
        RequiredNamesAreExact(direction, b, c, name);
      }
      hide RequiredNames;
    } else {
      ClosedMeans(b);
      ClosedMeans(c);
      hide RequiredNames;
    }
  }

  lemma SameSuffix(pointer: Pointer, left: Pointer, right: Pointer)
    ensures pointer + left == pointer + right <==> left == right
  {
    assert (pointer + left)[|pointer|..] == left && (pointer + right)[|pointer|..] == right;
  }

  /**
    A pair of schema objects reports a rule at a place exactly when the two objects warrant it there:
    no rule goes unreported and none is reported without cause.
   */
  lemma LocalBreaksAreExact(direction: Direction, b: Keywords, c: Keywords, pointer: Pointer, rule: Rule,
                            steps: Pointer)
    ensures Break(rule, pointer + steps) in LocalBreaks(direction, b, c, pointer)
         <==> Warranted(direction, b, c, rule, steps)
  {
    var report := Break(rule, pointer + steps);
    BreaksByRule(direction, b, c, pointer, report);
    RulesOfChecks(direction, b, c, pointer, report);
    SameSuffix(pointer, steps, []);
    assert pointer + [] == pointer;
    hide TypeBreaks, EnumBreaks, ConstraintBreaks, StringBreaks, DefaultBreaks, CompositionBreaks, ObjectBreaks;
    hide TypesNarrow, ValuesNarrow, ConstraintsNarrow, TextNarrows, DefaultDiffers, AsksFor, CompositionNarrows;
    hide LocalBreaks, AcceptsExtra;
    ScalarBreaksAreExact(direction, b, c, pointer, rule);
    if rule.EnumNarrowed? || rule.EnumWidened? {
      EnumBreaksAreExact(direction, b, c, pointer, rule);
    } else if rule.ConstraintNarrowed? || rule.ConstraintWidened? {
      ConstraintBreaksAreExact(direction, b, c, pointer, rule);
    } else if rule.CompositionChanged? {
      CompositionBreaksAreExact(direction, b, c, pointer);
    } else if rule.PropertyRemoved? || rule.RequiredAdded? || rule.RequiredRemoved?
              || rule.AdditionalPropertiesClosed? {
      ObjectBreaksAreExact(direction, b, c, pointer, steps, rule);
    }
  }

  /** Nothing is reported outside the object that is compared. */
  lemma LocalBreaksAreLocal(direction: Direction, b: Keywords, c: Keywords, pointer: Pointer, report: Break)
    requires report in LocalBreaks(direction, b, c, pointer)
    ensures pointer <= report.pointer
  {
    BreaksByRule(direction, b, c, pointer, report);
    RulesOfChecks(direction, b, c, pointer, report);
    hide TypeBreaks, EnumBreaks, ConstraintBreaks, StringBreaks, DefaultBreaks, CompositionBreaks, LocalBreaks;
    hide RemovedProperties, RequiredNames;
  }
}
