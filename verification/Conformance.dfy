/**
  What a schema says about a JSON value, independently of how schemas are compared.

  Recursive references make conformance recursive, so it is indexed by a number of steps: with no
  steps left every schema gives the same answer, `floor`. `floor` true for every number of steps is
  the greatest reading, `floor` false for some number of steps the least one.
 */
module Conformance {
  import opened Wrappers
  import opened Resolution
  import opened Schemas
  import opened SchemaRules

  /**
    The parts of the meaning that are left open: the answer at zero steps, pattern matching, formats,
    and whether `oneOf` means exactly one member or at least one.
   */
  datatype Meaning = Meaning(
    floor: bool,
    matches: (string, string) -> bool,
    hasFormat: (string, Json) -> bool,
    exclusive: bool
  )

  /**
    How properties a schema object does not declare are read. A strict reading follows
    `additionalProperties`, and the value has none of the names `forbidden` there. A tolerant
    reading accepts them although the object is closed, and does not look at those `ignored` there.
   */
  datatype Reading =
    | Strict(forbidden: Keywords -> set<string>)
    | Tolerant(ignored: Keywords -> set<string>)

  type Verdict = (Schema, Json) -> bool

  predicate HasKind(value: Json, kind: Kind) {
    match kind
    case KindNull => value.Null?
    case KindBoolean => value.Bool?
    case KindInteger => value.Number? && value.n == value.n.Floor as real
    case KindNumber => value.Number?
    case KindString => value.Text?
    case KindArray => value.Array?
    case KindObject => value.Object?
    case OtherKind(_) => false
  }

  ghost predicate TypesHold(types: Option<set<Kind>>, value: Json) {
    types.None? || exists kind <- types.value :: HasKind(value, kind)
  }

  ghost predicate EnumHolds(k: Keywords, value: Json) {
    && (k.constant.Some? ==> value == k.constant.value)
    && (k.enumeration.Some? ==> value in k.enumeration.value)
  }

  predicate BoundHolds(bound: Bound, limit: real, value: Json) {
    match bound
    case Minimum => value.Number? ==> value.n >= limit
    case ExclusiveMinimum => value.Number? ==> value.n > limit
    case MinLength => value.Text? ==> |value.s| as real >= limit
    case MinItems => value.Array? ==> |value.elements| as real >= limit
    case MinProperties => value.Object? ==> |value.fields| as real >= limit
    case Maximum => value.Number? ==> value.n <= limit
    case ExclusiveMaximum => value.Number? ==> value.n < limit
    case MaxLength => value.Text? ==> |value.s| as real <= limit
    case MaxItems => value.Array? ==> |value.elements| as real <= limit
    case MaxProperties => value.Object? ==> |value.fields| as real <= limit
  }

  /** A bound that is not a number restricts nothing. */
  predicate LimitHolds(bound: Bound, limit: Option<BoundValue>, value: Json) {
    limit.Some? && limit.value.Limit? ==> BoundHolds(bound, limit.value.limit, value)
  }

  ghost predicate BoundsHold(k: Keywords, value: Json) {
    forall bound :: LimitHolds(bound, Get(k.bounds, bound), value)
  }

  predicate AllDistinct(values: seq<Json>) {
    forall i, j :: 0 <= i < j < |values| ==> values[i] != values[j]
  }

  function Times(q: int, step: real): real {
    q as real * step
  }

  ghost predicate IsMultiple(n: real, step: real) {
    exists q: int :: n == Times(q, step)
  }

  ghost predicate ScalarsHold(m: Meaning, k: Keywords, value: Json) {
    && TypesHold(SchemaTypes(k), value)
    && EnumHolds(k, value)
    && BoundsHold(k, value)
    && (k.uniqueItems && value.Array? ==> AllDistinct(value.elements))
    && (k.multipleOf.Some? && value.Number? ==> IsMultiple(value.n, k.multipleOf.value))
    && (k.pattern.Some? && value.Text? ==> m.matches(k.pattern.value, value.s))
    && (k.format.Some? ==> m.hasFormat(k.format.value, value))
  }

  ghost predicate UndeclaredHolds(reading: Reading, k: Keywords, name: string, value: Json, ok: Verdict) {
    match reading
    case Strict(forbidden) =>
      !k.additional.Closed? && name !in forbidden(k) && (k.additional.Typed? ==> ok(k.additional.schema, value))
    case Tolerant(ignored) =>
      k.additional.Typed? && name !in ignored(k) ==> ok(k.additional.schema, value)
  }

  ghost predicate FieldHolds(reading: Reading, k: Keywords, name: string, value: Json, ok: Verdict) {
    if name in k.properties then ok(k.properties[name], value) else UndeclaredHolds(reading, k, name, value, ok)
  }

  ghost predicate FieldsHold(reading: Reading, k: Keywords, value: Json, ok: Verdict) {
    value.Object? ==>
      && k.required <= value.fields.Keys
      && forall name <- value.fields :: FieldHolds(reading, k, name, value.fields[name], ok)
  }

  ghost predicate ElementsHold(k: Keywords, value: Json, ok: Verdict) {
    k.items.Some? && value.Array? ==> forall element <- value.elements :: ok(k.items.value, element)
  }

  ghost predicate SomeMemberHolds(members: seq<Schema>, value: Json, ok: Verdict) {
    exists member <- members :: ok(member, value)
  }

  ghost predicate OneMemberHolds(members: seq<Schema>, value: Json, ok: Verdict) {
    exists i :: 0 <= i < |members| && ok(members[i], value)
                && forall j :: 0 <= j < |members| && j != i ==> !ok(members[j], value)
  }

  ghost predicate CompositionHolds(m: Meaning, k: Keywords, keyword: Composition, value: Json, ok: Verdict) {
    keyword in k.composition ==>
      var members := k.composition[keyword].members;
      match keyword
      case AllOf => forall member <- members :: ok(member, value)
      case AnyOf => SomeMemberHolds(members, value, ok)
      case OneOf => if m.exclusive then OneMemberHolds(members, value, ok) else SomeMemberHolds(members, value, ok)
  }

  ghost predicate Satisfies(m: Meaning, reading: Reading, k: Keywords, value: Json, ok: Verdict) {
    && ScalarsHold(m, k, value)
    && FieldsHold(reading, k, value, ok)
    && ElementsHold(k, value, ok)
    && forall keyword :: CompositionHolds(m, k, keyword, value, ok)
  }

  /** The value conforms to the schema as far as `steps` steps can tell. */
  ghost predicate Conforms(m: Meaning, components: Components<Body>, reading: Reading, steps: nat, schema: Schema,
                           value: Json)
    decreases steps, 0
  {
    if steps == 0 then m.floor
    else
      match Resolve(components, schema)
      case Failure(_) => false
      case Success(body) =>
        if body.Flag? then body.accepts
        else Satisfies(m, reading, body.keywords, value, VerdictAfter(m, components, reading, steps - 1))
  }

  ghost function VerdictAfter(m: Meaning, components: Components<Body>, reading: Reading, steps: nat): Verdict
    decreases steps, 1
  {
    (schema, value) => Conforms(m, components, reading, steps, schema, value)
  }

  function NoNames(k: Keywords): set<string> {
    {}
  }
}
