/**
  JSON values and the schema objects the compatibility checker reads.

  A schema object is a record of the keywords the checker looks at. `rest` stands for everything
  else its dictionary holds (other keywords, and how the typed ones were spelled); it only takes
  part in equality. Numbers are exact.
 */
module Schemas {
  import opened Wrappers
  import opened Resolution

  datatype Json =
    | Null
    | Bool(b: bool)
    | Number(n: real)
    | Text(s: string)
    | Array(elements: seq<Json>)
    | Object(fields: map<string, Json>)

  datatype Kind =
    | KindNull | KindBoolean | KindInteger | KindNumber | KindString | KindArray | KindObject
    | OtherKind(name: string)

  datatype TypeDeclaration = One(kind: Kind) | Many(kinds: seq<Kind>)

  datatype Bound =
    | Minimum | ExclusiveMinimum | MinLength | MinItems | MinProperties
    | Maximum | ExclusiveMaximum | MaxLength | MaxItems | MaxProperties

  /** The bounds of the checker's UPPER_BOUNDS; the other five are its LOWER_BOUNDS. */
  predicate IsUpper(bound: Bound) {
    bound.Maximum? || bound.ExclusiveMaximum? || bound.MaxLength? || bound.MaxItems? || bound.MaxProperties?
  }

  datatype BoundValue = Limit(limit: real) | Switch(on: bool)

  datatype Composition = OneOf | AnyOf | AllOf

  /** A boolean schema (or no schema at all, which is `Flag(true)`), or a schema object. */
  datatype Body = Flag(accepts: bool) | Inline(keywords: Keywords)

  type Schema = Node<Body>

  datatype Additional = Absent | Allowed | Closed | Typed(schema: Schema)

  datatype MemberList = MemberList(members: seq<Schema>)

  datatype Keywords = Keywords(
    types: Option<TypeDeclaration>,
    nullable: bool,
    constant: Option<Json>,
    enumeration: Option<seq<Json>>,
    bounds: map<Bound, BoundValue>,
    uniqueItems: bool,
    multipleOf: Option<real>,
    pattern: Option<string>,
    format: Option<string>,
    defaultValue: Option<Json>,
    properties: map<string, Schema>,
    required: set<string>,
    additional: Additional,
    items: Option<Schema>,
    composition: map<Composition, MemberList>,
    rest: Json
  )

  /** A schema object without any keyword. */
  const EMPTY: Keywords :=
      Keywords(None, false, None, None, map[], false, None, None, None, None, map[], {}, Absent, None, map[], Null)

  function Get<K, V>(m: map<K, V>, key: K): Option<V> {
    if key in m then Some(m[key]) else None
  }

  // ----- equality as Python defines it -----

  /** Python takes `True == 1` and `False == 0`, so equality is equality up to this rewriting. */
  function CanonicalValue(value: Json): Json {
    match value
    case Bool(b) => Number(if b then 1.0 else 0.0)
    case Array(elements) => Array(seq(|elements|, i requires 0 <= i < |elements| => CanonicalValue(elements[i])))
    case Object(fields) => Object(map name | name in fields :: CanonicalValue(fields[name]))
    case _ => value
  }

  predicate SameValue(left: Json, right: Json) {
    CanonicalValue(left) == CanonicalValue(right)
  }

  function CanonicalOption(value: Option<Json>): Option<Json> {
    match value
    case None => None
    case Some(json) => Some(CanonicalValue(json))
  }

  function CanonicalBound(value: BoundValue): BoundValue {
    match value
    case Limit(_) => value
    case Switch(on) => Limit(if on then 1.0 else 0.0)
  }

  function CanonicalSchema(schema: Schema): Schema {
    match schema
    case Link(_) => schema
    case Here(Flag(_)) => schema
    case Here(Inline(k)) =>
      Here(Inline(k.(
        constant := CanonicalOption(k.constant),
        enumeration := match k.enumeration
                       case None => None
                       case Some(values) => Some(seq(|values|, i
                                                     requires 0 <= i < |values| => CanonicalValue(values[i]))),
        bounds := map bound | bound in k.bounds :: CanonicalBound(k.bounds[bound]),
        defaultValue := CanonicalOption(k.defaultValue),
        properties := map name | name in k.properties :: CanonicalSchema(k.properties[name]),
        additional := match k.additional
                      case Typed(extra) => Typed(CanonicalSchema(extra))
                      case other => other,
        items := match k.items
                 case None => None
                 case Some(element) => Some(CanonicalSchema(element)),
        composition := map c | c in k.composition ::
          var members := k.composition[c].members;
          MemberList(seq(|members|, i requires 0 <= i < |members| => CanonicalSchema(members[i]))),
        rest := CanonicalValue(k.rest)
      )))
  }
}
