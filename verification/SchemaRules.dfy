/**
  The checks on one pair of resolved schema objects: which breaks the pair itself reports, and
  which pairs of subschemas it hands on.
 */
module SchemaRules {
  import opened Wrappers
  import opened Resolution
  import opened Schemas
  import opened CompositionMatching
  import opened Reports

  // ----- types -----

  function SchemaTypes(k: Keywords): Option<set<Kind>> {
    match k.types
    case None => None
    case Some(declared) =>
      var kinds := match declared
                   case One(kind) => {kind}
                   case Many(list) => set kind | kind in list;
      Some(if k.nullable then kinds + {KindNull} else kinds)
  }

  predicate Covers(wider: Option<set<Kind>>, narrower: Option<set<Kind>>) {
    if wider.None? then true
    else if narrower.None? then false
    else forall kind <- narrower.value :: kind in wider.value || (kind == KindInteger && KindNumber in wider.value)
  }

  function TypeBreaks(direction: Direction, b: Keywords, c: Keywords, pointer: Pointer): set<Break> {
    var narrower := if direction.Request? then !Covers(SchemaTypes(c), SchemaTypes(b))
                    else !Covers(SchemaTypes(b), SchemaTypes(c));
    if narrower then {Break(TypeChanged, pointer)} else {}
  }

  // ----- enums -----

  function EnumValues(k: Keywords): Option<seq<Json>> {
    if k.constant.Some? then Some([k.constant.value]) else k.enumeration
  }

  predicate Listed(value: Json, values: seq<Json>) {
    exists i :: 0 <= i < |values| && SameValue(value, values[i])
  }

  /** Some value of `source` is not listed in `target`. */
  predicate MissesValues(source: seq<Json>, target: seq<Json>) {
    exists i :: 0 <= i < |source| && !Listed(source[i], target)
  }

  function EnumBreaks(direction: Direction, b: Keywords, c: Keywords, pointer: Pointer): set<Break> {
    var baseValues, currentValues := EnumValues(b), EnumValues(c);
    if direction.Request? then
      if currentValues.Some? && (baseValues.None? || MissesValues(baseValues.value, currentValues.value))
      then {Break(EnumNarrowed, pointer)} else {}
    else
      if baseValues.Some? && (currentValues.None? || MissesValues(currentValues.value, baseValues.value))
      then {Break(EnumWidened, pointer)} else {}
  }

  // ----- bounds -----

  predicate BoundIsStricter(base: Option<BoundValue>, current: Option<BoundValue>, upper: bool) {
    if current.None? || current.value.Switch? then false
    else if base.None? || base.value.Switch? then true
    else if upper then current.value.limit < base.value.limit
    else current.value.limit > base.value.limit
  }

  const BOUNDS := [Minimum, ExclusiveMinimum, MinLength, MinItems, MinProperties,
                   Maximum, ExclusiveMaximum, MaxLength, MaxItems, MaxProperties]

  /** The bound on one keyword excludes values that a conforming peer may exchange. */
  predicate BoundBreaks(direction: Direction, b: Keywords, c: Keywords, bound: Bound) {
    if direction.Request? then BoundIsStricter(Get(b.bounds, bound), Get(c.bounds, bound), IsUpper(bound))
    else BoundIsStricter(Get(c.bounds, bound), Get(b.bounds, bound), IsUpper(bound))
  }

  /** One of the first n bound keywords breaks. */
  predicate AnyBoundBreaks(direction: Direction, b: Keywords, c: Keywords, n: nat)
    requires n <= |BOUNDS|
  {
    exists i :: 0 <= i < n && BoundBreaks(direction, b, c, BOUNDS[i])
  }

  function ConstraintRule(direction: Direction): Rule {
    if direction.Request? then ConstraintNarrowed else ConstraintWidened
  }

  predicate UniquenessBreaks(direction: Direction, b: Keywords, c: Keywords) {
    if direction.Request? then c.uniqueItems && !b.uniqueItems else b.uniqueItems && !c.uniqueItems
  }

  predicate MultipleBreaks(direction: Direction, b: Keywords, c: Keywords) {
    b.multipleOf != c.multipleOf && (if direction.Request? then c else b).multipleOf.Some?
  }

  function ConstraintBreaks(direction: Direction, b: Keywords, c: Keywords, pointer: Pointer): set<Break> {
    if AnyBoundBreaks(direction, b, c, |BOUNDS|)
       || UniquenessBreaks(direction, b, c) || MultipleBreaks(direction, b, c)
    then {Break(ConstraintRule(direction), pointer)} else {}
  }

  // ----- strings and defaults -----

  predicate TextBreaks(direction: Direction, base: Option<string>, current: Option<string>) {
    base != current && (if direction.Request? then current else base).Some?
  }

  function StringBreaks(direction: Direction, b: Keywords, c: Keywords, pointer: Pointer): set<Break> {
    (if TextBreaks(direction, b.pattern, c.pattern) then {Break(PatternChanged, pointer)} else {})
    + (if TextBreaks(direction, b.format, c.format) then {Break(FormatChanged, pointer)} else {})
  }

  /** A default that is absent reads as null, as the dictionary lookup returns it. */
  function DefaultOf(k: Keywords): Json {
    if k.defaultValue.Some? then k.defaultValue.value else Null
  }

  function DefaultBreaks(direction: Direction, b: Keywords, c: Keywords, pointer: Pointer): set<Break> {
    if direction.Request? && b.defaultValue.Some? && !SameValue(DefaultOf(b), DefaultOf(c))
    then {Break(DefaultChanged, pointer)} else {}
  }

  // ----- objects -----

  predicate ClosesAdditionalProperties(b: Keywords, c: Keywords) {
    c.additional.Closed? && !b.additional.Closed?
  }

  function RequiredNames(direction: Direction, b: Keywords, c: Keywords): set<string> {
    if direction.Request? then c.required - b.required
    else set name | name in b.required - c.required && name in c.properties
  }

  function RequiredRule(direction: Direction): Rule {
    if direction.Request? then RequiredAdded else RequiredRemoved
  }

  function RemovedProperties(b: Keywords, c: Keywords): set<string> {
    b.properties.Keys - c.properties.Keys
  }

  function NamedBreaks(rule: Rule, names: set<string>, pointer: Pointer): set<Break> {
    set name | name in names :: Break(rule, pointer + [Property(name)])
  }

  function ObjectBreaks(direction: Direction, b: Keywords, c: Keywords, pointer: Pointer): set<Break> {
    NamedBreaks(PropertyRemoved, RemovedProperties(b, c), pointer)
    + NamedBreaks(RequiredRule(direction), RequiredNames(direction, b, c), pointer)
    + (if direction.Request? && ClosesAdditionalProperties(b, c) then {Break(AdditionalPropertiesClosed, pointer)}
       else {})
  }

  // ----- compositions -----

  datatype Identity = ByReference(target: string) | ByType(kind: Kind) | ByTypes(kinds: multiset<Kind>)

  function CompositionIdentity(member: Schema): Option<Identity> {
    match member
    case Link(target) => Some(ByReference(target))
    case Here(Flag(_)) => None
    case Here(Inline(k)) =>
      match k.types
      case None => None
      case Some(One(kind)) => Some(ByType(kind))
      case Some(Many(kinds)) => Some(ByTypes(multiset(kinds)))
  }

  function EqualityKey(member: Schema): Option<Schema> {
    Some(CanonicalSchema(member))
  }

  function MatchMembers(b: Keywords, c: Keywords, keyword: Composition): Matching<Schema>
    requires keyword in b.composition && keyword in c.composition
  {
    Match(b.composition[keyword].members, c.composition[keyword].members, EqualityKey, CompositionIdentity)
  }

  /** A member widens what is accepted when it is an added alternative or a removed `allOf` part. */
  predicate CompositionMemberBreaks(direction: Direction, keyword: Composition, added: bool) {
    var widens := if keyword.AllOf? then !added else added;
    widens != direction.Request?
  }

  predicate CompositionBreaksFor(direction: Direction, b: Keywords, c: Keywords, keyword: Composition) {
    if keyword !in b.composition && keyword !in c.composition then false
    else if keyword !in b.composition || keyword !in c.composition then true
    else
      var r := MatchMembers(b, c, keyword);
      || (CompositionMemberBreaks(direction, keyword, false) && r.removed != [])
      || (CompositionMemberBreaks(direction, keyword, true) && r.added != [])
  }

  function MemberBreaks(direction: Direction, b: Keywords, c: Keywords, keyword: Composition,
                        pointer: Pointer): set<Break> {
    if CompositionBreaksFor(direction, b, c, keyword) then {Break(CompositionChanged, pointer)} else {}
  }

  function CompositionBreaks(direction: Direction, b: Keywords, c: Keywords, pointer: Pointer): set<Break> {
    MemberBreaks(direction, b, c, OneOf, pointer) + MemberBreaks(direction, b, c, AnyOf, pointer)
    + MemberBreaks(direction, b, c, AllOf, pointer)
  }

  function ScalarBreaks(direction: Direction, b: Keywords, c: Keywords, pointer: Pointer): set<Break> {
    TypeBreaks(direction, b, c, pointer) + EnumBreaks(direction, b, c, pointer)
    + ConstraintBreaks(direction, b, c, pointer) + StringBreaks(direction, b, c, pointer)
    + DefaultBreaks(direction, b, c, pointer)
  }

  /** Everything the pair itself reports. */
  function LocalBreaks(direction: Direction, b: Keywords, c: Keywords, pointer: Pointer): set<Break> {
    ScalarBreaks(direction, b, c, pointer) + ObjectBreaks(direction, b, c, pointer)
    + CompositionBreaks(direction, b, c, pointer)
  }

  // ----- the pairs of subschemas that are compared next -----

  datatype Child = Child(base: Schema, current: Schema, step: Step)

  ghost predicate Smaller(child: Child, b: Keywords) {
    child.base < Here(Inline(b))
  }

  function PropertyChildren(b: Keywords, c: Keywords): (r: set<Child>)
    ensures forall child <- r :: Smaller(child, b)
  {
    set name | name in b.properties
               && name in c.properties :: Child(b.properties[name], c.properties[name], Property(name))
  }

  function ExtraChildren(b: Keywords, c: Keywords): (r: set<Child>)
    ensures forall child <- r :: Smaller(child, b)
  {
    if b.additional.Typed? && c.additional.Typed? then {Child(b.additional.schema, c.additional.schema, Extra)} else {}
  }

  function ItemChildren(b: Keywords, c: Keywords): (r: set<Child>)
    ensures forall child <- r :: Smaller(child, b)
  {
    if b.items.Some? && c.items.Some? then {Child(b.items.value, c.items.value, Element)} else {}
  }

  function MemberChildren(b: Keywords, c: Keywords, keyword: Composition): (r: set<Child>)
    ensures forall child <- r :: Smaller(child, b)
  {
    if keyword in b.composition && keyword in c.composition then
      var r := MatchMembers(b, c, keyword);
      assert forall i :: 0 <= i < |r.pairs| ==> r.pairs[i].prior in b.composition[keyword].members by {
        MatchCovers(b.composition[keyword].members, c.composition[keyword].members, EqualityKey, CompositionIdentity);
      }
      set i | 0 <= i < |r.pairs| :: Child(r.pairs[i].prior, r.pairs[i].current, Member(keyword, r.pairs[i].index))
    else {}
  }

  function CompositionChildren(b: Keywords, c: Keywords): (r: set<Child>)
    ensures forall child <- r :: Smaller(child, b)
  {
    MemberChildren(b, c, OneOf) + MemberChildren(b, c, AnyOf) + MemberChildren(b, c, AllOf)
  }

  function Children(b: Keywords, c: Keywords): (r: set<Child>)
    ensures forall child <- r :: Smaller(child, b)
  {
    PropertyChildren(b, c) + ExtraChildren(b, c) + ItemChildren(b, c) + CompositionChildren(b, c)
  }
}
