/**
  What a comparison says about defaults: a property that a request omits is read with the same
  default as before.
 */
module SchemaDefaults {
  import opened Wrappers
  import opened Resolution
  import opened Schemas
  import opened Reports
  import opened SchemaRules
  import opened SchemaComparison
  import opened SchemaSoundness

  /** The default of the schema object that the schema resolves to. */
  function DefaultAt(components: Components<Body>, schema: Schema): Option<Json> {
    match Resolve(components, schema)
    case Failure(_) => None
    case Success(body) => if body.Inline? then body.keywords.defaultValue else None
  }

  /** The default that a schema object declares for the name, if it declares the name with one. */
  function DeclaredDefault(components: Components<Body>, k: Keywords, name: string): Option<Json> {
    if name in k.properties then DefaultAt(components, k.properties[name]) else None
  }

  function ValueOr(default: Option<Json>): Json {
    if default.Some? then default.value else Null
  }

  /** What a reader finds under the name: the value sent, otherwise the property's default, otherwise null. */
  function Read(components: Components<Body>, k: Keywords, fields: map<string, Json>, name: string): Json {
    if name in fields then fields[name] else ValueOr(DeclaredDefault(components, k, name))
  }

  predicate IsObject(components: Components<Body>, schema: Schema) {
    Resolve(components, schema).Success? && Resolve(components, schema).value.Inline?
  }

  /** A default on the base side is the default on the current side; no default counts as null. */
  predicate KeepsDefault(docs: Documents, base: Schema, current: Schema) {
    IsObject(docs.base, base) && IsObject(docs.current, current) && DefaultAt(docs.base, base).Some? ==>
      var value := DefaultAt(docs.current, current);
      SameValue(DefaultAt(docs.base, base).value, if value.Some? then value.value else Null)
  }

  predicate SeenKeepDefaults(docs: Documents, seen: set<RefPair>) {
    forall pair <- seen :: pair.0.Some? && pair.1.Some? ==> KeepsDefault(docs, Link(pair.0.value), Link(pair.1.value))
  }

  /** Of a compared pair, every property pair keeps its default. */
  ghost predicate PropertiesKeepDefaults(docs: Documents, event: Event) {
    event.Compared? ==>
      forall name <- event.base.properties :: name in event.current.properties
                                              && KeepsDefault(docs, event.base.properties[name],
                                                              event.current.properties[name])
  }

  ghost predicate BothReferences(events: set<Event>) {
    forall event <- events :: event.Skipped? ==> event.pair.0.Some? && event.pair.1.Some?
  }

  /** For two schema objects, the rule reports exactly when the default is not kept. */
  lemma DefaultRuleIsExact(docs: Documents, base: Schema, current: Schema, b: Keywords, c: Keywords, pointer: Pointer)
    requires Resolve(docs.base, base) == Success(Inline(b)) && Resolve(docs.current, current) == Success(Inline(c))
    ensures DefaultBreaks(Request, b, c, pointer) == {} <==> KeepsDefault(docs, base, current)
    ensures DefaultBreaks(Response, b, c, pointer) == {}
  {
  }

  lemma NoBreaksKeepDefault(docs: Documents, base: Schema, current: Schema, b: Keywords, c: Keywords, pointer: Pointer)
    requires Resolve(docs.base, base) == Success(Inline(b)) && Resolve(docs.current, current) == Success(Inline(c))
    requires LocalBreaks(Request, b, c, pointer) == {}
    ensures KeepsDefault(docs, base, current)
  {
    assert DefaultBreaks(Request, b, c, pointer) == {} by {
      hide TypeBreaks, EnumBreaks, ConstraintBreaks, StringBreaks, DefaultBreaks, ObjectBreaks, CompositionBreaks;
    }
    hide LocalBreaks;
    DefaultRuleIsExact(docs, base, current, b, c, pointer);
  }

  lemma NoBreaksKeepNames(b: Keywords, c: Keywords, pointer: Pointer)
    requires LocalBreaks(Request, b, c, pointer) == {}
    ensures b.properties.Keys <= c.properties.Keys
  {
    NoLocalBreaks(Request, b, c, pointer);
    hide LocalBreaks;
    NoObjectBreaks(Request, b, c, pointer);
  }

  lemma PropertyIsChild(b: Keywords, c: Keywords, name: string)
    requires name in b.properties && name in c.properties
    ensures Child(b.properties[name], c.properties[name], Property(name)) in Children(b, c)
  {
    hide ExtraChildren, ItemChildren, CompositionChildren;
  }

  /**
    A request comparison without breaks keeps the defaults of everything it visits, behind
    references too: a pair that is skipped is being compared already.
   */
  lemma {:induction false} WalkKeepsDefaults(docs: Documents, base: Schema, current: Schema, pointer: Pointer,
                                             seen: set<RefPair>)
    requires NoBreaks(Request, Walk(docs, base, current, pointer, seen))
             && BothReferences(Walk(docs, base, current, pointer, seen))
    requires SeenKeepDefaults(docs, seen)
    ensures KeepsDefault(docs, base, current)
    ensures forall event <- Walk(docs, base, current, pointer, seen) :: PropertiesKeepDefaults(docs, event)
    decreases |Universe(docs) - seen|, base
  {
    hide LocalBreaks, Children, Universe, KeepsDefault, PropertiesKeepDefaults;
    var pair, events := PairOf(base, current), Walk(docs, base, current, pointer, seen);
    if pair != (None, None) && pair in seen {
      assert Skipped(pair) in events;
      assert base == Link(pair.0.value) && current == Link(pair.1.value);
      OnlyCompared(docs, events);
    } else if IsObject(docs.base, base) && IsObject(docs.current, current) {
      var b, c := Resolve(docs.base, base).value.keywords, Resolve(docs.current, current).value.keywords;
      RememberShrinks(docs, base, current, seen);
      WalkOfKeywords(docs, Request, base, current, pointer, seen, b, c);
      NoBreaksKeepDefault(docs, base, current, b, c, pointer);
      NoBreaksKeepNames(b, c, pointer);
      var known := Remember(seen, pair);
      forall child | child in Children(b, c)
        ensures KeepsDefault(docs, child.base, child.current)
        ensures forall event <- Walk(docs, child.base, child.current, pointer + [child.step], known) ::
                  PropertiesKeepDefaults(docs, event)
      {
        var below := Walk(docs, child.base, child.current, pointer + [child.step], known);
        ExploreContains(docs, b, Children(b, c), child, pointer, known);
        BreaksInUnion(Request, below, events - below);
        assert below + (events - below) == events;
        WalkKeepsDefaults(docs, child.base, child.current, pointer + [child.step], known);
      }
      assert PropertiesKeepDefaults(docs, Compared(b, c, pointer)) by {
        forall name | name in b.properties ensures KeepsDefault(docs, b.properties[name], c.properties[name]) {
          PropertyIsChild(b, c, name);
        }
        hide Walk;
        ComparedKeeps(docs, b, c, pointer);
      }
    } else {
      NotObjects(docs, base, current, pointer, seen);
      OnlyCompared(docs, events);
    }
  }

  lemma OnlyCompared(docs: Documents, events: set<Event>)
    requires forall event <- events :: !event.Compared?
    ensures forall event <- events :: PropertiesKeepDefaults(docs, event)
  {
  }

  lemma ComparedKeeps(docs: Documents, b: Keywords, c: Keywords, pointer: Pointer)
    requires forall name <- b.properties :: name in c.properties
               && KeepsDefault(docs, b.properties[name], c.properties[name])
    ensures PropertiesKeepDefaults(docs, Compared(b, c, pointer))
  {
    hide KeepsDefault;
  }

  lemma NotObjects(docs: Documents, base: Schema, current: Schema, pointer: Pointer, seen: set<RefPair>)
    requires !(IsObject(docs.base, base) && IsObject(docs.current, current))
    ensures KeepsDefault(docs, base, current)
    ensures forall event <- Walk(docs, base, current, pointer, seen) :: !event.Compared?
  {
    hide Children, Universe, Explore;
  }

  /** No default, and a default of null, leave an omitted property null. */
  predicate ReadsNull(default: Option<Json>) {
    default.Some? ==> SameValue(default.value, Null)
  }

  /**
    The condition on the two documents: a default of the base side that is not null faces a schema
    object, and where the base side has no default, the current one has none that is not null.
   */
  predicate DefaultIsShared(docs: Documents, b: Keywords, c: Keywords, name: string)
    requires name in b.properties ==> name in c.properties
  {
    if DeclaredDefault(docs.base, b, name).Some?
    then IsObject(docs.current, c.properties[name]) || ReadsNull(DeclaredDefault(docs.base, b, name))
    else ReadsNull(DeclaredDefault(docs.current, c, name))
  }

  /**
    What the default rule is for. When a request comparison reports nothing, then wherever it
    compares two schema objects, no declared property is lost, and every name is read the same on
    both sides, sent or omitted and up to Python's equality, exactly when its default is shared.
   */
  lemma OmittedPropertiesReadTheSame(docs: Documents, base: Schema, current: Schema, pointer: Pointer, b: Keywords,
                                     c: Keywords, at: Pointer, name: string)
    requires NoBreaks(Request, Walk(docs, base, current, pointer, {}))
             && BothReferences(Walk(docs, base, current, pointer, {}))
    requires Compared(b, c, at) in Walk(docs, base, current, pointer, {})
    ensures name in b.properties ==> name in c.properties
    ensures (forall fields :: SameValue(Read(docs.base, b, fields, name), Read(docs.current, c, fields, name)))
            <==> DefaultIsShared(docs, b, c, name)
  {
    hide Walk;
    WalkKeepsDefaults(docs, base, current, pointer, {});
    assert PropertiesKeepDefaults(docs, Compared(b, c, at));
    OmittedIsEnough(docs, b, c, name);
    var before, after := DeclaredDefault(docs.base, b, name), DeclaredDefault(docs.current, c, name);
    if before.Some? {
      WithDefaultIsObject(docs.base, b.properties[name]);
      assert KeepsDefault(docs, b.properties[name], c.properties[name]);
      if !IsObject(docs.current, c.properties[name]) {
        assert after.None?;
      }
    }
  }

  /** A value that is sent reads the same anyway, so only the omitted property matters. */
  lemma OmittedIsEnough(docs: Documents, b: Keywords, c: Keywords, name: string)
    ensures (forall fields :: SameValue(Read(docs.base, b, fields, name), Read(docs.current, c, fields, name)))
            <==> SameValue(ValueOr(DeclaredDefault(docs.base, b, name)),
                           ValueOr(DeclaredDefault(docs.current, c, name)))
  {
    var none: map<string, Json> := map[];
    assert Read(docs.base, b, none, name) == ValueOr(DeclaredDefault(docs.base, b, name));
    assert Read(docs.current, c, none, name) == ValueOr(DeclaredDefault(docs.current, c, name));
  }

  lemma WithDefaultIsObject(components: Components<Body>, schema: Schema)
    requires DefaultAt(components, schema).Some?
    ensures IsObject(components, schema)
  {
  }

  // ----- what the rule does not cover -----

  function WithProperty(schema: Schema): Schema {
    Here(Inline(EMPTY.(properties := map["a" := schema])))
  }

  /** Nothing is reported, and an omitted property is read differently. */
  ghost predicate ReadsDiffer(base: Schema, current: Schema) {
    var docs := Documents(map[], map[]);
    && NoBreaks(Request, Walk(docs, WithProperty(base), WithProperty(current), [], {}))
    && !SameValue(Read(map[], WithProperty(base).value.keywords, map[], "a"),
                  Read(map[], WithProperty(current).value.keywords, map[], "a"))
  }

  lemma OneProperty(base: Schema, current: Schema)
    requires base.Here? && current.Here?
    requires NoBreaks(Request, Walk(Documents(map[], map[]), base, current, [Property("a")], {}))
    ensures NoBreaks(Request, Walk(Documents(map[], map[]), WithProperty(base), WithProperty(current), [], {}))
  {
    var docs := Documents(map[], map[]);
    var b, c := WithProperty(base).value.keywords, WithProperty(current).value.keywords;
    var child := Child(base, current, Property("a"));
    NamesKept(b, c);
    OneChild(base, current);
    hide Walk, Children, LocalBreaks;
    WalkOfKeywords(docs, Request, WithProperty(base), WithProperty(current), [], {}, b, c);
    ExploreOne(docs, b, child, [], {});
    assert [] + [child.step] == [Property("a")];
  }

  lemma OneChild(base: Schema, current: Schema)
    ensures Children(WithProperty(base).value.keywords, WithProperty(current).value.keywords)
         == {Child(base, current, Property("a"))}
  {
    var b, c := WithProperty(base).value.keywords, WithProperty(current).value.keywords;
    assert PropertyChildren(b, c) == {Child(base, current, Property("a"))};
    assert Children(b, c) == PropertyChildren(b, c);
  }

  lemma NamesKept(b: Keywords, c: Keywords)
    requires b == EMPTY.(properties := b.properties) && c == EMPTY.(properties := c.properties)
    requires b.properties.Keys == c.properties.Keys
    ensures LocalBreaks(Request, b, c, []) == {}
  {
  }

  /** A default that only the current schema declares changes what an omission means, unreported. */
  lemma NewDefaultIsMissed(value: Json)
    requires !SameValue(value, Null)
    ensures ReadsDiffer(Here(Inline(EMPTY)), Here(Inline(EMPTY.(defaultValue := Some(value)))))
  {
    var c := EMPTY.(defaultValue := Some(value));
    NewDefaultIsQuiet(c, value);
    hide Walk;
    OneProperty(Here(Inline(EMPTY)), Here(Inline(c)));
  }

  lemma NewDefaultIsQuiet(c: Keywords, value: Json)
    requires c == EMPTY.(defaultValue := Some(value))
    ensures NoBreaks(Request, Walk(Documents(map[], map[]), Here(Inline(EMPTY)), Here(Inline(c)), [Property("a")], {}))
  {
    assert LocalBreaks(Request, EMPTY, c, [Property("a")]) == {};
    assert Children(EMPTY, c) == {};
    hide LocalBreaks, Children;
    WalkOfKeywords(Documents(map[], map[]), Request, Here(Inline(EMPTY)), Here(Inline(c)), [Property("a")], {}, EMPTY,
                   c);
    ExploreNothing(Documents(map[], map[]), Request, EMPTY, [Property("a")], {});
  }

  /** A property with a default that becomes `true` loses the default, unreported. */
  lemma DefaultOfTrueIsMissed(value: Json)
    requires !SameValue(value, Null)
    ensures ReadsDiffer(Here(Inline(EMPTY.(defaultValue := Some(value)))), Here(Flag(true)))
  {
    OneProperty(Here(Inline(EMPTY.(defaultValue := Some(value)))), Here(Flag(true)));
  }
}
