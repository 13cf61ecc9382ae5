/** Comparing a schema with itself reports nothing, whatever recursion the document contains. */
module SchemaReflexivity {
  import opened Wrappers
  import opened Resolution
  import opened Schemas
  import opened CompositionMatching
  import opened Reports
  import opened SchemaRules
  import opened SchemaComparison
  import opened SchemaSoundness

  /** The schemas directly inside a schema object. */
  function Subschemas(k: Keywords): (r: set<Schema>)
    ensures forall s <- r :: s < Here(Inline(k))
  {
    (set name | name in k.properties :: k.properties[name])
    + (if k.additional.Typed? then {k.additional.schema} else {})
    + (if k.items.Some? then {k.items.value} else {})
    + (set keyword, s | keyword in k.composition && s in k.composition[keyword].members :: s)
  }

  /** Every reference in the schema can be resolved. */
  ghost predicate LinksResolve(components: Components<Body>, schema: Schema)
    decreases schema
  {
    if schema.Link? then Resolve(components, schema).Success?
    else schema.value.Flag? || forall s <- Subschemas(schema.value.keywords) :: LinksResolve(components, s)
  }

  ghost predicate ComponentsResolve(components: Components<Body>) {
    forall target <- components :: LinksResolve(components, components[target])
  }

  lemma {:induction false} ResolvedBodyResolves(components: Components<Body>, schema: Schema, seen: set<string>)
    requires ComponentsResolve(components) && LinksResolve(components, schema)
    requires ResolveFrom(components, schema, seen).Success?
    ensures LinksResolve(components, Here(ResolveFrom(components, schema, seen).value))
    decreases components.Keys - seen
  {
    if schema.Link? {
      ResolvedBodyResolves(components, components[schema.target], seen + {schema.target});
    }
  }

  lemma MatchesItself(k: Keywords, keyword: Composition)
    requires keyword in k.composition
    ensures var r := MatchMembers(k, k, keyword);
            && r.removed == [] && r.added == []
            && (forall i :: 0 <= i < |r.pairs| ==> r.pairs[i].prior == r.pairs[i].current)
            && (forall i :: 0 <= i < |r.pairs| ==> r.pairs[i].prior in k.composition[keyword].members)
  {
    hide Match, CanonicalSchema;
    var members := k.composition[keyword].members;
    MatchOfItself(members, EqualityKey, CompositionIdentity);
    MatchCovers(members, members, EqualityKey, CompositionIdentity);
  }

  lemma MembersOfItself(k: Keywords, keyword: Composition)
    requires keyword in k.composition
    ensures forall child <- MemberChildren(k, k, keyword) :: child.base == child.current && child.base in Subschemas(k)
  {
    hide MatchMembers;
    MatchesItself(k, keyword);
  }

  lemma ChildrenOfItself(k: Keywords)
    ensures forall child <- Children(k, k) :: child.base == child.current && child.base in Subschemas(k)
  {
    hide MemberChildren;
    forall keyword: Composition
      ensures forall child <- MemberChildren(k, k, keyword) :: child.base == child.current
                && child.base in Subschemas(k)
    {
      if keyword in k.composition {
        MembersOfItself(k, keyword);
      } else {
        NoMemberChildren(k, keyword);
      }
    }
  }

  lemma NoMemberChildren(k: Keywords, keyword: Composition)
    requires keyword !in k.composition
    ensures MemberChildren(k, k, keyword) == {}
  {
  }

  lemma NoBreaksWithItself(direction: Direction, k: Keywords, pointer: Pointer)
    ensures LocalBreaks(direction, k, k, pointer) == {}
  {
    hide CompositionBreaks, ScalarBreaks;
    ScalarsWithItself(direction, k, pointer);
    CompositionsWithItself(direction, k, pointer);
  }

  lemma ScalarsWithItself(direction: Direction, k: Keywords, pointer: Pointer)
    ensures ScalarBreaks(direction, k, k, pointer) == {}
  {
    hide CanonicalValue;
    if EnumValues(k).Some? {
      var values := EnumValues(k).value;
      forall i | 0 <= i < |values| ensures Listed(values[i], values) {
        assert SameValue(values[i], values[i]);
      }
    }
  }

  lemma CompositionsWithItself(direction: Direction, k: Keywords, pointer: Pointer)
    ensures CompositionBreaks(direction, k, k, pointer) == {}
  {
    hide MatchMembers;
    forall keyword: Composition ensures !CompositionBreaksFor(direction, k, k, keyword) {
      if keyword in k.composition {
        MatchesItself(k, keyword);
      }
    }
  }

  /** Only pairs of equal schema objects are compared. */
  ghost predicate Mirrored(events: set<Event>) {
    forall event <- events :: event.Compared? ==> event.base == event.current
  }

  ghost predicate AllResolve(components: Components<Body>, schema: Schema) {
    ComponentsResolve(components) && LinksResolve(components, schema)
  }

  lemma {:induction false} WalkOfItself(components: Components<Body>, schema: Schema, pointer: Pointer,
                                        seen: set<RefPair>)
    ensures var events := Walk(Documents(components, components), schema, schema, pointer, seen);
            Mirrored(events) && (AllResolve(components, schema) ==> !Raises(events))
    decreases |Universe(Documents(components, components)) - seen|, schema
  {
    hide Children, Universe, Subschemas, LocalBreaks, ComponentsResolve;
    var docs := Documents(components, components);
    var pair := PairOf(schema, schema);
    if (pair == (None, None) || pair !in seen) && Resolve(components, schema).Success?
        && Resolve(components, schema).value.Inline? {
      var k := Resolve(components, schema).value.keywords;
      if AllResolve(components, schema) {
        ResolvedBodyResolves(components, schema, {});
      }
      RememberShrinks(docs, schema, schema, seen);
      WalkOfKeywords(docs, Request, schema, schema, pointer, seen, k, k);
      ChildrenOfItself(k);
      var known := Remember(seen, pair);
      forall child | child in Children(k, k)
        ensures var events := Walk(docs, child.base, child.current, pointer + [child.step], known);
                Mirrored(events) && (AllResolve(components, schema) ==> !Raises(events))
      {
        assert child.base in Subschemas(k) && Smaller(child, k);
        WalkOfItself(components, child.base, pointer + [child.step], known);
      }
      var below := Explore(docs, k, Children(k, k), pointer, known);
      assert Mirrored(below) && (AllResolve(components, schema) ==> !Raises(below));
    }
  }

  /** A schema of a document whose references all resolve never breaks against itself. */
  lemma SchemaIsCompatibleWithItself(direction: Direction, components: Components<Body>, schema: Schema,
                                     pointer: Pointer)
    requires AllResolve(components, schema)
    ensures NoBreaks(direction, Walk(Documents(components, components), schema, schema, pointer, {}))
  {
    hide LocalBreaks;
    WalkOfItself(components, schema, pointer, {});
    forall k: Keywords, p: Pointer ensures LocalBreaks(direction, k, k, p) == {} {
      NoBreaksWithItself(direction, k, p);
    }
  }
}
