/**
  When exactly a comparison of two documents reports something outside schemas, and which schemas it
  compares at which place, stated on the two operations and what they declare.
 */
module DocumentExactness {
  import opened Wrappers
  import opened Resolution
  import opened Schemas
  import opened Reports
  import opened Security
  import opened Text
  import opened OpenApiDocument
  import SchemaComparison
  import DocumentComparison

  // ----- conditions on two operations -----

  /** A requirement of the list that decides; asking for nothing when that is empty or missing. */
  ghost predicate Asks(document: Option<seq<Requirement>>, operation: Option<seq<Requirement>>, option: Requirement) {
    match operation
    case Some(own) => option in own || (own == [] && option == map[])
    case None =>
      match document
      case Some(shared) => option in shared || (shared == [] && option == map[])
      case None => option == map[]
  }

  /** Clients of the base operation that send one of its options are not admitted any more. */
  ghost predicate OptionLost(base: Document, current: Document, b: Operation, c: Operation, option: Requirement) {
    Asks(base.security, b.security, option) && !Admits(current.security, c.security, option)
  }

  /** The parameter with this key, and whether a client has to send it. */
  predicate Demands(parameters: map<ParameterKey, Parameter>, key: ParameterKey) {
    key in parameters && parameters[key].required
  }

  ghost predicate ParameterDue(base: Document, current: Document, b: Entry, c: Entry, rule: Rule, key: ParameterKey) {
    && Parameters(base, b).Success? && Parameters(current, c).Success?
    && var bs, cs := Parameters(base, b).value, Parameters(current, c).value;
       match rule
       case ParameterRequired => Demands(cs, key) && !Demands(bs, key)
       case ParameterRemoved => key in bs && key !in cs
       case _ => false
  }

  predicate DemandsBody(body: Option<RequestBody>) {
    body.Some? && body.value.required
  }

  ghost predicate BodyDue(base: Document, current: Document, b: Operation, c: Operation, rule: Rule, place: Place) {
    && ResolveBody(base, b.requestBody).Success? && ResolveBody(current, c.requestBody).Success?
    && var prior, later := ResolveBody(base, b.requestBody).value, ResolveBody(current, c.requestBody).value;
       match (rule, place)
       case (RequestBodyRequired, InRequest) => DemandsBody(later) && !DemandsBody(prior)
       case (RequestMediaTypeRemoved, InRequestMedia(media)) =>
         prior.Some? && later.Some? && media in prior.value.content && media !in later.value.content
       case _ => false
  }

  /** A status of three characters, the first of them 2, and two digits or two letters X behind it. */
  predicate SuccessText(status: string) {
    status == "2XX" || exists tens, ones :: 0 <= tens < 10 && 0 <= ones < 10 && status == Digits(tens, ones)
  }

  function Digits(tens: nat, ones: nat): string
    requires tens < 10 && ones < 10
  {
    ['2', '0' + tens as char, '0' + ones as char]
  }

  ghost predicate ContentsAre(base: Document, current: Document, b: Operation, c: Operation, status: string,
                              prior: Content, later: Content) {
    && status in b.responses && status in c.responses
    && Resolve(base.responses, b.responses[status]) == Success(prior)
    && Resolve(current.responses, c.responses[status]) == Success(later)
  }

  ghost predicate ResponseDue(base: Document, current: Document, b: Operation, c: Operation, rule: Rule, place: Place) {
    match (rule, place)
    case (SuccessStatusAdded, InResponse(status)) =>
      status in c.responses && status !in b.responses && SuccessText(status)
    case (ResponseRemoved, InResponse(status)) => status in b.responses && status !in c.responses
    case (ResponseMediaTypeRemoved, InResponseMedia(status, media)) =>
      exists prior, later :: ContentsAre(base, current, b, c, status, prior, later) && media in prior && media !in later
    case _ => false
  }

  /** What must hold of two operations for a rule to be reported at a place outside schemas. */
  ghost predicate Due(base: Document, current: Document, b: Entry, c: Entry, rule: Rule, place: Place) {
    match place
    case Whole =>
      rule.OperationIdChanged? && b.operation.operationId.Some? && c.operation.operationId != b.operation.operationId
    case SecurityOption(option) =>
      rule.SecurityChanged? && OptionLost(base, current, b.operation, c.operation, option)
    case InParameter(key) => ParameterDue(base, current, b, c, rule, key)
    case InRequest => BodyDue(base, current, b.operation, c.operation, rule, place)
    case InRequestMedia(_) => BodyDue(base, current, b.operation, c.operation, rule, place)
    case InResponse(_) => ResponseDue(base, current, b.operation, c.operation, rule, place)
    case InResponseMedia(_, _) => ResponseDue(base, current, b.operation, c.operation, rule, place)
  }

  // ----- the findings outside schemas -----

  lemma IdIsExact(base: Document, current: Document, key: OperationKey, b: Entry, c: Entry, rule: Rule, place: Place)
    ensures Outside(rule, key, place) in IdFindings(key, b.operation, c.operation)
         <==> place.Whole? && Due(base, current, b, c, rule, place)
  {
  }

  lemma OptionsAre(document: Option<seq<Requirement>>, operation: Option<seq<Requirement>>, option: Requirement)
    ensures option in SecurityOptions(document, operation) <==> Asks(document, operation, option)
  {
  }

  lemma SecurityIsExact(base: Document, current: Document, key: OperationKey, b: Entry, c: Entry, rule: Rule,
                        place: Place)
    ensures Outside(rule, key, place) in SecurityFindings(base, current, key, b.operation, c.operation)
         <==> place.SecurityOption? && Due(base, current, b, c, rule, place)
  {
    if place.SecurityOption? {
      LostMeans(SecurityOptions(base.security, b.operation.security),
                SecurityOptions(current.security, c.operation.security));
      OptionsAre(base.security, b.operation.security, place.option);
      OptionsAdmit(current.security, c.operation.security, place.option);
    }
    hide SecurityOptions, LostOptions, Accepted, Admits, Asks;
  }

  lemma ParametersAreExact(base: Document, current: Document, key: OperationKey, b: Entry, c: Entry, rule: Rule,
                           place: Place)
    ensures Outside(rule, key, place) in ParameterFindings(base, current, key, b, c)
         <==> place.InParameter? && Due(base, current, b, c, rule, place)
  {
    hide Parameters, SchemaComparison.Walk, ParameterSchema;
  }

  lemma ContentIsExact(base: Document, current: Document, direction: Direction, key: OperationKey,
                       place: string -> Place, removed: Rule, b: Content, c: Content, rule: Rule, at: Place)
    ensures Outside(rule, key, at) in ContentFindings(base, current, direction, key, place, removed, b, c)
         <==> rule == removed && exists media :: at == place(media) && media in b && media !in c
  {
    hide SchemaComparison.Walk, SchemaOr;
  }

  lemma BodyIsExact(base: Document, current: Document, key: OperationKey, b: Entry, c: Entry, rule: Rule, place: Place)
    ensures Outside(rule, key, place) in BodyFindings(base, current, key, b.operation, c.operation)
         <==> (place.InRequest? || place.InRequestMedia?) && Due(base, current, b, c, rule, place)
  {
    var prior, later := ResolveBody(base, b.operation.requestBody), ResolveBody(current, c.operation.requestBody);
    if prior.Success? && later.Success? && prior.value.Some? && later.value.Some? {
      ContentIsExact(base, current, Request, key, m => InRequestMedia(m), RequestMediaTypeRemoved,
                     prior.value.value.content, later.value.value.content, rule, place);
    }
    hide ResolveBody, ContentFindings;
  }

  lemma SuccessIsExact(status: string)
    ensures IsSuccess(status) <==> SuccessText(status)
  {
    if IsSuccess(status) && status != "2XX" {
      var tens, ones := (status[1] - '0') as int, (status[2] - '0') as int;
      assert status == Digits(tens, ones);
    }
  }

  lemma StatusIsExact(base: Document, current: Document, key: OperationKey, b: Operation, c: Operation, status: string,
                      rule: Rule, place: Place)
    requires status in b.responses
    ensures Outside(rule, key, place) in StatusFindings(base, current, key, b, c, status)
         <==> && !rule.SuccessStatusAdded? && ResponseDue(base, current, b, c, rule, place)
              && ((place.InResponse? && place.status == status) || (place.InResponseMedia? && place.status == status))
  {
    if status in c.responses {
      var prior, later := Resolve(base.responses, b.responses[status]), Resolve(current.responses, c.responses[status]);
      if prior.Success? && later.Success? {
        ContentIsExact(base, current, Response, key, m => InResponseMedia(status, m), ResponseMediaTypeRemoved,
                       prior.value, later.value, rule, place);
      }
    }
    hide Resolve, ContentFindings;
  }

  lemma ResponsesAreExact(base: Document, current: Document, key: OperationKey, b: Entry, c: Entry, rule: Rule,
                          place: Place)
    ensures Outside(rule, key, place) in ResponseFindings(base, current, key, b.operation, c.operation)
         <==> (place.InResponse? || place.InResponseMedia?) && Due(base, current, b, c, rule, place)
  {
    var bs, cs := b.operation, c.operation;
    forall status | status in bs.responses
      ensures Outside(rule, key, place) in StatusFindings(base, current, key, bs, cs, status)
           <==> && !rule.SuccessStatusAdded? && ResponseDue(base, current, bs, cs, rule, place)
                && ((place.InResponse? && place.status == status)
                    || (place.InResponseMedia? && place.status == status))
    {
      StatusIsExact(base, current, key, bs, cs, status, rule, place);
    }
    if place.InResponse? {
      SuccessIsExact(place.status);
    }
    hide StatusFindings, IsSuccess, SuccessText;
  }

  lemma OperationIsExact(base: Document, current: Document, key: OperationKey, b: Entry, c: Entry, rule: Rule,
                         place: Place)
    ensures Outside(rule, key, place) in OperationFindings(base, current, key, b, c)
         <==> Due(base, current, b, c, rule, place)
  {
    IdIsExact(base, current, key, b, c, rule, place);
    SecurityIsExact(base, current, key, b, c, rule, place);
    ParametersAreExact(base, current, key, b, c, rule, place);
    BodyIsExact(base, current, key, b, c, rule, place);
    ResponsesAreExact(base, current, key, b, c, rule, place);
    hide Due, IdFindings, SecurityFindings, ParameterFindings, BodyFindings, ResponseFindings;
  }

  // ----- the schemas that are compared -----

  /** The schema beside a media type or a parameter; anything goes where there is none. */
  ghost predicate Stands(declared: Option<Schema>, schema: Schema) {
    if declared.Some? then schema == declared.value else schema == Here(Flag(true))
  }

  /** A parameter's own schema comes before that of its first media type. */
  ghost predicate Describes(parameter: Parameter, schema: Schema) {
    if parameter.schema.Some? || parameter.content == [] then Stands(parameter.schema, schema)
    else Stands(parameter.content[0], schema)
  }

  /** The event is one of comparing the schemas beside a media type that both contents have. */
  ghost predicate MediaHappens(base: Document, current: Document, prior: Content, later: Content, media: string,
                               event: SchemaComparison.Event) {
    && media in prior && media in later
    && exists x, y :: Stands(prior[media], x) && Stands(later[media], y)
                      && event in SchemaComparison.Walk(SchemaDocs(base, current), x, y, [], {})
  }

  ghost predicate ParameterHappens(base: Document, current: Document, b: Entry, c: Entry, key: ParameterKey,
                                   event: SchemaComparison.Event) {
    && Parameters(base, b).Success? && Parameters(current, c).Success?
    && var bs, cs := Parameters(base, b).value, Parameters(current, c).value;
       && key in bs && key in cs
       && exists x, y :: Describes(bs[key], x) && Describes(cs[key], y)
                         && event in SchemaComparison.Walk(SchemaDocs(base, current), x, y, [], {})
  }

  ghost predicate BodyHappens(base: Document, current: Document, b: Operation, c: Operation, media: string,
                              event: SchemaComparison.Event) {
    var prior, later := ResolveBody(base, b.requestBody), ResolveBody(current, c.requestBody);
    && prior.Success? && later.Success? && prior.value.Some? && later.value.Some?
    && MediaHappens(base, current, prior.value.value.content, later.value.value.content, media, event)
  }

  ghost predicate ResponseHappens(base: Document, current: Document, b: Operation, c: Operation, status: string,
                                  media: string, event: SchemaComparison.Event) {
    exists prior, later :: ContentsAre(base, current, b, c, status, prior, later)
                           && MediaHappens(base, current, prior, later, media, event)
  }

  /** The event is one of comparing the two schemas that belong together at this place of two operations. */
  ghost predicate Happens(base: Document, current: Document, b: Entry, c: Entry, direction: Direction, place: Place,
                          event: SchemaComparison.Event) {
    match place
    case InParameter(key) => direction.Request? && ParameterHappens(base, current, b, c, key, event)
    case InRequestMedia(media) =>
      direction.Request? && BodyHappens(base, current, b.operation, c.operation, media, event)
    case InResponseMedia(status, media) =>
      direction.Response? && ResponseHappens(base, current, b.operation, c.operation, status, media, event)
    case _ => false
  }

  lemma SchemaFindingsAre(base: Document, current: Document, direction: Direction, key: OperationKey, place: Place,
                          x: Schema, y: Schema, f: Finding)
    ensures f in SchemaFindings(base, current, direction, key, place, x, y)
         <==> f.Inside? && f.direction == direction && f.key == key && f.place == place
              && f.event in SchemaComparison.Walk(SchemaDocs(base, current), x, y, [], {})
  {
    hide SchemaComparison.Walk;
    if f.Inside? {
      assert f == Inside(f.direction, f.key, f.place, f.event);
    }
  }

  lemma DescribedIs(parameter: Parameter)
    ensures Describes(parameter, ParameterSchema(parameter))
    ensures forall x :: Describes(parameter, x) ==> x == ParameterSchema(parameter)
  {
  }

  lemma PairCompares(base: Document, current: Document, key: OperationKey, b: Entry, c: Entry, k: ParameterKey,
                     f: Finding)
    requires Parameters(base, b).Success? && Parameters(current, c).Success?
    requires k in Parameters(base, b).value && k in Parameters(current, c).value
    ensures f in SchemaFindings(base, current, Request, key, InParameter(k),
                                ParameterSchema(Parameters(base, b).value[k]),
                                ParameterSchema(Parameters(current, c).value[k]))
         <==> f.Inside? && f.direction == Request && f.key == key && f.place == InParameter(k)
              && ParameterHappens(base, current, b, c, k, f.event)
  {
    var x, y := Parameters(base, b).value[k], Parameters(current, c).value[k];
    DescribedIs(x);
    DescribedIs(y);
    SchemaFindingsAre(base, current, Request, key, InParameter(k), ParameterSchema(x), ParameterSchema(y), f);
    hide SchemaComparison.Walk, SchemaFindings, Parameters, Describes, ParameterSchema;
  }

  lemma ParametersCompare(base: Document, current: Document, key: OperationKey, b: Entry, c: Entry, f: Finding)
    requires !f.Failed?
    ensures f in ParameterFindings(base, current, key, b, c) ==> f.key == key
    ensures f.Inside? && f.key == key ==>
              (f in ParameterFindings(base, current, key, b, c)
               <==> f.place.InParameter? && Happens(base, current, b, c, f.direction, f.place, f.event))
  {
    assert forall k, event :: ParameterHappens(base, current, b, c, k, event) ==>
      && Parameters(base, b).Success? && Parameters(current, c).Success?
      && k in Parameters(base, b).value && k in Parameters(current, c).value;
    hide Parameters, SchemaFindings, NewlyRequired, ParameterHappens, ParameterSchema;
    if Parameters(base, b).Success? && Parameters(current, c).Success? {
      var bs, cs := Parameters(base, b).value, Parameters(current, c).value;
      forall k | k in bs && k in cs
        ensures f in SchemaFindings(base, current, Request, key, InParameter(k), ParameterSchema(bs[k]),
                                    ParameterSchema(cs[k]))
                <==> && f.Inside? && f.direction == Request && f.key == key && f.place == InParameter(k)
                     && ParameterHappens(base, current, b, c, k, f.event)
      {
        PairCompares(base, current, key, b, c, k, f);
      }
    }
  }

  lemma MediaCompares(base: Document, current: Document, direction: Direction, key: OperationKey,
                      place: string -> Place, removed: Rule, prior: Content, later: Content, media: string, f: Finding)
    requires !f.Failed? && media in prior
    ensures var found :=
              DocumentComparison.MediaFindings(base, current, direction, key, place, removed, prior, later, media);
            && (f in found ==> f.key == key)
            && (f.Inside? && f.key == key ==>
                  (f in found <==> && f.direction == direction && f.place == place(media)
                                   && MediaHappens(base, current, prior, later, media, f.event)))
  {
    if media in later {
      SchemaFindingsAre(base, current, direction, key, place(media), SchemaOr(prior[media]), SchemaOr(later[media]), f);
      assert Stands(prior[media], SchemaOr(prior[media])) && Stands(later[media], SchemaOr(later[media]));
    }
    hide SchemaComparison.Walk, SchemaFindings;
  }

  lemma ContentCompares(base: Document, current: Document, direction: Direction, key: OperationKey,
                        place: string -> Place, removed: Rule, prior: Content, later: Content, f: Finding)
    requires !f.Failed?
    ensures f in ContentFindings(base, current, direction, key, place, removed, prior, later) ==> f.key == key
    ensures f.Inside? && f.key == key ==>
              (f in ContentFindings(base, current, direction, key, place, removed, prior, later)
               <==> && f.direction == direction
                    && exists media :: f.place == place(media)
                         && MediaHappens(base, current, prior, later, media, f.event))
  {
    DocumentComparison.ContentSplit(base, current, direction, key, place, removed, prior, later);
    assert forall media, event :: MediaHappens(base, current, prior, later, media, event) ==> media in prior;
    hide MediaHappens, ContentFindings, DocumentComparison.MediaFindings;
    forall media | media in prior
      ensures var found :=
                DocumentComparison.MediaFindings(base, current, direction, key, place, removed, prior, later, media);
              && (f in found ==> f.key == key)
              && (f.Inside? && f.key == key ==>
                    (f in found <==> && f.direction == direction && f.place == place(media)
                                     && MediaHappens(base, current, prior, later, media, f.event)))
    {
      MediaCompares(base, current, direction, key, place, removed, prior, later, media, f);
    }
  }

  lemma BodyCompares(base: Document, current: Document, key: OperationKey, b: Entry, c: Entry, f: Finding)
    requires !f.Failed?
    ensures f in BodyFindings(base, current, key, b.operation, c.operation) ==> f.key == key
    ensures f.Inside? && f.key == key ==>
              (f in BodyFindings(base, current, key, b.operation, c.operation)
               <==> f.place.InRequestMedia? && Happens(base, current, b, c, f.direction, f.place, f.event))
  {
    var prior, later := ResolveBody(base, b.operation.requestBody), ResolveBody(current, c.operation.requestBody);
    if prior.Success? && later.Success? && prior.value.Some? && later.value.Some? {
      ContentCompares(base, current, Request, key, m => InRequestMedia(m), RequestMediaTypeRemoved,
                      prior.value.value.content, later.value.value.content, f);
    }
    hide ResolveBody, ContentFindings, MediaHappens;
  }

  lemma StatusCompares(base: Document, current: Document, key: OperationKey, b: Entry, c: Entry, status: string,
                       f: Finding)
    requires !f.Failed? && status in b.operation.responses
    ensures var findings := StatusFindings(base, current, key, b.operation, c.operation, status);
            && (f in findings ==> f.key == key)
            && (f in findings && f.Inside? ==> f.place.InResponseMedia? && f.place.status == status)
            && (f.Inside? && f.key == key && f.place.InResponseMedia? && f.place.status == status ==>
                  (f in findings <==> Happens(base, current, b, c, f.direction, f.place, f.event)))
  {
    var bs, cs := b.operation, c.operation;
    if status in cs.responses {
      var prior, later := Resolve(base.responses, bs.responses[status]),
                          Resolve(current.responses, cs.responses[status]);
      if prior.Success? && later.Success? {
        ContentCompares(base, current, Response, key, m => InResponseMedia(status, m), ResponseMediaTypeRemoved,
                        prior.value, later.value, f);
      }
    }
    hide Resolve, ContentFindings, MediaHappens;
  }

  lemma ResponsesCompare(base: Document, current: Document, key: OperationKey, b: Entry, c: Entry, f: Finding)
    requires !f.Failed?
    ensures f in ResponseFindings(base, current, key, b.operation, c.operation) ==> f.key == key
    ensures f.Inside? && f.key == key ==>
              (f in ResponseFindings(base, current, key, b.operation, c.operation)
               <==> f.place.InResponseMedia? && Happens(base, current, b, c, f.direction, f.place, f.event))
  {
    forall status | status in b.operation.responses
      ensures var findings := StatusFindings(base, current, key, b.operation, c.operation, status);
              && (f in findings ==> f.key == key)
              && (f in findings && f.Inside? ==> f.place.InResponseMedia? && f.place.status == status)
              && (f.Inside? && f.key == key && f.place.InResponseMedia? && f.place.status == status ==>
                    (f in findings <==> Happens(base, current, b, c, f.direction, f.place, f.event)))
    {
      StatusCompares(base, current, key, b, c, status, f);
    }
    if f.Inside? && f.place.InResponseMedia? && Happens(base, current, b, c, f.direction, f.place, f.event) {
      assert f.place.status in b.operation.responses;
    }
    hide StatusFindings, Happens;
  }

  /** Every finding of two operations is under their key, and they find exactly what comparing their schemas does. */
  lemma OperationCompares(base: Document, current: Document, key: OperationKey, b: Entry, c: Entry, f: Finding)
    requires !f.Failed?
    ensures f in OperationFindings(base, current, key, b, c) ==> f.key == key
    ensures f.Inside? && f.key == key ==>
              (f in OperationFindings(base, current, key, b, c)
               <==> Happens(base, current, b, c, f.direction, f.place, f.event))
  {
    ParametersCompare(base, current, key, b, c, f);
    BodyCompares(base, current, key, b, c, f);
    ResponsesCompare(base, current, key, b, c, f);
    assert f in IdFindings(key, b.operation, c.operation) ==> f.Outside? && f.key == key;
    assert f in SecurityFindings(base, current, key, b.operation, c.operation) ==> f.Outside? && f.key == key;
    assert f.Inside? && Happens(base, current, b, c, f.direction, f.place, f.event)
           ==> f.place.InParameter? || f.place.InRequestMedia? || f.place.InResponseMedia?;
    hide Happens, IdFindings, SecurityFindings, ParameterFindings, BodyFindings, ResponseFindings;
  }

  // ----- which parameters are the same -----

  predicate InTemplate(parameter: Parameter, pathNames: seq<string>) {
    parameter.location == "path" && parameter.name in pathNames
  }

  /** The position of a name's first variable in the template. */
  predicate IsPosition(pathNames: seq<string>, name: string, i: nat) {
    i < |pathNames| && pathNames[i] == name && forall j :: 0 <= j < i ==> pathNames[j] != name
  }

  predicate IsCapitalOf(capital: char, small: char) {
    'A' <= capital <= 'Z' && small as int == capital as int + 32
  }

  /** The same but for the case of letters. */
  predicate SameLetters(s: string, t: string) {
    |s| == |t| && forall i :: 0 <= i < |s| ==> s[i] == t[i] || IsCapitalOf(s[i], t[i]) || IsCapitalOf(t[i], s[i])
  }

  lemma LowerIsExact(s: string, t: string)
    ensures ToLower(s) == ToLower(t) <==> SameLetters(s, t)
  {
    var l, r := ToLower(s), ToLower(t);
    if |s| == |t| {
      forall i | 0 <= i < |s|
        ensures l[i] == r[i] <==> s[i] == t[i] || IsCapitalOf(s[i], t[i]) || IsCapitalOf(t[i], s[i]) {
      }
      assert l == r <==> forall i :: 0 <= i < |s| ==> l[i] == r[i];
    }
  }

  lemma PositionIsExact(pathNames: seq<string>, name: string, i: nat)
    requires name in pathNames
    ensures IndexOf(pathNames, name) == i <==> IsPosition(pathNames, name, i)
  {
    IndexOfIsFirst(pathNames, name);
    if IsPosition(pathNames, name, i) {
      IndexOfIs(pathNames, name, i);
    }
  }

  /**
    Two parameters are the same to the comparison exactly when they stand at the same position of
    both path templates, are headers whose names differ in case only, or agree on location and name.
   */
  lemma KeyOfIsExact(p: Parameter, pathNames: seq<string>, q: Parameter, otherNames: seq<string>)
    ensures KeyOf(p, pathNames) == KeyOf(q, otherNames)
         <==> if InTemplate(p, pathNames) || InTemplate(q, otherNames)
              then && InTemplate(p, pathNames) && InTemplate(q, otherNames)
                   && exists i :: IsPosition(pathNames, p.name, i) && IsPosition(otherNames, q.name, i)
              else && p.location == q.location
                   && if p.location == "header" then SameLetters(p.name, q.name) else p.name == q.name
  {
    LowerIsExact(p.name, q.name);
    if InTemplate(p, pathNames) && InTemplate(q, otherNames) {
      var i := IndexOf(pathNames, p.name);
      PositionIsExact(pathNames, p.name, i);
      PositionIsExact(otherNames, q.name, i);
      if k :| IsPosition(pathNames, p.name, k) && IsPosition(otherNames, q.name, k) {
        PositionIsExact(pathNames, p.name, k);
        PositionIsExact(otherNames, q.name, k);
      }
    }
    hide ToLower, SameLetters, IsPosition, IndexOf;
  }

  // ----- the whole comparison -----

  /**
    A rule is reported outside schemas exactly when an operation is gone, or is due the rule at that
    place; and schemas are compared exactly where two operations with one key both have them.
   */
  lemma FindingsAreExact(base: Document, current: Document, prefixes: seq<string>, f: Finding)
    requires Operations(base, base.paths, prefixes).Success? && Operations(current, current.paths, prefixes).Success?
    ensures var bs := Operations(base, base.paths, prefixes).value;
            var cs := Operations(current, current.paths, prefixes).value;
            && (f.Outside? ==>
                  (f in Findings(base, current, prefixes)
                   <==> && f.key in bs
                        && if f.key in cs then Due(base, current, bs[f.key], cs[f.key], f.rule, f.place)
                           else f.rule.OperationRemoved? && f.place.Whole?))
            && (f.Inside? ==>
                  (f in Findings(base, current, prefixes)
                   <==> && f.key in bs && f.key in cs
                        && Happens(base, current, bs[f.key], cs[f.key], f.direction, f.place, f.event)))
  {
    var bs, cs := Operations(base, base.paths, prefixes).value, Operations(current, current.paths, prefixes).value;
    hide Operations, OperationFindings, Due, Happens;
    if !f.Failed? {
      if f.key in bs && f.key in cs {
        OperationCompares(base, current, f.key, bs[f.key], cs[f.key], f);
        if f.Outside? {
          OperationIsExact(base, current, f.key, bs[f.key], cs[f.key], f.rule, f.place);
        }
      }
      if f in Findings(base, current, prefixes) {
        var k :| k in bs && f in KeyFindings(base, current, bs, cs, k);
        if k in cs {
          OperationCompares(base, current, k, bs[k], cs[k], f);
        }
      } else if f.key in bs {
        assert f !in KeyFindings(base, current, bs, cs, f.key);
      }
    }
  }
}
