/**
  What a comparison without findings means for a client written against the base document: every
  call it may make is served by the current document, and every reply it may get is one it expects.
 */
module DocumentContract {
  import opened Wrappers
  import opened Resolution
  import opened Schemas
  import opened Reports
  import opened Security
  import opened OpenApiDocument
  import opened Conformance
  import SchemaComparison
  import SchemaRules
  import SchemaSoundness

  datatype Call = Call(credentials: Requirement, arguments: map<ParameterKey, Json>, body: Option<(string, Json)>)

  datatype Reply = Reply(status: string, media: string, value: Json)

  // ----- both sides of the contract -----

  /** A call a client of the document makes: accepted credentials, and only declared, conforming parts. */
  ghost predicate Sends(m: Meaning, d: Document, reading: Reading, steps: nat, entry: Entry, call: Call) {
    && Admits(d.security, entry.operation.security, call.credentials)
    && Parameters(d, entry).Success?
    && SendsArguments(m, d, reading, steps, Parameters(d, entry).value, call.arguments)
    && ResolveBody(d, entry.operation.requestBody).Success?
    && SendsBody(m, d, reading, steps, ResolveBody(d, entry.operation.requestBody).value, call.body)
  }

  ghost predicate SendsArguments(m: Meaning, d: Document, reading: Reading, steps: nat,
                                 declared: map<ParameterKey, Parameter>, arguments: map<ParameterKey, Json>) {
    && (forall key <- declared :: declared[key].required ==> key in arguments)
    && (forall key <- arguments :: key in declared
          && Conforms(m, d.schemas, reading, steps, ParameterSchema(declared[key]), arguments[key]))
  }

  ghost predicate SendsBody(m: Meaning, d: Document, reading: Reading, steps: nat, declared: Option<RequestBody>,
                            body: Option<(string, Json)>) {
    if declared.None? then body.None?
    else ServesBody(m, d, reading, steps, declared, body)
  }

  /** A call the document serves; arguments and bodies it does not declare are ignored. */
  ghost predicate Serves(m: Meaning, d: Document, reading: Reading, steps: nat, entry: Entry, call: Call) {
    && Admits(d.security, entry.operation.security, call.credentials)
    && Parameters(d, entry).Success?
    && ServesArguments(m, d, reading, steps, Parameters(d, entry).value, call.arguments)
    && ResolveBody(d, entry.operation.requestBody).Success?
    && ServesBody(m, d, reading, steps, ResolveBody(d, entry.operation.requestBody).value, call.body)
  }

  ghost predicate ServesArguments(m: Meaning, d: Document, reading: Reading, steps: nat,
                                  declared: map<ParameterKey, Parameter>, arguments: map<ParameterKey, Json>) {
    forall key <- declared ::
      && (declared[key].required ==> key in arguments)
      && (key in arguments ==> Conforms(m, d.schemas, reading, steps, ParameterSchema(declared[key]), arguments[key]))
  }

  ghost predicate ServesBody(m: Meaning, d: Document, reading: Reading, steps: nat, declared: Option<RequestBody>,
                             body: Option<(string, Json)>) {
    declared.Some? ==>
      && (declared.value.required ==> body.Some?)
      && (body.Some? ==>
            && body.value.0 in declared.value.content
            && Conforms(m, d.schemas, reading, steps, SchemaOr(declared.value.content[body.value.0]), body.value.1))
  }

  /** A reply the document's operation may give. */
  ghost predicate Returns(m: Meaning, d: Document, reading: Reading, steps: nat, entry: Entry, reply: Reply) {
    && reply.status in entry.operation.responses
    && var content := Resolve(d.responses, entry.operation.responses[reply.status]);
    && content.Success?
    && reply.media in content.value
    && Conforms(m, d.schemas, reading, steps, SchemaOr(content.value[reply.media]), reply.value)
  }

  /**
    A reply a client of the document can handle: a success status is a documented one, and the value
    under a documented status and media type is what the schema says.
   */
  ghost predicate Expects(m: Meaning, d: Document, reading: Reading, steps: nat, entry: Entry, reply: Reply) {
    && (IsSuccess(reply.status) ==> reply.status in entry.operation.responses)
    && (reply.status in entry.operation.responses ==>
          var content := Resolve(d.responses, entry.operation.responses[reply.status]);
          && content.Success?
          && (reply.media in content.value
              ==> Conforms(m, d.schemas, reading, steps, SchemaOr(content.value[reply.media]), reply.value)))
  }

  /**
    Clients of the base operation can use the current one: every call they make is served, and every
    reply they get is expected.
   */
  ghost predicate Protects(m: Meaning, base: Document, current: Document, added: Keywords -> set<string>, steps: nat,
                           b: Entry, c: Entry) {
    && (forall call :: Sends(m, base, Strict(added), steps, b, call)
          ==> Serves(m, current, Strict(NoNames), steps, c, call))
    && (forall reply :: Returns(m, current, Strict(NoNames), steps, c, reply)
          ==> Expects(m, base, Tolerant(added), steps, b, reply))
  }

  // ----- a clean comparison -----

  /** Nothing is reported or raised, and every schema comparison meets what soundness takes for granted. */
  ghost predicate CleanFinding(added: Keywords -> set<string>, finding: Finding) {
    && finding.Inside?
    && !finding.event.Raised?
    && SchemaSoundness.Granted(finding.direction, added, finding.event)
    && (finding.event.Compared? ==>
          SchemaRules.LocalBreaks(finding.direction, finding.event.base, finding.event.current, finding.event.pointer)
              == {})
  }

  ghost predicate Clean(added: Keywords -> set<string>, findings: set<Finding>) {
    forall finding <- findings :: CleanFinding(added, finding)
  }

  lemma CleanSchema(base: Document, current: Document, added: Keywords -> set<string>, direction: Direction,
                    key: OperationKey, place: Place, b: Schema, c: Schema)
    requires Clean(added, SchemaFindings(base, current, direction, key, place, b, c))
    ensures var events := SchemaComparison.Walk(SchemaDocs(base, current), b, c, [], {});
            SchemaSoundness.NoBreaks(direction, events) && SchemaSoundness.AllGranted(direction, added, events)
  {
    hide SchemaRules.LocalBreaks, SchemaSoundness.Granted, SchemaComparison.Walk;
    var events := SchemaComparison.Walk(SchemaDocs(base, current), b, c, [], {});
    forall event | event in events ensures CleanFinding(added, Inside(direction, key, place, event)) {
      assert Inside(direction, key, place, event) in SchemaFindings(base, current, direction, key, place, b, c);
    }
  }

  lemma SendCarries(m: Meaning, base: Document, current: Document, added: Keywords -> set<string>, key: OperationKey,
                    place: Place, b: Schema, c: Schema, steps: nat, value: Json)
    requires !m.exclusive && Clean(added, SchemaFindings(base, current, Request, key, place, b, c))
    requires Conforms(m, base.schemas, Strict(added), steps, b, value)
    ensures Conforms(m, current.schemas, Strict(NoNames), steps, c, value)
  {
    hide SchemaComparison.Walk, SchemaSoundness.NoBreaks, SchemaSoundness.AllGranted, Conforms, SchemaFindings,
         CleanFinding;
    CleanSchema(base, current, added, Request, key, place, b, c);
    SchemaSoundness.RequestSoundness(m, SchemaDocs(base, current), added, b, c, [], steps, value);
  }

  lemma ReplyCarries(m: Meaning, base: Document, current: Document, added: Keywords -> set<string>, key: OperationKey,
                     place: Place, b: Schema, c: Schema, steps: nat, value: Json)
    requires !m.exclusive && Clean(added, SchemaFindings(base, current, Response, key, place, b, c))
    requires Conforms(m, current.schemas, Strict(NoNames), steps, c, value)
    ensures Conforms(m, base.schemas, Tolerant(added), steps, b, value)
  {
    hide SchemaComparison.Walk, SchemaSoundness.NoBreaks, SchemaSoundness.AllGranted, Conforms, SchemaFindings,
         CleanFinding;
    CleanSchema(base, current, added, Response, key, place, b, c);
    SchemaSoundness.ResponseSoundness(m, SchemaDocs(base, current), added, b, c, [], steps, value);
  }

  // ----- the parts of one operation -----

  lemma CleanIsInside(added: Keywords -> set<string>, findings: set<Finding>)
    requires Clean(added, findings)
    ensures forall finding <- findings :: finding.Inside?
  {
    assert forall finding <- findings :: CleanFinding(added, finding);
  }

  lemma LostIsReported(base: Document, current: Document, key: OperationKey, b: Operation, c: Operation)
    ensures LostOptions(SecurityOptions(base.security, b.security), SecurityOptions(current.security, c.security)) != []
            ==> exists finding <- SecurityFindings(base, current, key, b, c) :: finding.Outside?
  {
    var lost := LostOptions(SecurityOptions(base.security, b.security), SecurityOptions(current.security, c.security));
    if lost != [] {
      assert Outside(SecurityChanged, key, SecurityOption(lost[0])) in SecurityFindings(base, current, key, b, c);
    }
  }

  lemma SecurityServed(base: Document, current: Document, added: Keywords -> set<string>, key: OperationKey,
                       b: Operation, c: Operation, sent: Requirement)
    requires Clean(added, SecurityFindings(base, current, key, b, c))
    requires Admits(base.security, b.security, sent)
    ensures Admits(current.security, c.security, sent)
  {
    OptionsAdmit(base.security, b.security, sent);
    OptionsAdmit(current.security, c.security, sent);
    hide Admits;
    var bs, cs := SecurityOptions(base.security, b.security), SecurityOptions(current.security, c.security);
    CompareSecurityIsExact(bs, cs);
    LostIsReported(base, current, key, b, c);
    CleanIsInside(added, SecurityFindings(base, current, key, b, c));
  }

  lemma ArgumentsServed(m: Meaning, base: Document, current: Document, added: Keywords -> set<string>,
                        key: OperationKey, b: Entry, c: Entry, steps: nat, arguments: map<ParameterKey, Json>)
    requires !m.exclusive && Clean(added, ParameterFindings(base, current, key, b, c))
    requires Parameters(base, b).Success?
    requires SendsArguments(m, base, Strict(added), steps, Parameters(base, b).value, arguments)
    ensures Parameters(current, c).Success?
    ensures ServesArguments(m, current, Strict(NoNames), steps, Parameters(current, c).value, arguments)
  {
    hide Parameters, CleanFinding, Conforms, ParameterSchema;
    var findings := ParameterFindings(base, current, key, b, c);
    CleanIsInside(added, findings);
    assert Parameters(current, c).Success?;
    var bs, cs := Parameters(base, b).value, Parameters(current, c).value;
    forall k | k in cs
      ensures cs[k].required ==> k in arguments
      ensures k in arguments
           ==> Conforms(m, current.schemas, Strict(NoNames), steps, ParameterSchema(cs[k]), arguments[k])
    {
      assert NewlyRequired(bs, cs, k) ==> Outside(ParameterRequired, key, InParameter(k)) in findings;
      if k in arguments {
        assert SchemaFindings(base, current, Request, key, InParameter(k), ParameterSchema(bs[k]),
                              ParameterSchema(cs[k])) <= findings;
        SendCarries(m, base, current, added, key, InParameter(k), ParameterSchema(bs[k]), ParameterSchema(cs[k]), steps,
                    arguments[k]);
      }
    }
  }

  lemma BodyServed(m: Meaning, base: Document, current: Document, added: Keywords -> set<string>, key: OperationKey,
                   b: Operation, c: Operation, steps: nat, body: Option<(string, Json)>)
    requires !m.exclusive && Clean(added, BodyFindings(base, current, key, b, c))
    requires ResolveBody(base, b.requestBody).Success?
    requires SendsBody(m, base, Strict(added), steps, ResolveBody(base, b.requestBody).value, body)
    ensures ResolveBody(current, c.requestBody).Success?
    ensures ServesBody(m, current, Strict(NoNames), steps, ResolveBody(current, c.requestBody).value, body)
  {
    hide ResolveBody, CleanFinding, Conforms, SchemaOr;
    var findings := BodyFindings(base, current, key, b, c);
    CleanIsInside(added, findings);
    assert ResolveBody(current, c.requestBody).Success?;
    var bb, cb := ResolveBody(base, b.requestBody).value, ResolveBody(current, c.requestBody).value;
    if cb.Some? {
      assert cb.value.required && (bb.None? || !bb.value.required)
          ==> Outside(RequestBodyRequired, key, InRequest) in findings;
      if bb.Some? && body.Some? {
        var media := body.value.0;
        var place := m => InRequestMedia(m);
        var contents :=
            ContentFindings(base, current, Request, key, place, RequestMediaTypeRemoved, bb.value.content,
                            cb.value.content);
        assert contents <= findings;
        assert media !in cb.value.content ==> Outside(RequestMediaTypeRemoved, key, place(media)) in contents;
        var bm, cm := SchemaOr(bb.value.content[media]), SchemaOr(cb.value.content[media]);
        assert SchemaFindings(base, current, Request, key, place(media), bm, cm) <= contents;
        SendCarries(m, base, current, added, key, place(media), bm, cm, steps, body.value.1);
      }
    }
  }

  lemma ReplyExpected(m: Meaning, base: Document, current: Document, added: Keywords -> set<string>, key: OperationKey,
                      b: Entry, c: Entry, steps: nat, reply: Reply)
    requires !m.exclusive && Clean(added, ResponseFindings(base, current, key, b.operation, c.operation))
    requires Returns(m, current, Strict(NoNames), steps, c, reply)
    ensures Expects(m, base, Tolerant(added), steps, b, reply)
  {
    hide CleanFinding, Conforms, SchemaOr, Resolve, IsSuccess;
    var findings := ResponseFindings(base, current, key, b.operation, c.operation);
    var status, media := reply.status, reply.media;
    CleanIsInside(added, findings);
    if status !in b.operation.responses {
      assert IsSuccess(status) ==> Outside(SuccessStatusAdded, key, InResponse(status)) in findings;
    } else {
      var found := StatusFindings(base, current, key, b.operation, c.operation, status);
      assert found <= findings;
      var bc := Resolve(base.responses, b.operation.responses[status]);
      assert bc.Success?;
      var cc := Resolve(current.responses, c.operation.responses[status]);
      if media in bc.value {
        var place := m => InResponseMedia(status, m);
        var bm, cm := SchemaOr(bc.value[media]), SchemaOr(cc.value[media]);
        assert SchemaFindings(base, current, Response, key, place(media), bm, cm) <= found;
        ReplyCarries(m, base, current, added, key, place(media), bm, cm, steps, reply.value);
      }
    }
  }

  lemma CleanOperation(base: Document, current: Document, added: Keywords -> set<string>, prefixes: seq<string>,
                       key: OperationKey)
    requires Clean(added, Findings(base, current, prefixes))
    ensures var bs, cs := Operations(base, base.paths, prefixes), Operations(current, current.paths, prefixes);
            && bs.Success? && cs.Success?
            && (key in bs.value
                ==> key in cs.value
                    && Clean(added, OperationFindings(base, current, key, bs.value[key], cs.value[key])))
  {
    hide Operations, OperationFindings, CleanFinding;
    CleanIsInside(added, Findings(base, current, prefixes));
    var bs, cs := Operations(base, base.paths, prefixes), Operations(current, current.paths, prefixes);
    assert bs.Success? && cs.Success?;
    if key in bs.value {
      assert KeyFindings(base, current, bs.value, cs.value, key) <= Findings(base, current, prefixes);
      assert key in cs.value;
    }
  }

  /**
    A clean comparison protects clients. For every operation of the base document, the current
    document has the operation, serves every call a base client makes, and gives only replies a base
    client expects.
   */
  lemma CleanComparisonProtectsClients(m: Meaning, base: Document, current: Document, added: Keywords -> set<string>,
                                       prefixes: seq<string>, key: OperationKey, steps: nat)
    requires !m.exclusive && Clean(added, Findings(base, current, prefixes))
    ensures var bs, cs := Operations(base, base.paths, prefixes), Operations(current, current.paths, prefixes);
            && bs.Success? && cs.Success?
            && (key in bs.value ==>
                  key in cs.value && Protects(m, base, current, added, steps, bs.value[key], cs.value[key]))
  {
    CleanOperation(base, current, added, prefixes, key);
    hide Operations, SecurityFindings, ParameterFindings, BodyFindings, ResponseFindings, CleanFinding, Returns,
         Expects, SendsArguments, ServesArguments, SendsBody, ServesBody, Admits, Parameters, ResolveBody;
    var bs, cs := Operations(base, base.paths, prefixes).value, Operations(current, current.paths, prefixes).value;
    if key in bs {
      var b, c := bs[key], cs[key];
      forall call | Sends(m, base, Strict(added), steps, b, call)
        ensures Serves(m, current, Strict(NoNames), steps, c, call)
      {
        SecurityServed(base, current, added, key, b.operation, c.operation, call.credentials);
        ArgumentsServed(m, base, current, added, key, b, c, steps, call.arguments);
        BodyServed(m, base, current, added, key, b.operation, c.operation, steps, call.body);
      }
      forall reply | Returns(m, current, Strict(NoNames), steps, c, reply)
        ensures Expects(m, base, Tolerant(added), steps, b, reply)
      {
        ReplyExpected(m, base, current, added, key, b, c, steps, reply);
      }
    }
  }
}
