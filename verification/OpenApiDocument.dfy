/**
  Comparing two whole documents: operations, security, parameters, request bodies and responses.

  As for schemas, a comparison is described by the set of what it finds: breaks outside schemas,
  everything each schema comparison visits, and resolution errors.
 */
module OpenApiDocument {
  import opened Wrappers
  import opened Resolution
  import opened Schemas
  import opened Reports
  import opened Security
  import opened PathTemplates
  import opened Text
  import SchemaComparison

  datatype Method = GET | PUT | POST | DELETE | OPTIONS | HEAD | PATCH | TRACE

  type Content = map<string, Option<Schema>>

  datatype Parameter = Parameter(location: string, name: string, required: bool, schema: Option<Schema>,
                                 content: seq<Option<Schema>>)

  datatype RequestBody = RequestBody(required: bool, content: Content)

  datatype Operation = Operation(
    operationId: Option<string>,
    security: Option<seq<Requirement>>,
    parameters: seq<Node<Parameter>>,
    requestBody: Option<Node<RequestBody>>,
    responses: map<string, Node<Content>>
  )

  datatype PathItem = PathItem(parameters: seq<Node<Parameter>>, operations: map<Method, Operation>)

  /** A document: its reference targets by what they hold, the document-wide security, and the paths in order. */
  datatype Document = Document(
    schemas: Components<Body>,
    parameters: Components<Parameter>,
    bodies: Components<RequestBody>,
    responses: Components<Content>,
    items: Components<PathItem>,
    security: Option<seq<Requirement>>,
    paths: seq<(string, Node<PathItem>)>
  )

  // ----- operations -----

  type OperationKey = (Method, string)

  datatype Entry = Entry(path: string, item: PathItem, operation: Operation)

  predicate Selected(prefixes: seq<string>, path: string) {
    prefixes == [] || exists i :: 0 <= i < |prefixes| && prefixes[i] <= path
  }

  const METHODS: seq<Method> := [GET, PUT, POST, DELETE, OPTIONS, HEAD, PATCH, TRACE]

  /** The entries of one path item for some methods, by method and normalized path. */
  function Entries(path: string, item: PathItem, verbs: seq<Method>): map<OperationKey, Entry> {
    if verbs == [] then map[]
    else
      var front, last := Entries(path, item, verbs[..|verbs| - 1]), verbs[|verbs| - 1];
      if last !in item.operations then front
      else front[(last, NormalizedPath(path)) := Entry(path, item, item.operations[last])]
  }

  function ItemEntries(path: string, item: PathItem): map<OperationKey, Entry> {
    Entries(path, item, METHODS)
  }

  lemma {:induction false} EntriesMean(path: string, item: PathItem, verbs: seq<Method>)
    ensures var r := Entries(path, item, verbs);
            && (forall key :: key in r
                              <==> key.0 in verbs && key.0 in item.operations && key.1 == NormalizedPath(path))
            && (forall key :: key in r ==> r[key] == Entry(path, item, item.operations[key.0]))
  {
    if verbs != [] {
      hide NormalizedPath;
      EntriesMean(path, item, verbs[..|verbs| - 1]);
      assert verbs == verbs[..|verbs| - 1] + [verbs[|verbs| - 1]];
    }
  }

  lemma EveryMethod(verb: Method)
    ensures verb in METHODS
  {
  }

  /** A path item has an entry for each of its operations, and no other. */
  lemma ItemEntriesMean(path: string, item: PathItem)
    ensures var r := ItemEntries(path, item);
            && (forall key :: key in r <==> key.0 in item.operations && key.1 == NormalizedPath(path))
            && (forall key :: key in r ==> r[key] == Entry(path, item, item.operations[key.0]))
  {
    EntriesMean(path, item, METHODS);
    hide Entries, NormalizedPath, METHODS;
    forall verb: Method ensures verb in METHODS {
      EveryMethod(verb);
    }
  }

  /** Later paths win over earlier ones with the same normalized form. */
  function Operations(d: Document, paths: seq<(string, Node<PathItem>)>,
                      prefixes: seq<string>): Result<map<OperationKey, Entry>, ResolveError> {
    if paths == [] then Success(map[])
    else
      var front, last := paths[..|paths| - 1], paths[|paths| - 1];
      match Operations(d, front, prefixes)
      case Failure(error) => Failure(error)
      case Success(found) =>
        if !Selected(prefixes, last.0) then Success(found)
        else match Resolve(d.items, last.1)
             case Failure(error) => Failure(error)
             case Success(item) => Success(found + ItemEntries(last.0, item))
  }

  // ----- parameters -----

  datatype ParameterKey = ByPosition(index: nat) | ByHeader(lowered: string) | ByName(location: string, name: string)

  function ToLower(s: string): string {
    seq(|s|, i requires 0 <= i < |s| => if 'A' <= s[i] <= 'Z' then s[i] + 32 as char else s[i])
  }

  function KeyOf(parameter: Parameter, pathNames: seq<string>): ParameterKey {
    if parameter.location == "path" && parameter.name in pathNames then ByPosition(IndexOf(pathNames, parameter.name))
    else if parameter.location == "header" then ByHeader(ToLower(parameter.name))
    else ByName(parameter.location, parameter.name)
  }

  /** Later parameters replace earlier ones with the same key. */
  function MergeParameters(components: Components<Parameter>, nodes: seq<Node<Parameter>>, pathNames: seq<string>)
    : Result<map<ParameterKey, Parameter>, ResolveError>
  {
    if nodes == [] then Success(map[])
    else
      match MergeParameters(components, nodes[..|nodes| - 1], pathNames)
      case Failure(error) => Failure(error)
      case Success(merged) =>
        match Resolve(components, nodes[|nodes| - 1])
        case Failure(error) => Failure(error)
        case Success(parameter) => Success(merged[KeyOf(parameter, pathNames) := parameter])
  }

  function Parameters(d: Document, entry: Entry): Result<map<ParameterKey, Parameter>, ResolveError> {
    MergeParameters(d.parameters, entry.item.parameters + entry.operation.parameters, PathNames(entry.path))
  }

  /** A missing schema places no demand on the value. */
  function SchemaOr(schema: Option<Schema>): Schema {
    if schema.Some? then schema.value else Here(Flag(true))
  }

  function ParameterSchema(parameter: Parameter): Schema {
    if parameter.schema.Some? then parameter.schema.value
    else if parameter.content != [] then SchemaOr(parameter.content[0])
    else Here(Flag(true))
  }

  // ----- what a comparison finds -----

  datatype Place =
    | Whole
    | SecurityOption(option: Requirement)
    | InParameter(key: ParameterKey)
    | InRequest
    | InRequestMedia(media: string)
    | InResponse(status: string)
    | InResponseMedia(status: string, media: string)

  datatype Finding =
    | Outside(rule: Rule, key: OperationKey, place: Place)
    | Inside(direction: Direction, key: OperationKey, place: Place, event: SchemaComparison.Event)
    | Failed(error: ResolveError)

  function SchemaDocs(base: Document, current: Document): SchemaComparison.Documents {
    SchemaComparison.Documents(base.schemas, current.schemas)
  }

  ghost function SchemaFindings(base: Document, current: Document, direction: Direction, key: OperationKey,
                                place: Place, b: Schema, c: Schema): set<Finding> {
    set event | event in SchemaComparison.Walk(SchemaDocs(base, current), b, c, [], {}) ::
                Inside(direction, key, place, event)
  }

  function IdFindings(key: OperationKey, b: Operation, c: Operation): set<Finding> {
    if b.operationId.Some? && b.operationId != c.operationId then {Outside(OperationIdChanged, key, Whole)} else {}
  }

  function SecurityFindings(base: Document, current: Document, key: OperationKey, b: Operation,
                            c: Operation): set<Finding> {
    set option | option in LostOptions(SecurityOptions(base.security, b.security),
                                       SecurityOptions(current.security, c.security))
      :: Outside(SecurityChanged, key, SecurityOption(option))
  }

  predicate NewlyRequired(b: map<ParameterKey, Parameter>, c: map<ParameterKey, Parameter>, key: ParameterKey) {
    key in c && c[key].required && (key !in b || !b[key].required)
  }

  ghost function ParameterFindings(base: Document, current: Document, key: OperationKey, b: Entry,
                                   c: Entry): set<Finding> {
    match Parameters(base, b)
    case Failure(error) => {Failed(error)}
    case Success(bs) =>
      match Parameters(current, c)
      case Failure(error) => {Failed(error)}
      case Success(cs) =>
        (set k | k in cs && NewlyRequired(bs, cs, k) :: Outside(ParameterRequired, key, InParameter(k)))
        + (set k | k in bs && k !in cs :: Outside(ParameterRemoved, key, InParameter(k)))
        + (set k, f | k in bs && k in cs
             && f in SchemaFindings(base, current, Request, key, InParameter(k), ParameterSchema(bs[k]),
                                    ParameterSchema(cs[k])) :: f)
  }

  ghost function ContentFindings(base: Document, current: Document, direction: Direction, key: OperationKey,
                                 place: string -> Place, removed: Rule, b: Content, c: Content): set<Finding> {
    (set media | media in b && media !in c :: Outside(removed, key, place(media)))
    + (set media, f | media in b && media in c
         && f in SchemaFindings(base, current, direction, key, place(media), SchemaOr(b[media]), SchemaOr(c[media])) ::
               f)
  }

  function ResolveBody(d: Document, body: Option<Node<RequestBody>>): Result<Option<RequestBody>, ResolveError> {
    if body.None? then Success(None)
    else match Resolve(d.bodies, body.value)
         case Failure(error) => Failure(error)
         case Success(value) => Success(Some(value))
  }

  ghost function BodyFindings(base: Document, current: Document, key: OperationKey, b: Operation,
                              c: Operation): set<Finding> {
    match ResolveBody(base, b.requestBody)
    case Failure(error) => {Failed(error)}
    case Success(bb) =>
      match ResolveBody(current, c.requestBody)
      case Failure(error) => {Failed(error)}
      case Success(cb) =>
        (if cb.Some? && cb.value.required && (bb.None? || !bb.value.required)
         then {Outside(RequestBodyRequired, key, InRequest)} else {})
        + (if bb.None? || cb.None? then {}
           else ContentFindings(base, current, Request, key, m => InRequestMedia(m), RequestMediaTypeRemoved,
                                bb.value.content, cb.value.content))
  }

  /** `2XX` or 2 and two digits. */
  predicate IsSuccess(status: string) {
    |status| == 3 && status[0] == '2'
    && (status == "2XX" || ('0' <= status[1] <= '9' && '0' <= status[2] <= '9'))
  }

  ghost function ResponseFindings(base: Document, current: Document, key: OperationKey, b: Operation,
                                  c: Operation): set<Finding> {
    (set status | status in c.responses && status !in b.responses
                  && IsSuccess(status) :: Outside(SuccessStatusAdded, key, InResponse(status)))
    + (set status, f | status in b.responses && f in StatusFindings(base, current, key, b, c, status) :: f)
  }

  ghost function StatusFindings(base: Document, current: Document, key: OperationKey, b: Operation, c: Operation,
                                status: string): set<Finding>
    requires status in b.responses
  {
    if status !in c.responses then {Outside(ResponseRemoved, key, InResponse(status))}
    else
      match Resolve(base.responses, b.responses[status])
      case Failure(error) => {Failed(error)}
      case Success(bc) =>
        match Resolve(current.responses, c.responses[status])
        case Failure(error) => {Failed(error)}
        case Success(cc) => ContentFindings(base, current, Response, key, m => InResponseMedia(status, m),
                                            ResponseMediaTypeRemoved, bc, cc)
  }

  ghost function OperationFindings(base: Document, current: Document, key: OperationKey, b: Entry,
                                   c: Entry): set<Finding> {
    IdFindings(key, b.operation, c.operation)
    + SecurityFindings(base, current, key, b.operation, c.operation)
    + ParameterFindings(base, current, key, b, c)
    + BodyFindings(base, current, key, b.operation, c.operation)
    + ResponseFindings(base, current, key, b.operation, c.operation)
  }

  ghost function KeyFindings(base: Document, current: Document, bs: map<OperationKey, Entry>,
                             cs: map<OperationKey, Entry>, key: OperationKey): set<Finding>
    requires key in bs
  {
    if key in cs then OperationFindings(base, current, key, bs[key], cs[key])
    else {Outside(OperationRemoved, key, Whole)}
  }

  ghost function Findings(base: Document, current: Document, prefixes: seq<string>): set<Finding> {
    match Operations(base, base.paths, prefixes)
    case Failure(error) => {Failed(error)}
    case Success(bs) =>
      match Operations(current, current.paths, prefixes)
      case Failure(error) => {Failed(error)}
      case Success(cs) =>
        set key, f | key in bs && f in KeyFindings(base, current, bs, cs, key) :: f
  }
}
