/**
  A document is compatible with itself, and with a copy in which path variables got other names,
  together with the inline parameters that belong to them.
 */
module DocumentRenaming {
  import opened Wrappers
  import opened Resolution
  import opened Schemas
  import opened Reports
  import opened Security
  import opened PathTemplates
  import opened Text
  import opened OpenApiDocument
  import SchemaComparison
  import SchemaRules
  import SchemaReflexivity

  /** The new name of each variable, for each path. */
  type Renaming = string -> string -> string

  function RenameParameter(p: Parameter, names: seq<string>, rename: string -> string): Parameter {
    if p.location == "path" && p.name in names then p.(name := rename(p.name)) else p
  }

  function RenameNodes(nodes: seq<Node<Parameter>>, names: seq<string>,
                       rename: string -> string): (r: seq<Node<Parameter>>)
    ensures |r| == |nodes|
    ensures forall i :: 0 <= i < |r|
              ==> r[i] == if nodes[i].Here? then Here(RenameParameter(nodes[i].value, names, rename)) else nodes[i]
  {
    seq(|nodes|, i requires 0 <= i < |nodes| =>
      if nodes[i].Here? then Here(RenameParameter(nodes[i].value, names, rename)) else nodes[i])
  }

  function RenameOperation(o: Operation, names: seq<string>, rename: string -> string): Operation {
    o.(parameters := RenameNodes(o.parameters, names, rename))
  }

  function RenameItem(item: PathItem, names: seq<string>, rename: string -> string): PathItem {
    PathItem(RenameNodes(item.parameters, names, rename),
             map verb | verb in item.operations :: RenameOperation(item.operations[verb], names, rename))
  }

  function RenamePathEntry(entry: (string, Node<PathItem>), renaming: Renaming): (string, Node<PathItem>) {
    var (path, node) := entry;
    (RenamePath(path, renaming(path)),
     if node.Here? then Here(RenameItem(node.value, PathNames(path), renaming(path))) else node)
  }

  function RenamePaths(paths: seq<(string, Node<PathItem>)>, renaming: Renaming): (r: seq<(string, Node<PathItem>)>)
    ensures |r| == |paths|
    ensures forall i :: 0 <= i < |r| ==> r[i] == RenamePathEntry(paths[i], renaming)
  {
    seq(|paths|, i requires 0 <= i < |paths| => RenamePathEntry(paths[i], renaming))
  }

  function RenameDocument(d: Document, renaming: Renaming): Document {
    d.(paths := RenamePaths(d.paths, renaming))
  }

  // ----- which renamings are allowed -----

  /** The parameter, if it is a path parameter, still belongs to the same variable or to none. */
  predicate KeepsParameter(p: Parameter, names: seq<string>, rename: string -> string, inline: bool) {
    p.location == "path" ==>
      if p.name in names then inline || rename(p.name) == p.name
      else forall i :: 0 <= i < |names| ==> rename(names[i]) != p.name
  }

  predicate KeepsNodes(components: Components<Parameter>, nodes: seq<Node<Parameter>>, names: seq<string>,
                       rename: string -> string) {
    forall i :: 0 <= i < |nodes| ==>
      Resolve(components, nodes[i]).Success? ==>
        KeepsParameter(Resolve(components, nodes[i]).value, names, rename, nodes[i].Here?)
  }

  predicate RenamesNames(names: seq<string>, rename: string -> string) {
    && (forall i :: 0 <= i < |names| ==> IsName(rename(names[i])))
    && (forall i, j :: 0 <= i < |names| && 0 <= j < |names| && rename(names[i]) == rename(names[j])
          ==> names[i] == names[j])
  }

  ghost predicate KeepsItem(d: Document, path: string, item: PathItem, rename: string -> string) {
    && RenamesNames(PathNames(path), rename)
    && forall verb <- item.operations ::
          KeepsNodes(d.parameters, item.parameters + item.operations[verb].parameters, PathNames(path), rename)
  }

  predicate LeavesNames(names: seq<string>, rename: string -> string) {
    forall i :: 0 <= i < |names| ==> rename(names[i]) == names[i]
  }

  /** Variables of inline path items are renamed one to one; shared path items keep their names. */
  ghost predicate MayRename(d: Document, prefixes: seq<string>, entry: (string, Node<PathItem>), renaming: Renaming) {
    var (path, node) := entry;
    && Selected(prefixes, RenamePath(path, renaming(path))) == Selected(prefixes, path)
    && (node.Here? ==> KeepsItem(d, path, node.value, renaming(path)))
    && (node.Link? ==> LeavesNames(PathNames(path), renaming(path)))
  }

  // ----- parameters -----

  ghost predicate Renamed(names: seq<string>, renamed: seq<string>, rename: string -> string) {
    |renamed| == |names| && forall i :: 0 <= i < |names| ==> renamed[i] == rename(names[i])
  }

  lemma RenamedKey(p: Parameter, names: seq<string>, renamed: seq<string>, rename: string -> string, inline: bool)
    requires Renamed(names, renamed, rename) && RenamesNames(names, rename)
    requires KeepsParameter(p, names, rename, inline)
    ensures KeyOf(if inline then RenameParameter(p, names, rename) else p, renamed) == KeyOf(p, names)
  {
    if p.location == "path" && p.name in names {
      var i := IndexOf(names, p.name);
      IndexOfIsFirst(names, p.name);
      forall j | 0 <= j < i ensures renamed[j] != rename(p.name) {
        assert names[..i][j] != p.name;
      }
      IndexOfIs(renamed, rename(p.name), i);
    }
  }

  /** The same keys, with parameters that agree on everything but the name. */
  ghost predicate SameParameters(b: map<ParameterKey, Parameter>, c: map<ParameterKey, Parameter>) {
    b.Keys == c.Keys && forall key <- b :: c[key].(name := b[key].name) == b[key]
  }

  lemma {:induction false} MergeRenamed(components: Components<Parameter>, nodes: seq<Node<Parameter>>,
                                        names: seq<string>, renamed: seq<string>, rename: string -> string)
    requires Renamed(names, renamed, rename) && RenamesNames(names, rename)
    requires KeepsNodes(components, nodes, names, rename)
    ensures var b := MergeParameters(components, nodes, names);
            var c := MergeParameters(components, RenameNodes(nodes, names, rename), renamed);
            if b.Success? then c.Success? && SameParameters(b.value, c.value) else c.Failure?
  {
    if nodes != [] {
      var front, last := nodes[..|nodes| - 1], nodes[|nodes| - 1];
      MergeRenamed(components, front, names, renamed, rename);
      assert RenameNodes(nodes, names, rename)[..|nodes| - 1] == RenameNodes(front, names, rename);
      var other := RenameNodes(nodes, names, rename)[|nodes| - 1];
      if Resolve(components, last).Success? {
        RenamedKey(Resolve(components, last).value, names, renamed, rename, last.Here?);
        assert last.Here? ==> Resolve(components, other) == Success(other.value);
      }
    }
  }

  // ----- operations -----

  ghost predicate RenamedEntry(d: Document, renaming: Renaming, b: Entry, c: Entry) {
    var names, rename := PathNames(b.path), renaming(b.path);
    && KeepsItem(d, b.path, b.item, rename)
    && (exists verb :: verb in b.item.operations && b.item.operations[verb] == b.operation)
    && c == Entry(RenamePath(b.path, rename), RenameItem(b.item, names, rename),
                  RenameOperation(b.operation, names, rename))
  }

  ghost predicate RenamedEntries(d: Document, renaming: Renaming, b: map<OperationKey, Entry>,
                                 c: map<OperationKey, Entry>) {
    b.Keys == c.Keys && forall key <- b :: RenamedEntry(d, renaming, b[key], c[key])
  }

  lemma LeavesNodes(nodes: seq<Node<Parameter>>, names: seq<string>, rename: string -> string)
    requires LeavesNames(names, rename)
    ensures RenameNodes(nodes, names, rename) == nodes
  {
  }

  lemma LeavesItem(d: Document, path: string, item: PathItem, rename: string -> string)
    requires LeavesNames(PathNames(path), rename)
    ensures RenameItem(item, PathNames(path), rename) == item
    ensures KeepsItem(d, path, item, rename)
  {
    var names := PathNames(path);
    LeavesNodes(item.parameters, names, rename);
    forall verb | verb in item.operations
      ensures RenameOperation(item.operations[verb], names, rename) == item.operations[verb]
    {
      LeavesNodes(item.operations[verb].parameters, names, rename);
    }
    assert RenameItem(item, names, rename).operations == item.operations;
    ScanIsScanned(path);
    ScannedNames(Scan(path));
  }

  lemma {:induction false} ScannedNames(pieces: seq<Piece>)
    requires Scanned(pieces)
    ensures forall name <- Names(pieces) :: IsName(name)
  {
    if pieces != [] {
      ScannedNames(pieces[1..]);
    }
  }

  lemma ItemRenamed(d: Document, renaming: Renaming, path: string, item: PathItem)
    requires KeepsItem(d, path, item, renaming(path))
    ensures RenamedEntries(d, renaming, ItemEntries(path, item),
                           ItemEntries(RenamePath(path, renaming(path)),
                                       RenameItem(item, PathNames(path), renaming(path))))
  {
    hide KeepsItem, RenameOperation;
    var other := RenameItem(item, PathNames(path), renaming(path));
    assert NormalizedPath(RenamePath(path, renaming(path))) == NormalizedPath(path) by {
      KeptNames(d, path, item, renaming(path));
    }
    ItemEntriesMean(path, item);
    ItemEntriesMean(RenamePath(path, renaming(path)), other);
    hide ItemEntries;
    var b, c := ItemEntries(path, item), ItemEntries(RenamePath(path, renaming(path)), other);
    assert b.Keys == c.Keys;
    forall key | key in b ensures RenamedEntry(d, renaming, b[key], c[key]) {
      assert key.0 in item.operations;
    }
  }

  lemma KeptNames(d: Document, path: string, item: PathItem, rename: string -> string)
    requires KeepsItem(d, path, item, rename)
    ensures Renamed(PathNames(path), PathNames(RenamePath(path, rename)), rename)
    ensures NormalizedPath(RenamePath(path, rename)) == NormalizedPath(path)
  {
    RenamedPath(path, rename);
  }

  lemma {:induction false} OperationsRenamed(d: Document, renaming: Renaming, paths: seq<(string, Node<PathItem>)>,
                                             prefixes: seq<string>)
    requires forall i :: 0 <= i < |paths| ==> MayRename(d, prefixes, paths[i], renaming)
    ensures var b := Operations(d, paths, prefixes);
            var c := Operations(RenameDocument(d, renaming), RenamePaths(paths, renaming), prefixes);
            if b.Success? then c.Success? && RenamedEntries(d, renaming, b.value, c.value) else c.Failure?
  {
    hide RenamedEntry, ItemEntries, KeepsItem, Selected;
    if paths != [] {
      var front, last := paths[..|paths| - 1], paths[|paths| - 1];
      OperationsRenamed(d, renaming, front, prefixes);
      assert RenamePaths(paths, renaming)[..|paths| - 1] == RenamePaths(front, renaming);
      var other := RenamePathEntry(last, renaming);
      assert RenamePaths(paths, renaming)[|paths| - 1] == other;
      assert MayRename(d, prefixes, last, renaming);
      if Resolve(d.items, last.1).Success? {
        var item := Resolve(d.items, last.1).value;
        if last.1.Link? {
          LeavesItem(d, last.0, item, renaming(last.0));
        }
        assert Resolve(d.items, other.1) == Success(RenameItem(item, PathNames(last.0), renaming(last.0)));
        ItemRenamed(d, renaming, last.0, item);
      } else {
        assert other.1 == last.1;
      }
    }
  }

  // ----- documents whose references can be resolved -----

  ghost predicate ContentResolves(d: Document, content: Content) {
    forall media <- content :: SchemaReflexivity.AllResolve(d.schemas, SchemaOr(content[media]))
  }

  ghost predicate NodesResolve(d: Document, nodes: seq<Node<Parameter>>) {
    forall i :: 0 <= i < |nodes| ==>
      && Resolve(d.parameters, nodes[i]).Success?
      && SchemaReflexivity.AllResolve(d.schemas, ParameterSchema(Resolve(d.parameters, nodes[i]).value))
  }

  ghost predicate BodyResolves(d: Document, o: Operation) {
    ResolveBody(d, o.requestBody).Success?
    && (ResolveBody(d, o.requestBody).value.Some?
        ==> ContentResolves(d, ResolveBody(d, o.requestBody).value.value.content))
  }

  ghost predicate ResponsesResolve(d: Document, o: Operation) {
    forall status <- o.responses ::
      Resolve(d.responses, o.responses[status]).Success?
          && ContentResolves(d, Resolve(d.responses, o.responses[status]).value)
  }

  ghost predicate OperationResolves(d: Document, item: PathItem, o: Operation) {
    NodesResolve(d, item.parameters + o.parameters) && BodyResolves(d, o) && ResponsesResolve(d, o)
  }

  /** Every reference that belongs to the path can be resolved. */
  ghost predicate PathResolves(d: Document, entry: (string, Node<PathItem>)) {
    Resolve(d.items, entry.1).Success? &&
    var item := Resolve(d.items, entry.1).value;
    forall verb <- item.operations :: OperationResolves(d, item, item.operations[verb])
  }

  ghost predicate DocumentResolves(d: Document) {
    forall i :: 0 <= i < |d.paths| ==> PathResolves(d, d.paths[i])
  }

  lemma {:induction false} MergeResolves(d: Document, nodes: seq<Node<Parameter>>, names: seq<string>)
    requires NodesResolve(d, nodes)
    ensures var merged := MergeParameters(d.parameters, nodes, names);
            merged.Success?
                && forall key <- merged.value ::
                      SchemaReflexivity.AllResolve(d.schemas, ParameterSchema(merged.value[key]))
  {
    if nodes != [] {
      hide SchemaReflexivity.AllResolve, ParameterSchema;
      MergeResolves(d, nodes[..|nodes| - 1], names);
    }
  }

  lemma {:induction false} OperationsResolve(d: Document, paths: seq<(string, Node<PathItem>)>, prefixes: seq<string>)
    requires forall i :: 0 <= i < |paths| ==> PathResolves(d, paths[i])
    ensures var found := Operations(d, paths, prefixes);
            found.Success?
                && forall key <- found.value :: OperationResolves(d, found.value[key].item, found.value[key].operation)
  {
    hide OperationResolves;
    if paths != [] {
      OperationsResolve(d, paths[..|paths| - 1], prefixes);
      var last := paths[|paths| - 1];
      assert PathResolves(d, last);
      ItemEntriesMean(last.0, Resolve(d.items, last.1).value);
      hide ItemEntries;
    }
  }

  // ----- no findings -----

  /** Nothing is reported, and when all references can be resolved, nothing is raised. */
  ghost predicate Quiet(resolved: bool, findings: set<Finding>) {
    forall finding <- findings ::
      && !finding.Outside?
      && (finding.Inside? && finding.event.Compared? ==>
            SchemaRules.LocalBreaks(finding.direction, finding.event.base, finding.event.current, finding.event.pointer)
                == {})
      && (resolved ==> finding.Inside? && !finding.event.Raised?)
  }

  lemma SchemaQuiet(d: Document, e: Document, resolved: bool, direction: Direction, key: OperationKey, place: Place,
                    schema: Schema)
    requires d.schemas == e.schemas
    requires resolved ==> SchemaReflexivity.AllResolve(d.schemas, schema)
    ensures Quiet(resolved, SchemaFindings(d, e, direction, key, place, schema, schema))
  {
    hide SchemaRules.LocalBreaks, SchemaComparison.Walk, SchemaReflexivity.AllResolve;
    SchemaReflexivity.WalkOfItself(d.schemas, schema, [], {});
    forall k: Keywords, p: Pointer ensures SchemaRules.LocalBreaks(direction, k, k, p) == {} {
      SchemaReflexivity.NoBreaksWithItself(direction, k, p);
    }
  }

  lemma ContentQuiet(d: Document, e: Document, resolved: bool, direction: Direction, key: OperationKey,
                     place: string -> Place, removed: Rule, content: Content)
    requires d.schemas == e.schemas
    requires resolved ==> ContentResolves(d, content)
    ensures Quiet(resolved, ContentFindings(d, e, direction, key, place, removed, content, content))
  {
    hide SchemaRules.LocalBreaks, SchemaFindings, SchemaReflexivity.AllResolve;
    forall media | media in content
      ensures Quiet(resolved,
                    SchemaFindings(d, e, direction, key, place(media), SchemaOr(content[media]),
                                   SchemaOr(content[media])))
    {
      SchemaQuiet(d, e, resolved, direction, key, place(media), SchemaOr(content[media]));
    }
  }

  /** Parameters that agree on everything but the name demand the same. */
  lemma PairsQuiet(d: Document, e: Document, resolved: bool, key: OperationKey, bs: map<ParameterKey, Parameter>,
                   cs: map<ParameterKey, Parameter>, k: ParameterKey)
    requires d.schemas == e.schemas && SameParameters(bs, cs) && k in bs
    requires resolved ==> SchemaReflexivity.AllResolve(d.schemas, ParameterSchema(bs[k]))
    ensures !NewlyRequired(bs, cs, k)
    ensures Quiet(resolved,
                  SchemaFindings(d, e, Request, key, InParameter(k), ParameterSchema(bs[k]), ParameterSchema(cs[k])))
  {
    assert cs[k].(name := bs[k].name) == bs[k];
    hide SchemaRules.LocalBreaks, SchemaFindings, SchemaReflexivity.AllResolve;
    SchemaQuiet(d, e, resolved, Request, key, InParameter(k), ParameterSchema(bs[k]));
  }

  /** Both sides merge their parameters, or both fail. */
  lemma ParametersMatch(d: Document, e: Document, renaming: Renaming, b: Entry, c: Entry)
    requires e == RenameDocument(d, renaming) && RenamedEntry(d, renaming, b, c)
    ensures var bs, cs := Parameters(d, b), Parameters(e, c);
            if bs.Success? then cs.Success? && SameParameters(bs.value, cs.value) else cs.Failure?
  {
    hide PathNames, RenamePath, SameParameters, MergeParameters;
    var names, rename := PathNames(b.path), renaming(b.path);
    KeptNames(d, b.path, b.item, rename);
    var nodes := b.item.parameters + b.operation.parameters;
    assert c.item.parameters + c.operation.parameters == RenameNodes(nodes, names, rename);
    hide RenameNodes;
    MergeRenamed(d.parameters, nodes, names, PathNames(c.path), rename);
  }

  lemma MergedQuiet(d: Document, e: Document, resolved: bool, key: OperationKey, b: Entry, c: Entry)
    requires d.schemas == e.schemas && Parameters(d, b).Success? && Parameters(e, c).Success?
    requires SameParameters(Parameters(d, b).value, Parameters(e, c).value)
    requires resolved
         ==> forall k <- Parameters(d, b).value ::
               SchemaReflexivity.AllResolve(d.schemas, ParameterSchema(Parameters(d, b).value[k]))
    ensures Quiet(resolved, ParameterFindings(d, e, key, b, c))
  {
    SameKeys(Parameters(d, b).value, Parameters(e, c).value);
    hide SchemaRules.LocalBreaks, SchemaFindings, SchemaReflexivity.AllResolve, ParameterSchema, Parameters,
         SameParameters, NewlyRequired, SecurityFindings, MergeParameters;
    var bs, cs := Parameters(d, b).value, Parameters(e, c).value;
    forall k | k in bs
      ensures !NewlyRequired(bs, cs, k)
      ensures Quiet(resolved,
                    SchemaFindings(d, e, Request, key, InParameter(k), ParameterSchema(bs[k]), ParameterSchema(cs[k])))
    {
      PairsQuiet(d, e, resolved, key, bs, cs, k);
    }
  }

  lemma ParametersQuiet(d: Document, e: Document, resolved: bool, renaming: Renaming, key: OperationKey, b: Entry,
                        c: Entry)
    requires e == RenameDocument(d, renaming) && RenamedEntry(d, renaming, b, c)
    requires resolved ==> NodesResolve(d, b.item.parameters + b.operation.parameters)
    ensures Quiet(resolved, ParameterFindings(d, e, key, b, c))
  {
    ParametersMatch(d, e, renaming, b, c);
    hide SchemaReflexivity.AllResolve, NodesResolve, ParameterSchema, SameParameters, RenamedEntry;
    if resolved {
      MergeResolves(d, b.item.parameters + b.operation.parameters, PathNames(b.path));
    }
    if Parameters(d, b).Success? {
      MergedQuiet(d, e, resolved, key, b, c);
    }
  }

  lemma SameKeys(b: map<ParameterKey, Parameter>, c: map<ParameterKey, Parameter>)
    requires SameParameters(b, c)
    ensures b.Keys == c.Keys
  {
  }

  lemma SecurityQuiet(d: Document, e: Document, key: OperationKey, b: Operation, c: Operation)
    requires d.security == e.security && b.security == c.security
    ensures SecurityFindings(d, e, key, b, c) == {}
  {
    var options := SecurityOptions(d.security, b.security);
    CompareSecurityIsExact(options, options);
  }

  lemma BodyQuiet(d: Document, e: Document, resolved: bool, key: OperationKey, b: Operation, c: Operation)
    requires d.schemas == e.schemas && d.bodies == e.bodies && b.requestBody == c.requestBody
    requires resolved ==> BodyResolves(d, b)
    ensures Quiet(resolved, BodyFindings(d, e, key, b, c))
  {
    hide SchemaRules.LocalBreaks, ContentFindings, ContentResolves;
    if ResolveBody(d, b.requestBody).Success? && ResolveBody(d, b.requestBody).value.Some? {
      ContentQuiet(d, e, resolved, Request, key, m => InRequestMedia(m), RequestMediaTypeRemoved,
                   ResolveBody(d, b.requestBody).value.value.content);
    }
  }

  lemma StatusQuiet(d: Document, e: Document, resolved: bool, key: OperationKey, b: Operation, c: Operation,
                    status: string)
    requires d.schemas == e.schemas && d.responses == e.responses && b.responses == c.responses && status in b.responses
    requires resolved ==> ResponsesResolve(d, b)
    ensures Quiet(resolved, StatusFindings(d, e, key, b, c, status))
  {
    hide SchemaRules.LocalBreaks, ContentFindings, ContentResolves;
    var content := Resolve(d.responses, b.responses[status]);
    if content.Success? {
      ContentQuiet(d, e, resolved, Response, key, m => InResponseMedia(status, m), ResponseMediaTypeRemoved,
                   content.value);
    }
  }

  lemma ResponsesQuiet(d: Document, e: Document, resolved: bool, key: OperationKey, b: Operation, c: Operation)
    requires d.schemas == e.schemas && d.responses == e.responses && b.responses == c.responses
    requires resolved ==> ResponsesResolve(d, b)
    ensures Quiet(resolved, ResponseFindings(d, e, key, b, c))
  {
    hide SchemaRules.LocalBreaks, StatusFindings, ResponsesResolve;
    forall status | status in b.responses ensures Quiet(resolved, StatusFindings(d, e, key, b, c, status)) {
      StatusQuiet(d, e, resolved, key, b, c, status);
    }
  }

  lemma OperationQuiet(d: Document, e: Document, resolved: bool, renaming: Renaming, key: OperationKey, b: Entry,
                       c: Entry)
    requires e == RenameDocument(d, renaming) && RenamedEntry(d, renaming, b, c)
    requires resolved ==> OperationResolves(d, b.item, b.operation)
    ensures Quiet(resolved, OperationFindings(d, e, key, b, c))
  {
    hide NodesResolve, BodyResolves, ResponsesResolve;
    ParametersQuiet(d, e, resolved, renaming, key, b, c);
    SecurityQuiet(d, e, key, b.operation, c.operation);
    BodyQuiet(d, e, resolved, key, b.operation, c.operation);
    ResponsesQuiet(d, e, resolved, key, b.operation, c.operation);
    hide SchemaRules.LocalBreaks, ParameterFindings, SecurityFindings, BodyFindings, ResponseFindings, KeepsItem;
  }

  /**
    Renaming path variables, with the inline parameters that belong to them, is compatible: comparing
    a document with the renamed copy reports nothing, and when the document's references can be
    resolved it ends without an error.
   */
  lemma RenamingIsCompatible(d: Document, renaming: Renaming, prefixes: seq<string>)
    requires forall i :: 0 <= i < |d.paths| ==> MayRename(d, prefixes, d.paths[i], renaming)
    ensures Quiet(DocumentResolves(d), Findings(d, RenameDocument(d, renaming), prefixes))
  {
    hide OperationFindings, RenamedEntry, Operations, SchemaRules.LocalBreaks, MayRename, PathResolves,
         OperationResolves;
    var e, resolved := RenameDocument(d, renaming), DocumentResolves(d);
    OperationsRenamed(d, renaming, d.paths, prefixes);
    if resolved {
      OperationsResolve(d, d.paths, prefixes);
    }
    hide DocumentResolves;
    var bs, cs := Operations(d, d.paths, prefixes), Operations(e, e.paths, prefixes);
    if bs.Success? {
      forall key | key in bs.value ensures Quiet(resolved, KeyFindings(d, e, bs.value, cs.value, key)) {
        OperationQuiet(d, e, resolved, renaming, key, bs.value[key], cs.value[key]);
      }
    }
  }

  lemma {:induction false} RenderUnchanged(pieces: seq<Piece>, rename: string -> string)
    requires forall name :: rename(name) == name
    ensures RenamePieces(pieces, rename) == pieces
  {
    if pieces != [] {
      RenderUnchanged(pieces[1..], rename);
    }
  }

  /** In particular a document is compatible with itself. */
  lemma DocumentIsCompatibleWithItself(d: Document, prefixes: seq<string>)
    ensures Quiet(DocumentResolves(d), Findings(d, d, prefixes))
  {
    hide Findings, DocumentResolves;
    var same: Renaming := path => name => name;
    forall i | 0 <= i < |d.paths|
      ensures MayRename(d, prefixes, d.paths[i], same) && RenamePathEntry(d.paths[i], same) == d.paths[i]
    {
      var (path, node) := d.paths[i];
      RenderUnchanged(Scan(path), same(path));
      ScanIsScanned(path);
      if node.Here? {
        LeavesItem(d, path, node.value, same(path));
      }
    }
    assert RenameDocument(d, same) == d;
    RenamingIsCompatible(d, same, prefixes);
  }
}
