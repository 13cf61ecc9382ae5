/**
  Which operations and parameters of a document a comparison sees: later paths win over earlier ones
  with the same normalized form, and later parameters over earlier ones with the same key.
 */
module DocumentOperations {
  import opened Resolution
  import opened PathTemplates
  import opened OpenApiDocument

  type Paths = seq<(string, Node<PathItem>)>

  // ----- operations -----

  /** A path is selected exactly when it continues one of the prefixes, or when there are none. */
  lemma SelectedIsExact(prefixes: seq<string>, path: string)
    ensures Selected(prefixes, path)
            <==> prefixes == [] || exists prefix, rest :: prefix in prefixes && path == prefix + rest
  {
    if prefixes != [] && Selected(prefixes, path) {
      var i :| 0 <= i < |prefixes| && prefixes[i] <= path;
      assert path == prefixes[i] + path[|prefixes[i]|..];
    }
    if prefix, rest :| prefix in prefixes && path == prefix + rest {
      var i :| 0 <= i < |prefixes| && prefixes[i] == prefix;
    }
  }

  /** The i-th path is selected, and its item has an operation under this key. */
  ghost predicate Declares(d: Document, paths: Paths, prefixes: seq<string>, key: OperationKey, i: nat) {
    && i < |paths|
    && Selected(prefixes, paths[i].0)
    && Resolve(d.items, paths[i].1).Success?
    && key.0 in Resolve(d.items, paths[i].1).value.operations
    && key.1 == NormalizedPath(paths[i].0)
  }

  /** The last path that has an operation under this key; the operations of earlier ones are shadowed. */
  ghost predicate Shows(d: Document, paths: Paths, prefixes: seq<string>, key: OperationKey, i: nat) {
    Declares(d, paths, prefixes, key, i) && forall j: nat :: i < j ==> !Declares(d, paths, prefixes, key, j)
  }

  ghost function EntryAt(d: Document, paths: Paths, verb: Method, i: nat): Entry
    requires i < |paths|
    requires Resolve(d.items, paths[i].1).Success? && verb in Resolve(d.items, paths[i].1).value.operations
  {
    var item := Resolve(d.items, paths[i].1).value;
    Entry(paths[i].0, item, item.operations[verb])
  }

  ghost predicate AllItemsResolve(d: Document, paths: Paths, prefixes: seq<string>) {
    forall i :: 0 <= i < |paths| && Selected(prefixes, paths[i].0) ==> Resolve(d.items, paths[i].1).Success?
  }

  lemma {:induction false} OperationsSucceed(d: Document, paths: Paths, prefixes: seq<string>)
    ensures Operations(d, paths, prefixes).Success? <==> AllItemsResolve(d, paths, prefixes)
  {
    if paths != [] {
      hide Selected, ItemEntries;
      var front, last := paths[..|paths| - 1], paths[|paths| - 1];
      OperationsSucceed(d, front, prefixes);
      assert paths == front + [last];
    }
  }

  lemma DeclaredBefore(d: Document, paths: Paths, prefixes: seq<string>, key: OperationKey, i: nat)
    requires paths != [] && i != |paths| - 1
    ensures Declares(d, paths, prefixes, key, i) <==> Declares(d, paths[..|paths| - 1], prefixes, key, i)
  {
  }

  /** The last path has the operation, or the same earlier path shows it. */
  lemma ShowsStep(d: Document, paths: Paths, prefixes: seq<string>, key: OperationKey, i: nat)
    requires paths != []
    ensures var last: nat := |paths| - 1;
            Shows(d, paths, prefixes, key, i)
            <==> if Declares(d, paths, prefixes, key, last) then i == last
                 else Shows(d, paths[..last], prefixes, key, i)
  {
    var last: nat := |paths| - 1;
    forall j: nat | j != last
      ensures Declares(d, paths, prefixes, key, j) <==> Declares(d, paths[..last], prefixes, key, j)
    {
      DeclaredBefore(d, paths, prefixes, key, j);
    }
    assert forall j: nat :: last < j ==> !Declares(d, paths, prefixes, key, j);
    assert !Declares(d, paths[..last], prefixes, key, last);
    hide Declares;
  }

  /** The entry a path adds under the key, if it adds one. */
  lemma LastEntry(d: Document, paths: Paths, prefixes: seq<string>, key: OperationKey)
    requires paths != [] && Operations(d, paths, prefixes).Success?
    ensures var last: nat := |paths| - 1;
            var found, before := Operations(d, paths, prefixes).value, Operations(d, paths[..last], prefixes);
            && before.Success?
            && if Declares(d, paths, prefixes, key, last)
               then key in found && found[key] == EntryAt(d, paths, key.0, last)
               else (key in found <==> key in before.value) && (key in found ==> found[key] == before.value[key])
  {
    hide Selected, NormalizedPath, ItemEntries;
    var (path, node) := paths[|paths| - 1];
    if Resolve(d.items, node).Success? {
      ItemEntriesMean(path, Resolve(d.items, node).value);
    }
  }

  /**
    The collected map holds a key exactly when some path shows it, and then the operation of that
    path.
   */
  lemma {:induction false} OperationsMean(d: Document, paths: Paths, prefixes: seq<string>, key: OperationKey)
    requires Operations(d, paths, prefixes).Success?
    ensures var found := Operations(d, paths, prefixes).value;
            && (key in found <==> exists i: nat :: Declares(d, paths, prefixes, key, i))
            && (key in found <==> exists i: nat :: Shows(d, paths, prefixes, key, i))
            && (forall i: nat :: Shows(d, paths, prefixes, key, i)
                                 ==> key in found && found[key] == EntryAt(d, paths, key.0, i))
  {
    if paths != [] {
      var last: nat := |paths| - 1;
      LastEntry(d, paths, prefixes, key);
      OperationsMean(d, paths[..last], prefixes, key);
      forall i: nat
        ensures i != last ==> (Declares(d, paths, prefixes, key, i) <==> Declares(d, paths[..last], prefixes, key, i))
        ensures Shows(d, paths, prefixes, key, i)
                <==> if Declares(d, paths, prefixes, key, last) then i == last
                     else Shows(d, paths[..last], prefixes, key, i)
      {
        ShowsStep(d, paths, prefixes, key, i);
        if i != last {
          DeclaredBefore(d, paths, prefixes, key, i);
        }
      }
      forall i: nat | Shows(d, paths[..last], prefixes, key, i)
        ensures EntryAt(d, paths[..last], key.0, i) == EntryAt(d, paths, key.0, i)
      {
      }
      hide Operations, Declares, Shows, EntryAt;
      if Declares(d, paths, prefixes, key, last) {
        assert Shows(d, paths, prefixes, key, last);
      }
    }
  }

  // ----- parameters -----

  /** The i-th parameter has this key. */
  ghost predicate KeyAt(components: Components<Parameter>, nodes: seq<Node<Parameter>>, pathNames: seq<string>,
                        key: ParameterKey, i: nat) {
    && i < |nodes|
    && Resolve(components, nodes[i]).Success?
    && KeyOf(Resolve(components, nodes[i]).value, pathNames) == key
  }

  ghost predicate LastKeyAt(components: Components<Parameter>, nodes: seq<Node<Parameter>>, pathNames: seq<string>,
                            key: ParameterKey, i: nat) {
    KeyAt(components, nodes, pathNames, key, i) && forall j: nat :: i < j
                                                     ==> !KeyAt(components, nodes, pathNames, key, j)
  }

  lemma LastKeyStep(components: Components<Parameter>, nodes: seq<Node<Parameter>>, pathNames: seq<string>,
                    key: ParameterKey, i: nat)
    requires nodes != []
    ensures var last: nat := |nodes| - 1;
            && (i != last
                ==> (KeyAt(components, nodes, pathNames, key, i)
                     <==> KeyAt(components, nodes[..last], pathNames, key, i)))
            && (LastKeyAt(components, nodes, pathNames, key, i)
                <==> if KeyAt(components, nodes, pathNames, key, last) then i == last
                     else LastKeyAt(components, nodes[..last], pathNames, key, i))
  {
    var last: nat := |nodes| - 1;
    forall j: nat | j != last
      ensures KeyAt(components, nodes, pathNames, key, j) <==> KeyAt(components, nodes[..last], pathNames, key, j)
    {
    }
    assert forall j: nat :: last < j ==> !KeyAt(components, nodes, pathNames, key, j);
    assert !KeyAt(components, nodes[..last], pathNames, key, last);
    hide KeyAt;
  }

  lemma {:induction false} MergeSucceeds(components: Components<Parameter>, nodes: seq<Node<Parameter>>,
                                         pathNames: seq<string>)
    ensures MergeParameters(components, nodes, pathNames).Success?
            <==> forall i :: 0 <= i < |nodes| ==> Resolve(components, nodes[i]).Success?
  {
    if nodes != [] {
      var front, last := nodes[..|nodes| - 1], nodes[|nodes| - 1];
      MergeSucceeds(components, front, pathNames);
      assert nodes == front + [last];
      hide KeyOf;
    }
  }

  lemma {:induction false} MergedKeys(components: Components<Parameter>, nodes: seq<Node<Parameter>>,
                                      pathNames: seq<string>, key: ParameterKey)
    requires MergeParameters(components, nodes, pathNames).Success?
    ensures var merged := MergeParameters(components, nodes, pathNames).value;
            && (key in merged <==> exists i: nat :: KeyAt(components, nodes, pathNames, key, i))
            && (key in merged <==> exists i: nat :: LastKeyAt(components, nodes, pathNames, key, i))
            && (forall i: nat :: LastKeyAt(components, nodes, pathNames, key, i)
                                 ==> key in merged && merged[key] == Resolve(components, nodes[i]).value)
  {
    if nodes != [] {
      var last: nat := |nodes| - 1;
      MergeStep(components, nodes, pathNames, key);
      hide MergeParameters;
      MergedKeys(components, nodes[..last], pathNames, key);
      forall i: nat
        ensures i != last
             ==> (KeyAt(components, nodes, pathNames, key, i) <==> KeyAt(components, nodes[..last], pathNames, key, i))
        ensures LastKeyAt(components, nodes, pathNames, key, i)
                <==> if KeyAt(components, nodes, pathNames, key, last) then i == last
                     else LastKeyAt(components, nodes[..last], pathNames, key, i)
      {
        LastKeyStep(components, nodes, pathNames, key, i);
      }
      forall i: nat | LastKeyAt(components, nodes[..last], pathNames, key, i)
        ensures i < last && nodes[..last][i] == nodes[i]
      {
      }
      hide KeyAt, LastKeyAt;
      if KeyAt(components, nodes, pathNames, key, last) {
        assert LastKeyAt(components, nodes, pathNames, key, last);
      }
    }
  }

  /**
    Merging succeeds exactly when all parameters resolve. The merged map holds a key exactly when
    some parameter has it, and then the last such parameter: an operation's own parameter wins over
    the path item's.
   */
  lemma MergeMeans(components: Components<Parameter>, nodes: seq<Node<Parameter>>, pathNames: seq<string>,
                   key: ParameterKey)
    ensures var merged := MergeParameters(components, nodes, pathNames);
            && (merged.Success? <==> forall i :: 0 <= i < |nodes| ==> Resolve(components, nodes[i]).Success?)
            && (merged.Success? ==>
                  && (key in merged.value <==> exists i: nat :: KeyAt(components, nodes, pathNames, key, i))
                  && (key in merged.value <==> exists i: nat :: LastKeyAt(components, nodes, pathNames, key, i))
                  && (forall i: nat :: LastKeyAt(components, nodes, pathNames, key, i)
                        ==> key in merged.value && merged.value[key] == Resolve(components, nodes[i]).value))
  {
    hide KeyAt, MergeParameters;
    MergeSucceeds(components, nodes, pathNames);
    if MergeParameters(components, nodes, pathNames).Success? {
      MergedKeys(components, nodes, pathNames, key);
    }
  }

  lemma MergeStep(components: Components<Parameter>, nodes: seq<Node<Parameter>>, pathNames: seq<string>,
                  key: ParameterKey)
    requires nodes != []
    ensures var last: nat := |nodes| - 1;
            var merged, before := MergeParameters(components, nodes, pathNames),
                                  MergeParameters(components, nodes[..last], pathNames);
            && (merged.Success? <==> before.Success? && Resolve(components, nodes[last]).Success?)
            && (merged.Success? ==>
                  if KeyAt(components, nodes, pathNames, key, last)
                  then key in merged.value && merged.value[key] == Resolve(components, nodes[last]).value
                  else && (key in merged.value <==> key in before.value)
                       && (key in merged.value ==> merged.value[key] == before.value[key]))
  {
  }
}
