/**
  Reference resolution in an OpenAPI document.

  A node is either a local reference or the value itself. The components map gives, for every
  reference string that has a target, the node it points to.
 */
module Resolution {
  import opened Wrappers

  datatype Node<+T> = Link(target: string) | Here(value: T)

  datatype ResolveError = ReferenceCycle(target: string) | Unresolved(target: string)

  type Components<T> = map<string, Node<T>>

  function Reference<T>(node: Node<T>): Option<string> {
    match node
    case Link(target) => Some(target)
    case Here(_) => None
  }

  function ResolveFrom<T>(components: Components<T>, node: Node<T>, seen: set<string>): Result<T, ResolveError>
    decreases components.Keys - seen
  {
    match node
    case Here(value) => Success(value)
    case Link(target) =>
      if target in seen then Failure(ReferenceCycle(target))
      else if target !in components then Failure(Unresolved(target))
      else ResolveFrom(components, components[target], seen + {target})
  }

  function Resolve<T>(components: Components<T>, node: Node<T>): Result<T, ResolveError> {
    ResolveFrom(components, node, {})
  }

  /** The loop of `resolve`: follow references, remembering every one already taken. */
  method ResolveNode<T>(components: Components<T>, start: Node<T>) returns (r: Result<T, ResolveError>)
    ensures r == Resolve(components, start)
  {
    var node, seen := start, {};
    while node.Link?
      invariant ResolveFrom(components, node, seen) == Resolve(components, start)
      decreases components.Keys - seen, node.Link?
    {
      if node.target in seen {
        return Failure(ReferenceCycle(node.target));
      }
      if node.target !in components {
        return Failure(Unresolved(node.target));
      }
      seen, node := seen + {node.target}, components[node.target];
    }
    return Success(node.value);
  }

  // ----- what resolution means -----

  /** The node reached after exactly `hops` references, if there is one. */
  function Follow<T>(components: Components<T>, node: Node<T>, hops: nat): Option<Node<T>>
    decreases hops
  {
    if hops == 0 then Some(node)
    else if node.Link? && node.target in components then Follow(components, components[node.target], hops - 1)
    else None
  }

  ghost predicate EndsIn<T(!new)>(components: Components<T>, node: Node<T>, end: Node<T>) {
    exists hops: nat :: Follow(components, node, hops) == Some(end)
  }

  ghost predicate NeverEnds<T(!new)>(components: Components<T>, node: Node<T>) {
    forall hops: nat ::
      var reached := Follow(components, node, hops);
      reached.Some? && reached.value.Link? && reached.value.target in components
  }

  lemma FollowStep<T(!new)>(components: Components<T>, target: string, end: Node<T>)
    requires target in components && EndsIn(components, components[target], end)
    ensures EndsIn(components, Link(target), end)
  {
    var hops: nat :| Follow(components, components[target], hops) == Some(end);
    assert Follow(components, Link(target), hops + 1) == Some(end);
  }

  /** Once every remembered reference leads to a remembered one, the chain never leaves them. */
  lemma {:induction false} StaysInside<T>(components: Components<T>, seen: set<string>, target: string, hops: nat)
    requires target in seen
    requires forall t <- seen :: t in components && components[t].Link? && components[t].target in seen
    ensures var reached := Follow(components, Link(target), hops);
            reached.Some? && reached.value.Link? && reached.value.target in seen
    decreases hops
  {
    if hops > 0 {
      StaysInside(components, seen, components[target].target, hops - 1);
    }
  }

  lemma {:induction false} ResolveFromMeaning<T(!new)>(components: Components<T>, node: Node<T>, seen: set<string>)
    requires forall t <- seen :: t in components && components[t].Link?
                                 && (components[t].target in seen || components[t] == node)
    ensures match ResolveFrom(components, node, seen)
            case Success(value) => EndsIn(components, node, Here(value))
            case Failure(Unresolved(t)) => t !in components && EndsIn(components, node, Link(t))
            case Failure(ReferenceCycle(t)) => NeverEnds(components, node)
    decreases components.Keys - seen
  {
    if node.Link? && node.target in seen {
      forall hops: nat
        ensures var reached := Follow(components, node, hops);
                reached.Some? && reached.value.Link? && reached.value.target in components
      {
        StaysInside(components, seen, node.target, hops);
      }
    } else if node.Link? && node.target in components {
      var next := components[node.target];
      assert ResolveFrom(components, node, seen) == ResolveFrom(components, next, seen + {node.target});
      if next.Link? {
        ResolveFromMeaning(components, next, seen + {node.target});
        match ResolveFrom(components, next, seen + {node.target}) {
          case Success(value) => FollowStep(components, node.target, Here(value));
          case Failure(Unresolved(t)) => FollowStep(components, node.target, Link(t));
          case Failure(ReferenceCycle(t)) =>
            forall hops: nat
              ensures var reached := Follow(components, node, hops);
                      reached.Some? && reached.value.Link? && reached.value.target in components
            {
              if hops > 0 {
                assert Follow(components, node, hops) == Follow(components, next, hops - 1);
              }
            }
        }
      } else {
        assert ResolveFrom(components, next, seen + {node.target}) == Success(next.value);
        assert Follow(components, next, 0) == Some(Here(next.value));
        FollowStep(components, node.target, Here(next.value));
      }
    } else {
      assert Follow(components, node, 0) == Some(node);
    }
  }

  /** A chain of references has at most one end, and none when it never ends. */
  lemma {:induction false} EndIsUnique<T>(components: Components<T>, node: Node<T>, h1: nat, h2: nat, e1: Node<T>,
                                          e2: Node<T>)
    requires Follow(components, node, h1) == Some(e1) && Follow(components, node, h2) == Some(e2)
    requires e1.Here? || e1.target !in components
    requires e2.Here? || e2.target !in components
    ensures e1 == e2
    decreases h1
  {
    if h1 > 0 && h2 > 0 {
      EndIsUnique(components, components[node.target], h1 - 1, h2 - 1, e1, e2);
    }
  }

  /**
    `resolve` always stops. It returns a value exactly when the chain of references reaches it,
    reports an unresolved reference exactly when the chain runs into one without a target, and
    reports a cycle exactly when the chain never ends.
   */
  lemma ResolveIsExact<T(!new)>(components: Components<T>, node: Node<T>)
    ensures forall value :: Resolve(components, node) == Success(value) <==> EndsIn(components, node, Here(value))
    ensures forall t :: Resolve(components, node) == Failure(Unresolved(t))
                        <==> t !in components && EndsIn(components, node, Link(t))
    ensures (exists t :: Resolve(components, node) == Failure(ReferenceCycle(t))) <==> NeverEnds(components, node)
  {
    ResolveFromMeaning(components, node, {});
    forall e1, e2 | EndsIn(components, node, e1) && EndsIn(components, node, e2)
                    && (e1.Here? || e1.target !in components) && (e2.Here? || e2.target !in components)
      ensures e1 == e2
    {
      var h1: nat :| Follow(components, node, h1) == Some(e1);
      var h2: nat :| Follow(components, node, h2) == Some(e2);
      EndIsUnique(components, node, h1, h2, e1, e2);
    }
    match Resolve(components, node) {
      case Success(value) => assert EndsIn(components, node, Here(value));
      case Failure(Unresolved(t)) => assert EndsIn(components, node, Link(t));
      case Failure(ReferenceCycle(t)) =>
    }
  }
}
