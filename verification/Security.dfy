/** Comparing the security requirements of two operations. */
module Security {
  import opened Wrappers

  /** The scopes wanted for each scheme; all schemes are wanted together. */
  type Requirement = map<string, set<string>>

  function SecurityOptions(document: Option<seq<Requirement>>, operation: Option<seq<Requirement>>): seq<Requirement> {
    var requirements := if operation.Some? then operation else document;
    if requirements.None? || requirements.value == [] then [map[]] else requirements.value
  }

  /** Credentials that carry every wanted scheme with at least the wanted scopes. */
  predicate Meets(sent: Requirement, required: Requirement) {
    forall scheme <- required :: scheme in sent && required[scheme] <= sent[scheme]
  }

  predicate Accepted(options: seq<Requirement>, sent: Requirement) {
    exists i :: 0 <= i < |options| && Meets(sent, options[i])
  }

  /**
    The credentials an operation admits, by its own list of requirements or, without one, by the
    document's: an empty list or none asks for nothing, and otherwise one requirement must be met,
    every scheme of it with every scope.
   */
  predicate Admits(document: Option<seq<Requirement>>, operation: Option<seq<Requirement>>, sent: Requirement) {
    match operation
    case Some(own) => own == [] || MeetsOne(own, sent)
    case None =>
      match document
      case Some(shared) => shared == [] || MeetsOne(shared, sent)
      case None => true
  }

  predicate MeetsOne(requirements: seq<Requirement>, sent: Requirement) {
    exists i :: 0 <= i < |requirements| && HasAll(sent, requirements[i])
  }

  predicate HasAll(sent: Requirement, required: Requirement) {
    forall scheme <- required :: HasScopes(sent, scheme, required[scheme])
  }

  predicate HasScopes(sent: Requirement, scheme: string, scopes: set<string>) {
    scheme in sent && forall scope <- scopes :: scope in sent[scheme]
  }

  lemma MeetsHasAll(sent: Requirement, required: Requirement)
    ensures Meets(sent, required) <==> HasAll(sent, required)
  {
    if HasAll(sent, required) {
      forall scheme | scheme in required ensures scheme in sent && required[scheme] <= sent[scheme] {
        assert HasScopes(sent, scheme, required[scheme]);
      }
    }
  }

  lemma OptionsAdmit(document: Option<seq<Requirement>>, operation: Option<seq<Requirement>>, sent: Requirement)
    ensures Accepted(SecurityOptions(document, operation), sent) <==> Admits(document, operation, sent)
  {
    var options := SecurityOptions(document, operation);
    assert options == [map[]] ==> Meets(sent, options[0]);
    forall required: Requirement ensures Meets(sent, required) <==> HasAll(sent, required) {
      MeetsHasAll(sent, required);
    }
    hide Meets, HasAll;
  }

  /** The base options no current option accepts. */
  function LostOptions(base: seq<Requirement>, current: seq<Requirement>): seq<Requirement> {
    if base == [] then []
    else LostOptions(base[..|base| - 1], current)
         + (if Accepted(current, base[|base| - 1]) then [] else [base[|base| - 1]])
  }

  /** The loop of `compare_security` over the base options. */
  method CompareSecurity(base: seq<Requirement>, current: seq<Requirement>) returns (lost: seq<Requirement>)
    ensures lost == LostOptions(base, current)
  {
    lost := [];
    for i := 0 to |base|
      invariant lost == LostOptions(base[..i], current)
    {
      assert base[..i + 1][..i] == base[..i];
      var any := false;
      for j := 0 to |current|
        invariant any <==> exists k :: 0 <= k < j && Meets(base[i], current[k])
      {
        any := any || Meets(base[i], current[j]);
      }
      if !any {
        lost := lost + [base[i]];
      }
    }
    assert base[..|base|] == base;
  }

  lemma {:induction false} LostMeans(base: seq<Requirement>, current: seq<Requirement>)
    ensures forall option :: option in LostOptions(base, current) <==> option in base && !Accepted(current, option)
  {
    if base != [] {
      LostMeans(base[..|base| - 1], current);
      assert base == base[..|base| - 1] + [base[|base| - 1]];
    }
  }

  lemma MeetsIsTransitive(sent: Requirement, option: Requirement, required: Requirement)
    requires Meets(sent, option) && Meets(option, required)
    ensures Meets(sent, required)
  {
  }

  /**
    The comparison is exact: it loses no option exactly when every credential set some base option
    accepts is accepted by some current option, and every lost option is itself a credential set
    that was accepted and no longer is.
   */
  lemma {:induction false} CompareSecurityIsExact(base: seq<Requirement>, current: seq<Requirement>)
    ensures LostOptions(base, current) == [] <==> forall sent :: Accepted(base, sent) ==> Accepted(current, sent)
    ensures forall option <- LostOptions(base, current) :: Accepted(base, option) && !Accepted(current, option)
  {
    LostMeans(base, current);
    forall option | option in base ensures Accepted(base, option) {
      var i :| 0 <= i < |base| && base[i] == option;
      assert Meets(option, base[i]);
    }
    if LostOptions(base, current) == [] {
      forall sent | Accepted(base, sent) ensures Accepted(current, sent) {
        var i :| 0 <= i < |base| && Meets(sent, base[i]);
        assert Accepted(current, base[i]);
        var j :| 0 <= j < |current| && Meets(base[i], current[j]);
        MeetsIsTransitive(sent, base[i], current[j]);
      }
    } else {
      assert LostOptions(base, current)[0] in base;
    }
  }
}
