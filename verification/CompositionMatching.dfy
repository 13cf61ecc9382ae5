/**
  Pairing the members of a composition (`oneOf`, `anyOf`, `allOf`) of two schemas.

  Equal members are paired first, then members that share an identity. Both passes take, for each
  base member, the first remaining current member with the same key, so they are one function of
  the key; a member whose key is None is never paired.
 */
module CompositionMatching {
  import opened Wrappers

  datatype Pair<T> = Pair(index: nat, prior: T, current: T)

  datatype Progress<T> = Progress(pairs: seq<Pair<T>>, unmatched: seq<(nat, T)>, remaining: seq<T>)

  datatype Matching<T> = Matching(pairs: seq<Pair<T>>, removed: seq<T>, added: seq<T>)

  predicate SameKey<T, K(==)>(key: T -> Option<K>, left: T, right: T) {
    key(left).Some? && key(left) == key(right)
  }

  function FirstMatch<T, K(==)>(members: seq<T>, key: T -> Option<K>, wanted: T): (k: nat)
    ensures k <= |members|
    ensures forall j :: 0 <= j < k ==> !SameKey(key, wanted, members[j])
    ensures k < |members| ==> SameKey(key, wanted, members[k])
  {
    if members == [] || SameKey(key, wanted, members[0]) then 0 else 1 + FirstMatch(members[1..], key, wanted)
  }

  function RemoveAt<T>(s: seq<T>, k: nat): seq<T>
    requires k < |s|
  {
    s[..k] + s[k + 1..]
  }

  function TakeEntry<T, K(==)>(state: Progress<T>, entry: (nat, T), key: T -> Option<K>): Progress<T> {
    var k := FirstMatch(state.remaining, key, entry.1);
    if k == |state.remaining| then state.(unmatched := state.unmatched + [entry])
    else state.(pairs := state.pairs + [Pair(entry.0, entry.1, state.remaining[k])],
                remaining := RemoveAt(state.remaining, k))
  }

  /** One pass after its first n entries. */
  function Pass<T, K(==)>(entries: seq<(nat, T)>, start: Progress<T>, key: T -> Option<K>, n: nat): Progress<T>
    requires n <= |entries|
  {
    if n == 0 then start else TakeEntry(Pass(entries, start, key, n - 1), entries[n - 1], key)
  }

  function Enumerate<T>(members: seq<T>): (r: seq<(nat, T)>)
    ensures |r| == |members|
    ensures forall i :: 0 <= i < |r| ==> r[i] == (i, members[i])
  {
    seq(|members|, i requires 0 <= i < |members| => (i, members[i]))
  }

  function EqualPass<T, E(==)>(base: seq<T>, current: seq<T>, equality: T -> Option<E>): Progress<T> {
    Pass(Enumerate(base), Progress([], [], current), equality, |base|)
  }

  function IdentityPass<T, I(==)>(equal: Progress<T>, identity: T -> Option<I>): Progress<T> {
    Pass(equal.unmatched, equal.(unmatched := []), identity, |equal.unmatched|)
  }

  function Insert<T>(sorted: seq<Pair<T>>, pair: Pair<T>): seq<Pair<T>> {
    if sorted == [] || pair.index < sorted[0].index then [pair] + sorted
    else [sorted[0]] + Insert(sorted[1..], pair)
  }

  function SortByIndex<T>(pairs: seq<Pair<T>>): seq<Pair<T>> {
    if pairs == [] then [] else Insert(SortByIndex(pairs[..|pairs| - 1]), pairs[|pairs| - 1])
  }

  function Values<T>(entries: seq<(nat, T)>): (r: seq<T>)
    ensures |r| == |entries|
    ensures forall i :: 0 <= i < |r| ==> r[i] == entries[i].1
  {
    seq(|entries|, i requires 0 <= i < |entries| => entries[i].1)
  }

  function Match<T, E(==), I(==)>(base: seq<T>, current: seq<T>, equality: T -> Option<E>,
                                  identity: T -> Option<I>): Matching<T> {
    var matched := IdentityPass(EqualPass(base, current, equality), identity);
    Matching(SortByIndex(matched.pairs), Values(matched.unmatched), matched.remaining)
  }

  /** The two loops of `match_composition_members`, which pop from the members not yet taken. */
  method MatchCompositionMembers<T, E(==), I(==)>(base: seq<T>, current: seq<T>, equality: T -> Option<E>,
                                                  identity: T -> Option<I>)
    returns (r: Matching<T>)
    ensures r == Match(base, current, equality, identity)
  {
    var pairs: seq<Pair<T>>, unmatched: seq<(nat, T)>, remaining := [], [], current;
    for index := 0 to |base|
      invariant Progress(pairs, unmatched, remaining)
             == Pass(Enumerate(base), Progress([], [], current), equality, index)
    {
      var k := FirstMatch(remaining, equality, base[index]);
      if k == |remaining| {
        unmatched := unmatched + [(index, base[index])];
      } else {
        pairs, remaining := pairs + [Pair(index, base[index], remaining[k])], RemoveAt(remaining, k);
      }
    }
    ghost var equal := Progress(pairs, unmatched, remaining);
    var removed: seq<(nat, T)> := [];
    for position := 0 to |unmatched|
      invariant Progress(pairs, removed, remaining)
             == Pass(unmatched, equal.(unmatched := []), identity, position)
    {
      var (index, member) := unmatched[position];
      var k := FirstMatch(remaining, identity, member);
      if k == |remaining| {
        removed := removed + [(index, member)];
      } else {
        pairs, remaining := pairs + [Pair(index, member, remaining[k])], RemoveAt(remaining, k);
      }
    }
    return Matching(SortByIndex(pairs), Values(removed), remaining);
  }

  // ----- what one pass keeps -----

  function Priors<T>(pairs: seq<Pair<T>>): (r: seq<T>)
    ensures |r| == |pairs|
    ensures forall i :: 0 <= i < |r| ==> r[i] == pairs[i].prior
  {
    seq(|pairs|, i requires 0 <= i < |pairs| => pairs[i].prior)
  }

  function Currents<T>(pairs: seq<Pair<T>>): (r: seq<T>)
    ensures |r| == |pairs|
    ensures forall i :: 0 <= i < |r| ==> r[i] == pairs[i].current
  {
    seq(|pairs|, i requires 0 <= i < |pairs| => pairs[i].current)
  }

  lemma RemoveAtCounts<T>(s: seq<T>, k: nat)
    requires k < |s|
    ensures multiset(s) == multiset(RemoveAt(s, k)) + multiset{s[k]}
  {
    assert s == s[..k] + [s[k]] + s[k + 1..];
  }

  lemma StepCounts<T, K>(state: Progress<T>, entry: (nat, T), key: T -> Option<K>)
    ensures var r := TakeEntry(state, entry, key);
            && multiset(Priors(r.pairs)) + multiset(Values(r.unmatched))
            == multiset(Priors(state.pairs)) + multiset(Values(state.unmatched)) + multiset{entry.1}
            && multiset(Currents(r.pairs)) + multiset(r.remaining)
            == multiset(Currents(state.pairs)) + multiset(state.remaining)
  {
    var r := TakeEntry(state, entry, key);
    var k := FirstMatch(state.remaining, key, entry.1);
    if k == |state.remaining| {
      assert Values(r.unmatched) == Values(state.unmatched) + [entry.1];
    } else {
      RemoveAtCounts(state.remaining, k);
      assert Priors(r.pairs) == Priors(state.pairs) + [entry.1];
      assert Currents(r.pairs) == Currents(state.pairs) + [state.remaining[k]];
    }
  }

  lemma {:induction false} PassCounts<T, K>(entries: seq<(nat, T)>, start: Progress<T>, key: T -> Option<K>, n: nat)
    requires n <= |entries|
    ensures var r := Pass(entries, start, key, n);
            && multiset(Priors(r.pairs)) + multiset(Values(r.unmatched))
            == multiset(Priors(start.pairs)) + multiset(Values(start.unmatched)) + multiset(Values(entries[..n]))
            && multiset(Currents(r.pairs)) + multiset(r.remaining)
            == multiset(Currents(start.pairs)) + multiset(start.remaining)
  {
    hide TakeEntry;
    if n > 0 {
      PassCounts(entries, start, key, n - 1);
      StepCounts(Pass(entries, start, key, n - 1), entries[n - 1], key);
      assert Values(entries[..n]) == Values(entries[..n - 1]) + [entries[n - 1].1];
    } else {
      assert Values(entries[..0]) == [];
    }
  }

  /** Pairs carry the base member of their index, and no index is used twice. */
  ghost predicate Indexed<T>(base: seq<T>, pairs: seq<Pair<T>>, free: seq<(nat, T)>) {
    && (forall i :: 0 <= i < |pairs| ==> pairs[i].index < |base| && pairs[i].prior == base[pairs[i].index])
    && (forall i :: 0 <= i < |free| ==> free[i].0 < |base| && free[i].1 == base[free[i].0])
    && (forall i, j :: 0 <= i < j < |pairs| ==> pairs[i].index != pairs[j].index)
    && (forall i, j :: 0 <= i < j < |free| ==> free[i].0 != free[j].0)
    && (forall i, j :: 0 <= i < |pairs| && 0 <= j < |free| ==> pairs[i].index != free[j].0)
  }

  lemma StepIndexed<T, K>(base: seq<T>, state: Progress<T>, entry: (nat, T), key: T -> Option<K>, rest: seq<(nat, T)>)
    requires Indexed(base, state.pairs, state.unmatched + ([entry] + rest))
    ensures var r := TakeEntry(state, entry, key);
            Indexed(base, r.pairs, r.unmatched + rest)
  {
    var r := TakeEntry(state, entry, key);
    var free := state.unmatched + ([entry] + rest);
    var m := |state.unmatched|;
    assert free[m] == entry;
    if r.unmatched != state.unmatched {
      assert r.unmatched + rest == free;
    } else {
      var after := r.unmatched + rest;
      forall i | 0 <= i < |after| ensures after[i] == free[if i < m then i else i + 1] {
      }
    }
  }

  lemma {:induction false} PassIndexed<T, K>(base: seq<T>, entries: seq<(nat, T)>, start: Progress<T>,
                                             key: T -> Option<K>, n: nat)
    requires n <= |entries|
    requires Indexed(base, start.pairs, start.unmatched + entries)
    ensures var r := Pass(entries, start, key, n);
            Indexed(base, r.pairs, r.unmatched + entries[n..])
  {
    if n > 0 {
      PassIndexed(base, entries, start, key, n - 1);
      assert entries[n - 1..] == [entries[n - 1]] + entries[n..];
      StepIndexed(base, Pass(entries, start, key, n - 1), entries[n - 1], key, entries[n..]);
    } else {
      assert entries[0..] == entries;
    }
  }

  ghost predicate Apart<T, K>(key: T -> Option<K>, unmatched: seq<(nat, T)>, remaining: seq<T>) {
    forall i, j :: 0 <= i < |unmatched| && 0 <= j < |remaining| ==> !SameKey(key, unmatched[i].1, remaining[j])
  }

  lemma {:induction false} PassLeavesNoMatch<T, K>(entries: seq<(nat, T)>, start: Progress<T>, key: T -> Option<K>,
                                                   n: nat)
    requires n <= |entries|
    requires start.unmatched == []
    ensures var r := Pass(entries, start, key, n);
            && Apart(key, r.unmatched, r.remaining)
            && (forall i :: 0 <= i < |r.unmatched| ==> r.unmatched[i] in entries)
            && (forall j :: 0 <= j < |r.remaining| ==> r.remaining[j] in start.remaining)
  {
    hide SameKey;
    if n > 0 {
      PassLeavesNoMatch(entries, start, key, n - 1);
    }
  }

  // ----- sorting -----

  ghost predicate StrictlyOrdered<T>(pairs: seq<Pair<T>>) {
    forall i, j :: 0 <= i < j < |pairs| ==> pairs[i].index < pairs[j].index
  }

  lemma {:induction false} InsertSplits<T>(sorted: seq<Pair<T>>, pair: Pair<T>) returns (k: nat)
    ensures k <= |sorted| && Insert(sorted, pair) == sorted[..k] + [pair] + sorted[k..]
  {
    if sorted == [] || pair.index < sorted[0].index {
      k := 0;
    } else {
      k := InsertSplits(sorted[1..], pair);
      k := k + 1;
    }
  }

  lemma SplicedCounts<T>(s: seq<T>, k: nat, x: T)
    requires k <= |s|
    ensures multiset(s[..k] + [x] + s[k..]) == multiset(s) + multiset{x}
  {
    assert s == s[..k] + s[k..];
  }

  lemma InsertCounts<T>(sorted: seq<Pair<T>>, pair: Pair<T>)
    ensures multiset(Priors(Insert(sorted, pair))) == multiset(Priors(sorted)) + multiset{pair.prior}
    ensures multiset(Currents(Insert(sorted, pair))) == multiset(Currents(sorted)) + multiset{pair.current}
  {
    hide Insert;
    var k := InsertSplits(sorted, pair);
    var priors, currents := Priors(sorted), Currents(sorted);
    assert Priors(Insert(sorted, pair)) == priors[..k] + [pair.prior] + priors[k..];
    assert Currents(Insert(sorted, pair)) == currents[..k] + [pair.current] + currents[k..];
    SplicedCounts(priors, k, pair.prior);
    SplicedCounts(currents, k, pair.current);
  }

  lemma {:induction false} InsertKeepsOrder<T>(sorted: seq<Pair<T>>, pair: Pair<T>)
    requires StrictlyOrdered(sorted)
    requires forall i :: 0 <= i < |sorted| ==> sorted[i].index != pair.index
    ensures var r := Insert(sorted, pair);
            && StrictlyOrdered(r)
            && (forall i :: 0 <= i < |r| ==> r[i] == pair || r[i] in sorted)
  {
    if sorted != [] && pair.index >= sorted[0].index {
      InsertKeepsOrder(sorted[1..], pair);
    }
  }

  lemma {:induction false} SortByIndexSorts<T>(pairs: seq<Pair<T>>)
    requires forall i, j :: 0 <= i < j < |pairs| ==> pairs[i].index != pairs[j].index
    ensures var r := SortByIndex(pairs);
            && StrictlyOrdered(r)
            && (forall i :: 0 <= i < |r| ==> r[i] in pairs)
            && multiset(Priors(r)) == multiset(Priors(pairs))
            && multiset(Currents(r)) == multiset(Currents(pairs))
  {
    if pairs != [] {
      var front, last := pairs[..|pairs| - 1], pairs[|pairs| - 1];
      SortByIndexSorts(front);
      InsertKeepsOrder(SortByIndex(front), last);
      InsertCounts(SortByIndex(front), last);
      assert Priors(pairs) == Priors(front) + [last.prior];
      assert Currents(pairs) == Currents(front) + [last.current];
    }
  }

  // ----- the whole matching -----

  lemma EqualPassCounts<T, E>(base: seq<T>, current: seq<T>, equality: T -> Option<E>)
    ensures var equal := EqualPass(base, current, equality);
            && multiset(Priors(equal.pairs)) + multiset(Values(equal.unmatched)) == multiset(base)
            && multiset(Currents(equal.pairs)) + multiset(equal.remaining) == multiset(current)
  {
    var start: Progress<T> := Progress([], [], current);
    PassCounts(Enumerate(base), start, equality, |base|);
    assert Priors(start.pairs) == Currents(start.pairs) == Values(start.unmatched) == [];
    assert Values(Enumerate(base)[..|base|]) == base;
  }

  lemma MatchCounts<T, E, I>(base: seq<T>, current: seq<T>, equality: T -> Option<E>, identity: T -> Option<I>)
    ensures var matched := IdentityPass(EqualPass(base, current, equality), identity);
            && multiset(Priors(matched.pairs)) + multiset(Values(matched.unmatched)) == multiset(base)
            && multiset(Currents(matched.pairs)) + multiset(matched.remaining) == multiset(current)
  {
    var equal := EqualPass(base, current, equality);
    EqualPassCounts(base, current, equality);
    var again := equal.(unmatched := []);
    PassCounts(equal.unmatched, again, identity, |equal.unmatched|);
    assert equal.unmatched[..|equal.unmatched|] == equal.unmatched;
    assert Values(again.unmatched) == [];
  }

  lemma MatchIndexed<T, E, I>(base: seq<T>, current: seq<T>, equality: T -> Option<E>, identity: T -> Option<I>)
    ensures var matched := IdentityPass(EqualPass(base, current, equality), identity);
            Indexed(base, matched.pairs, matched.unmatched)
  {
    var entries := Enumerate(base);
    var equal := EqualPass(base, current, equality);
    assert [] + entries == entries;
    PassIndexed(base, entries, Progress([], [], current), equality, |base|);
    assert equal.unmatched + entries[|base|..] == equal.unmatched == [] + equal.unmatched;
    PassIndexed(base, equal.unmatched, equal.(unmatched := []), identity, |equal.unmatched|);
    var matched := IdentityPass(equal, identity);
    assert matched.unmatched + equal.unmatched[|equal.unmatched|..] == matched.unmatched;
  }

  lemma MatchLeavesNoMatch<T, E, I>(base: seq<T>, current: seq<T>, equality: T -> Option<E>, identity: T -> Option<I>)
    ensures var matched := IdentityPass(EqualPass(base, current, equality), identity);
            Apart(equality, matched.unmatched, matched.remaining)
                && Apart(identity, matched.unmatched, matched.remaining)
  {
    var equal := EqualPass(base, current, equality);
    PassLeavesNoMatch(Enumerate(base), Progress([], [], current), equality, |base|);
    PassLeavesNoMatch(equal.unmatched, equal.(unmatched := []), identity, |equal.unmatched|);
  }

  /**
    The matching is one-to-one and cannot be extended. Pairs and removed members together are
    exactly the base list, pairs and added members exactly the current list; pairs follow the base
    order and carry the member of their index; and no removed member equals an added one or shares
    an identity with one.
   */
  lemma MatchIsMaximal<T, E, I>(base: seq<T>, current: seq<T>, equality: T -> Option<E>, identity: T -> Option<I>)
    ensures var r := Match(base, current, equality, identity);
            && multiset(Priors(r.pairs)) + multiset(r.removed) == multiset(base)
            && multiset(Currents(r.pairs)) + multiset(r.added) == multiset(current)
            && StrictlyOrdered(r.pairs)
            && (forall i :: 0 <= i < |r.pairs|
                  ==> r.pairs[i].index < |base| && r.pairs[i].prior == base[r.pairs[i].index])
            && (forall i, j :: 0 <= i < |r.removed| && 0 <= j < |r.added|
                  ==> !SameKey(equality, r.removed[i], r.added[j]) && !SameKey(identity, r.removed[i], r.added[j]))
  {
    MatchCounts(base, current, equality, identity);
    MatchIndexed(base, current, equality, identity);
    MatchLeavesNoMatch(base, current, equality, identity);
    var matched := IdentityPass(EqualPass(base, current, equality), identity);
    SortByIndexSorts(matched.pairs);
  }

  lemma InFirst<T>(part: seq<T>, other: seq<T>, whole: seq<T>, x: T)
    requires multiset(part) + multiset(other) == multiset(whole)
    ensures x in part ==> x in whole
    ensures x in whole && other == [] ==> x in part
  {
    assert x in part <==> x in multiset(part);
    assert x in whole <==> x in multiset(whole);
  }

  /** With nothing removed every base member is in a pair; with nothing added every current one is. */
  lemma MatchCovers<T(!new), E, I>(base: seq<T>, current: seq<T>, equality: T -> Option<E>, identity: T -> Option<I>)
    ensures var r := Match(base, current, equality, identity);
            && (forall i :: 0 <= i < |r.pairs| ==> r.pairs[i].prior in base && r.pairs[i].current in current)
            && (r.removed == [] ==> forall b <- base :: exists i :: 0 <= i < |r.pairs| && r.pairs[i].prior == b)
            && (r.added == [] ==> forall c <- current :: exists i :: 0 <= i < |r.pairs| && r.pairs[i].current == c)
  {
    hide Match;
    MatchIsMaximal(base, current, equality, identity);
    var r := Match(base, current, equality, identity);
    forall i | 0 <= i < |r.pairs| ensures r.pairs[i].prior in base && r.pairs[i].current in current {
      assert Currents(r.pairs)[i] == r.pairs[i].current;
      InFirst(Currents(r.pairs), r.added, current, r.pairs[i].current);
    }
    if r.removed == [] {
      forall b <- base ensures exists i :: 0 <= i < |r.pairs| && r.pairs[i].prior == b {
        InFirst(Priors(r.pairs), r.removed, base, b);
        var i :| 0 <= i < |r.pairs| && Priors(r.pairs)[i] == b;
        assert r.pairs[i].prior == b;
      }
    }
    if r.added == [] {
      forall c <- current ensures exists i :: 0 <= i < |r.pairs| && r.pairs[i].current == c {
        InFirst(Currents(r.pairs), r.added, current, c);
        var i :| 0 <= i < |r.pairs| && Currents(r.pairs)[i] == c;
        assert r.pairs[i].current == c;
      }
    }
  }

  function Keys<T, K>(members: seq<T>, key: T -> Option<K>): (r: seq<Option<K>>)
    ensures |r| == |members|
    ensures forall i :: 0 <= i < |r| ==> r[i] == key(members[i])
  {
    seq(|members|, i requires 0 <= i < |members| => key(members[i]))
  }

  lemma FirstMatchFinds<T, K>(remaining: seq<T>, key: T -> Option<K>, wanted: T)
    requires key(wanted).Some? && key(wanted) in multiset(Keys(remaining, key))
    ensures FirstMatch(remaining, key, wanted) < |remaining|
  {
    var keys := Keys(remaining, key);
    var at :| 0 <= at < |keys| && keys[at] == key(wanted);
    assert SameKey(key, wanted, remaining[at]);
  }

  lemma RemovedKeyCounts<T, K>(remaining: seq<T>, key: T -> Option<K>, k: nat)
    requires k < |remaining|
    ensures multiset(Keys(remaining, key)) == multiset(Keys(RemoveAt(remaining, k), key)) + multiset{key(remaining[k])}
  {
    RemoveAtCounts(Keys(remaining, key), k);
    assert Keys(RemoveAt(remaining, k), key) == RemoveAt(Keys(remaining, key), k);
  }

  ghost predicate PairsEqual<T, E>(pairs: seq<Pair<T>>, equality: T -> Option<E>) {
    forall i :: 0 <= i < |pairs| ==> equality(pairs[i].prior) == equality(pairs[i].current)
  }

  lemma StepOfReordered<T, E>(state: Progress<T>, entry: (nat, T), equality: T -> Option<E>, rest: multiset<Option<E>>)
    requires equality(entry.1).Some?
    requires multiset(Keys(state.remaining, equality)) == rest + multiset{equality(entry.1)}
    requires PairsEqual(state.pairs, equality)
    ensures var r := TakeEntry(state, entry, equality);
            && r.unmatched == state.unmatched
            && multiset(Keys(r.remaining, equality)) == rest
            && PairsEqual(r.pairs, equality)
  {
    FirstMatchFinds(state.remaining, equality, entry.1);
    var k := FirstMatch(state.remaining, equality, entry.1);
    RemovedKeyCounts(state.remaining, equality, k);
    var left := multiset(Keys(RemoveAt(state.remaining, k), equality));
    assert left == (left + multiset{equality(entry.1)}) - multiset{equality(entry.1)};
    assert rest == (rest + multiset{equality(entry.1)}) - multiset{equality(entry.1)};
  }

  lemma {:induction false} EqualPassOfReordered<T, E>(base: seq<T>, current: seq<T>, equality: T -> Option<E>, n: nat)
    requires n <= |base|
    requires forall i :: 0 <= i < |base| ==> equality(base[i]).Some?
    requires multiset(Keys(base, equality)) == multiset(Keys(current, equality))
    ensures var r := Pass(Enumerate(base), Progress([], [], current), equality, n);
            && r.unmatched == []
            && multiset(Keys(r.remaining, equality)) == multiset(Keys(base, equality)[n..])
            && PairsEqual(r.pairs, equality)
  {
    hide TakeEntry, SameKey;
    var keys := Keys(base, equality);
    if n > 0 {
      EqualPassOfReordered(base, current, equality, n - 1);
      hide PairsEqual;
      assert keys[n - 1..] == [keys[n - 1]] + keys[n..];
      StepOfReordered(Pass(Enumerate(base), Progress([], [], current), equality, n - 1), (n - 1, base[n - 1]),
                      equality, multiset(keys[n..]));
    } else {
      assert keys[0..] == keys;
    }
  }

  /** Reordering members is invisible: each is paired with an equal one and nothing is left over. */
  lemma ReorderingPairsEquals<T, E, I>(base: seq<T>, current: seq<T>, equality: T -> Option<E>,
                                       identity: T -> Option<I>)
    requires forall i :: 0 <= i < |base| ==> equality(base[i]).Some?
    requires multiset(Keys(base, equality)) == multiset(Keys(current, equality))
    ensures var r := Match(base, current, equality, identity);
            && r.removed == [] && r.added == []
            && PairsEqual(r.pairs, equality)
  {
    EqualPassOfReordered(base, current, equality, |base|);
    var equal := EqualPass(base, current, equality);
    assert |multiset(Keys(equal.remaining, equality))| == |equal.remaining|;
    MatchIndexed(base, current, equality, identity);
    SortByIndexSorts(equal.pairs);
  }

  lemma {:induction false} EqualPassOfItself<T, E>(base: seq<T>, equality: T -> Option<E>, n: nat)
    requires n <= |base|
    requires forall i :: 0 <= i < |base| ==> equality(base[i]).Some?
    ensures var r := Pass(Enumerate(base), Progress([], [], base), equality, n);
            && r.unmatched == [] && r.remaining == base[n..]
            && (forall i :: 0 <= i < |r.pairs| ==> r.pairs[i].prior == r.pairs[i].current)
  {
    if n > 0 {
      EqualPassOfItself(base, equality, n - 1);
      assert SameKey(equality, base[n - 1], base[n - 1..][0]);
      assert RemoveAt(base[n - 1..], 0) == base[n..];
    }
  }

  /** A list matched against itself pairs every member with itself. */
  lemma MatchOfItself<T, E, I>(base: seq<T>, equality: T -> Option<E>, identity: T -> Option<I>)
    requires forall i :: 0 <= i < |base| ==> equality(base[i]).Some?
    ensures var r := Match(base, base, equality, identity);
            && r.removed == [] && r.added == []
            && (forall i :: 0 <= i < |r.pairs| ==> r.pairs[i].prior == r.pairs[i].current)
  {
    EqualPassOfItself(base, equality, |base|);
    MatchIndexed(base, base, equality, identity);
    SortByIndexSorts(EqualPass(base, base, equality).pairs);
  }

  /** One member matched against a list that starts with it. */
  lemma MatchOfHead<T, E, I>(member: T, rest: seq<T>, equality: T -> Option<E>, identity: T -> Option<I>)
    requires equality(member).Some?
    ensures Match([member], [member] + rest, equality, identity) == Matching([Pair(0, member, member)], [], rest)
  {
    var current := [member] + rest;
    assert SameKey(equality, member, current[0]);
    assert RemoveAt(current, 0) == rest;
    var equal := EqualPass([member], current, equality);
    var start: Progress<T> := Progress([], [], current);
    assert Pass(Enumerate([member]), start, equality, 0) == start && Enumerate([member])[0] == (0, member);
    assert equal == TakeEntry(start, (0, member), equality);
    assert equal == Progress([Pair(0, member, member)], [], rest);
    var pair := Pair(0, member, member);
    assert [pair][..0] == [];
    assert SortByIndex([pair]) == Insert([], pair) == [pair];
    assert Values<T>([]) == [];
  }
}
