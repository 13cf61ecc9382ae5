/**
  Which members the matching of compositions pairs, counted key by key.

  Of the members with one key, the first ones on both sides are paired in order, as many as there are
  on the shorter side; the others are left.
 */
module MatchingOrder {
  import opened Wrappers
  import opened Text
  import opened CompositionMatching

  /** The members with this key, in order. */
  function Having<T, K(==)>(members: seq<T>, key: T -> Option<K>, k: K): seq<T> {
    if members == [] then []
    else
      var last := members[|members| - 1];
      Having(members[..|members| - 1], key, k) + (if key(last) == Some(k) then [last] else [])
  }

  /** After the members, one more that has no key or comes after as many with its key as the others have. */
  predicate Outnumbers<T, K(==)>(members: seq<T>, last: T, others: seq<T>, key: T -> Option<K>) {
    key(last).None? || |Having(members, key, key(last).value)| >= |Having(others, key, key(last).value)|
  }

  /** The members without a key, and those that come after as many with their key as the others have. */
  function Beyond<T, K(==)>(members: seq<T>, others: seq<T>, key: T -> Option<K>): seq<T> {
    if members == [] then []
    else
      var front, last := members[..|members| - 1], members[|members| - 1];
      Beyond(front, others, key) + (if Outnumbers(front, last, others, key) then [last] else [])
  }

  lemma HavingLast<T, K>(members: seq<T>, last: T, key: T -> Option<K>, k: K)
    ensures Having(members + [last], key, k)
         == Having(members, key, k) + (if key(last) == Some(k) then [last] else [])
  {
    assert (members + [last])[..|members|] == members;
  }

  lemma BeyondLast<T, K>(members: seq<T>, last: T, others: seq<T>, key: T -> Option<K>)
    ensures Beyond(members + [last], others, key)
         == Beyond(members, others, key) + (if Outnumbers(members, last, others, key) then [last] else [])
  {
    assert (members + [last])[..|members|] == members;
  }

  lemma {:induction false} HavingSum<T, K>(left: seq<T>, right: seq<T>, key: T -> Option<K>, k: K)
    ensures Having(left + right, key, k) == Having(left, key, k) + Having(right, key, k)
  {
    if right == [] {
      assert left + right == left;
    } else {
      var front, last := right[..|right| - 1], right[|right| - 1];
      assert right == front + [last] && left + right == (left + front) + [last];
      HavingLast(left + front, last, key, k);
      HavingSum(left, front, key, k);
    }
  }

  lemma {:induction false} HavingNone<T, K>(members: seq<T>, key: T -> Option<K>, k: K)
    requires forall i :: 0 <= i < |members| ==> key(members[i]) != Some(k)
    ensures Having(members, key, k) == []
  {
    if members != [] {
      HavingNone(members[..|members| - 1], key, k);
    }
  }

  function One<T, K(==)>(member: T, key: T -> Option<K>, k: K): seq<T> {
    if key(member) == Some(k) then [member] else []
  }

  lemma HavingOne<T, K>(member: T, key: T -> Option<K>, k: K)
    ensures Having([member], key, k) == One(member, key, k)
  {
    HavingLast([], member, key, k);
    assert [] + [member] == [member];
  }

  lemma HavingSplit<T, K>(before: seq<T>, member: T, after: seq<T>, key: T -> Option<K>, k: K)
    ensures Having(before + ([member] + after), key, k)
         == Having(before, key, k) + (One(member, key, k) + Having(after, key, k))
  {
    hide Having, One;
    HavingSum(before, [member] + after, key, k);
    HavingSum([member], after, key, k);
    HavingOne(member, key, k);
  }

  lemma SplitAt<T>(members: seq<T>, i: nat)
    requires i < |members|
    ensures members == members[..i] + ([members[i]] + members[i + 1..])
    ensures RemoveAt(members, i) == members[..i] + members[i + 1..]
  {
  }

  /** The first match is the first member that has the key, and taking it leaves the others. */
  lemma FirstMatchIsFirst<T, K>(members: seq<T>, key: T -> Option<K>, wanted: T, k: K)
    requires key(wanted) == Some(k)
    ensures var i, having := FirstMatch(members, key, wanted), Having(members, key, k);
            && (i < |members| <==> having != [])
            && (i < |members| ==> having == [members[i]] + Having(RemoveAt(members, i), key, k))
  {
    var i := FirstMatch(members, key, wanted);
    var before := members[..i];
    HavingNone(before, key, k);
    hide Having, FirstMatch, RemoveAt;
    if i < |members| {
      SplitAt(members, i);
      HavingSplit(before, members[i], members[i + 1..], key, k);
      HavingSum(before, members[i + 1..], key, k);
    } else {
      assert before == members;
    }
  }

  lemma TakingLeavesOtherKeys<T, K>(members: seq<T>, i: nat, key: T -> Option<K>, k: K)
    requires i < |members| && key(members[i]) != Some(k)
    ensures Having(RemoveAt(members, i), key, k) == Having(members, key, k)
  {
    hide Having, RemoveAt;
    SplitAt(members, i);
    HavingSplit(members[..i], members[i], members[i + 1..], key, k);
    HavingSum(members[..i], members[i + 1..], key, k);
  }

  // ----- what one pass leaves -----

  function Surplus(count: nat, taken: nat): nat {
    if taken < count then count - taken else 0
  }

  lemma CountLast<T, K>(members: seq<T>, last: T, key: T -> Option<K>, k: K)
    ensures |Having(members + [last], key, k)| == |Having(members, key, k)| + (if key(last) == Some(k) then 1 else 0)
  {
    HavingLast(members, last, key, k);
    hide Having;
  }

  lemma BeyondCountLast<T, K>(members: seq<T>, last: T, others: seq<T>, key: T -> Option<K>, k: K)
    ensures |Having(Beyond(members + [last], others, key), key, k)|
         == |Having(Beyond(members, others, key), key, k)|
            + (if key(last) == Some(k) && Outnumbers(members, last, others, key) then 1 else 0)
  {
    BeyondLast(members, last, others, key);
    CountLast(Beyond(members, others, key), last, key, k);
    hide Having, Beyond, Outnumbers;
    assert Beyond(members, others, key) + [] == Beyond(members, others, key);
  }

  lemma {:induction false} BeyondCount<T, K>(members: seq<T>, others: seq<T>, key: T -> Option<K>, k: K)
    ensures |Having(Beyond(members, others, key), key, k)|
         == Surplus(|Having(members, key, k)|, |Having(others, key, k)|)
  {
    if members != [] {
      var front, last := members[..|members| - 1], members[|members| - 1];
      BeyondCount(front, others, key, k);
      hide Having, Beyond;
      CountLast(front, last, key, k);
      BeyondCountLast(front, last, others, key, k);
      assert front + [last] == members;
    }
  }

  lemma FirstMatchFound<T, K>(members: seq<T>, last: T, key: T -> Option<K>, wanted: T)
    ensures var i := FirstMatch(members, key, wanted);
            FirstMatch(members + [last], key, wanted)
              == if i < |members| || SameKey(key, wanted, last) then i else |members| + 1
  {
    var longer := members + [last];
    var i, j := FirstMatch(members, key, wanted), FirstMatch(longer, key, wanted);
    hide FirstMatch, SameKey;
    assert forall n :: 0 <= n < |members| ==> longer[n] == members[n];
    assert longer[|members|] == last;
  }

  /** What is left when the first match of a wanted member is taken, if there is one. */
  function Without<T, K(==)>(members: seq<T>, key: T -> Option<K>, wanted: T): seq<T> {
    var i := FirstMatch(members, key, wanted);
    if i < |members| then RemoveAt(members, i) else members
  }

  lemma RemoveBefore<T>(members: seq<T>, last: T, i: nat)
    requires i <= |members|
    ensures RemoveAt(members + [last], i) == if i < |members| then RemoveAt(members, i) + [last] else members
  {
    Cut(members, [last], i);
    if i < |members| {
      Cut(members, [last], i + 1);
    }
  }

  lemma WithoutLast<T, K>(members: seq<T>, last: T, key: T -> Option<K>, wanted: T)
    ensures FirstMatch(members, key, wanted) < |members| || !SameKey(key, wanted, last) ==>
              Without(members + [last], key, wanted) == Without(members, key, wanted) + [last]
    ensures FirstMatch(members, key, wanted) == |members| && SameKey(key, wanted, last) ==>
              Without(members + [last], key, wanted) == members
  {
    FirstMatchFound(members, last, key, wanted);
    RemoveBefore(members, last, FirstMatch(members, key, wanted));
    hide FirstMatch, SameKey, RemoveAt;
  }

  lemma OtherKeyStays<T, K>(members: seq<T>, last: T, others: seq<T>, other: T, key: T -> Option<K>)
    requires !SameKey(key, other, last)
    ensures Outnumbers(members, last, others + [other], key) <==> Outnumbers(members, last, others, key)
  {
    if key(last).Some? {
      HavingLast(others, other, key, key(last).value);
    }
  }

  /** A member of the same key is among the first ones matched, the next one matched, or beyond both. */
  lemma SameKeyTakes<T, K>(members: seq<T>, last: T, others: seq<T>, other: T, key: T -> Option<K>)
    requires SameKey(key, other, last)
    ensures var found := FirstMatch(Beyond(members, others, key), key, other) < |Beyond(members, others, key)|;
            && (Outnumbers(members, last, others + [other], key) <==> found)
            && (found ==> Outnumbers(members, last, others, key))
  {
    var k := key(last).value;
    HavingLast(others, other, key, k);
    BeyondCount(members, others, key, k);
    FirstMatchIsFirst(Beyond(members, others, key), key, other, k);
  }

  /** One more member on the other side takes the first match among those left. */
  lemma {:induction false} BeyondOneMore<T, K>(members: seq<T>, others: seq<T>, other: T, key: T -> Option<K>)
    ensures Beyond(members, others + [other], key) == Without(Beyond(members, others, key), key, other)
  {
    if members != [] {
      var front, last := members[..|members| - 1], members[|members| - 1];
      var before := Beyond(front, others, key);
      BeyondOneMore(front, others, other, key);
      assert front + [last] == members && before + [] == before;
      hide Having, Beyond, FirstMatch, RemoveAt, Outnumbers;
      WithoutLast(before, last, key, other);
      if SameKey(key, other, last) {
        SameKeyTakes(front, last, others, other, key);
      } else {
        OtherKeyStays(front, last, others, other, key);
      }
      hide SameKey;
      BeyondLast(front, last, others, key);
      BeyondLast(front, last, others + [other], key);
      assert Without(before, key, other) + [] == Without(before, key, other);
    }
  }

  lemma PassOne<T, K>(entries: seq<(nat, T)>, start: Progress<T>, key: T -> Option<K>, n: nat)
    requires n < |entries|
    ensures Pass(entries, start, key, n + 1) == TakeEntry(Pass(entries, start, key, n), entries[n], key)
    ensures Values(entries[..n + 1]) == Values(entries[..n]) + [entries[n].1]
  {
    hide TakeEntry;
  }

  /** A pass leaves on either side the members that outnumber those with their key on the other. */
  lemma {:induction false} PassLeaves<T, K>(entries: seq<(nat, T)>, start: Progress<T>, key: T -> Option<K>, n: nat)
    requires n <= |entries|
    ensures var r, taken := Pass(entries, start, key, n), Values(entries[..n]);
            && r.remaining == Beyond(start.remaining, taken, key)
            && Values(r.unmatched) == Values(start.unmatched) + Beyond(taken, start.remaining, key)
  {
    hide Beyond, TakeEntry, Outnumbers;
    if n == 0 {
      assert Values(entries[..0]) == [];
      NothingTaken(start.remaining, key);
      NothingLeft(start.remaining, key);
      assert Values(start.unmatched) + [] == Values(start.unmatched);
    } else {
      PassLeaves(entries, start, key, n - 1);
      hide Pass;
      PassOne(entries, start, key, n - 1);
      EntryLeaves(start.remaining, Values(entries[..n - 1]), Pass(entries, start, key, n - 1), entries[n - 1], key);
      Regroup(Values(start.unmatched), Beyond(Values(entries[..n - 1]), start.remaining, key),
              if Outnumbers(Values(entries[..n - 1]), entries[n - 1].1, start.remaining, key) then [entries[n - 1].1]
              else []);
      BeyondLast(Values(entries[..n - 1]), entries[n - 1].1, start.remaining, key);
    }
  }

  lemma NothingLeft<T, K>(others: seq<T>, key: T -> Option<K>)
    ensures Beyond([], others, key) == []
  {
  }

  lemma EntryLeaves<T, K>(others: seq<T>, taken: seq<T>, state: Progress<T>, entry: (nat, T), key: T -> Option<K>)
    requires state.remaining == Beyond(others, taken, key)
    ensures var r := TakeEntry(state, entry, key);
            && r.remaining == Beyond(others, taken + [entry.1], key)
            && Values(r.unmatched)
                  == Values(state.unmatched) + (if Outnumbers(taken, entry.1, others, key) then [entry.1] else [])
  {
    hide Beyond, FirstMatch, RemoveAt, Outnumbers;
    BeyondOneMore(others, taken, entry.1, key);
    MatchedIsNotBeyond(others, taken, entry.1, key);
    assert Values(state.unmatched + [entry]) == Values(state.unmatched) + [entry.1];
    assert Values(state.unmatched) + [] == Values(state.unmatched);
  }

  /** A member finds no match exactly when it outnumbers the others. */
  lemma MatchedIsNotBeyond<T, K>(others: seq<T>, taken: seq<T>, member: T, key: T -> Option<K>)
    ensures var left := Beyond(others, taken, key);
            FirstMatch(left, key, member) == |left| <==> Outnumbers(taken, member, others, key)
  {
    if key(member).Some? {
      FirstMatchIsFirst(Beyond(others, taken, key), key, member, key(member).value);
      BeyondCount(others, taken, key, key(member).value);
    }
  }

  lemma {:induction false} NothingTaken<T, K>(members: seq<T>, key: T -> Option<K>)
    ensures Beyond(members, [], key) == members
  {
    if members != [] {
      NothingTaken(members[..|members| - 1], key);
    }
  }

  // ----- what one pass pairs -----

  /** The pairs whose base member has this key, in order. */
  function PairsOf<T, K(==)>(pairs: seq<Pair<T>>, key: T -> Option<K>, k: K): seq<Pair<T>> {
    if pairs == [] then []
    else
      var last := pairs[|pairs| - 1];
      PairsOf(pairs[..|pairs| - 1], key, k) + (if key(last.prior) == Some(k) then [last] else [])
  }

  lemma PairsOfLast<T, K>(pairs: seq<Pair<T>>, last: Pair<T>, key: T -> Option<K>, k: K)
    ensures PairsOf(pairs + [last], key, k)
         == PairsOf(pairs, key, k) + (if key(last.prior) == Some(k) then [last] else [])
  {
    assert (pairs + [last])[..|pairs|] == pairs;
  }

  function Shorter<T>(left: seq<T>, right: seq<T>): nat {
    if |left| < |right| then |left| else |right|
  }

  /** The n-th base member of one key is paired with the n-th current member of that key, as far as both go. */
  ghost predicate Zipped<T>(pairs: seq<Pair<T>>, members: seq<T>, others: seq<T>) {
    && |pairs| == Shorter(members, others)
    && forall i :: 0 <= i < |pairs| ==> pairs[i].prior == members[i] && pairs[i].current == others[i]
  }

  lemma SliceLast<T>(s: seq<T>, last: T, others: seq<T>)
    ensures (s + [last])[Shorter(s + [last], others)..]
         == s[Shorter(s, others)..] + (if |s| >= |others| then [last] else [])
  {
  }

  lemma {:induction false} BeyondHaving<T, K>(members: seq<T>, others: seq<T>, key: T -> Option<K>, k: K)
    ensures var having := Having(members, key, k);
            Having(Beyond(members, others, key), key, k) == having[Shorter(having, Having(others, key, k))..]
  {
    if members != [] {
      var front, last := members[..|members| - 1], members[|members| - 1];
      BeyondHaving(front, others, key, k);
      hide Having, Beyond;
      assert front + [last] == members;
      var before := Beyond(front, others, key);
      BeyondLast(front, last, others, key);
      HavingLast(front, last, key, k);
      HavingLast(before, last, key, k);
      if key(last) == Some(k) {
        SliceLast(Having(front, key, k), last, Having(others, key, k));
        hide Shorter;
        Ends(Having(before, key, k), before);
      } else {
        hide Shorter;
        Ends(Having(before, key, k), before);
        Ends(Having(front, key, k), before);
      }
    }
  }

  lemma Ends<T>(s: seq<T>, t: seq<T>)
    ensures s + [] == s && t + [] == t
  {
  }

  /** What taking one more entry does to the pairs of one key. */
  lemma EntryPairs<T, K>(others: seq<T>, taken: seq<T>, state: Progress<T>, entry: (nat, T), key: T -> Option<K>, k: K)
    requires state.remaining == Beyond(others, taken, key)
    requires Zipped(PairsOf(state.pairs, key, k), Having(taken, key, k), Having(others, key, k))
    ensures Zipped(PairsOf(TakeEntry(state, entry, key).pairs, key, k), Having(taken + [entry.1], key, k),
                   Having(others, key, k))
  {
    hide Having, Beyond, FirstMatch, RemoveAt, PairsOf;
    HavingLast(taken, entry.1, key, k);
    var i := FirstMatch(state.remaining, key, entry.1);
    if i < |state.remaining| {
      PairsOfLast(state.pairs, Pair(entry.0, entry.1, state.remaining[i]), key, k);
    }
    if key(entry.1) == Some(k) {
      FirstMatchIsFirst(state.remaining, key, entry.1, k);
      BeyondHaving(others, taken, key, k);
    }
  }

  ghost predicate ShareKeys<T, K>(pairs: seq<Pair<T>>, key: T -> Option<K>) {
    forall i :: 0 <= i < |pairs| ==> SameKey(key, pairs[i].prior, pairs[i].current)
  }

  /** Every pair shares a key, and those of one key are zipped. */
  ghost predicate InOrder<T, K(!new)>(pairs: seq<Pair<T>>, members: seq<T>, others: seq<T>, key: T -> Option<K>) {
    && ShareKeys(pairs, key)
    && forall k: K :: Zipped(PairsOf(pairs, key, k), Having(members, key, k), Having(others, key, k))
  }

  lemma {:induction false} PassShares<T, K>(entries: seq<(nat, T)>, start: Progress<T>, key: T -> Option<K>, n: nat)
    requires n <= |entries| && start.pairs == []
    ensures ShareKeys(Pass(entries, start, key, n).pairs, key)
  {
    if n > 0 {
      PassShares(entries, start, key, n - 1);
    }
  }

  lemma {:induction false} PassZips<T, K>(entries: seq<(nat, T)>, start: Progress<T>, key: T -> Option<K>, n: nat, k: K)
    requires n <= |entries| && start.pairs == []
    ensures Zipped(PairsOf(Pass(entries, start, key, n).pairs, key, k), Having(Values(entries[..n]), key, k),
                   Having(start.remaining, key, k))
  {
    if n == 0 {
      assert Values(entries[..0]) == [];
    } else {
      PassZips(entries, start, key, n - 1, k);
      PassLeaves(entries, start, key, n - 1);
      PassOne(entries, start, key, n - 1);
      hide Pass, TakeEntry, Having, Beyond, PairsOf, Zipped;
      EntryPairs(start.remaining, Values(entries[..n - 1]), Pass(entries, start, key, n - 1), entries[n - 1], key, k);
    }
  }

  /** A pass pairs in order and leaves the rest. */
  lemma PassMeans<T, K(!new)>(entries: seq<(nat, T)>, others: seq<T>, key: T -> Option<K>)
    ensures var r, members := Pass(entries, Progress([], [], others), key, |entries|), Values(entries);
            && InOrder(r.pairs, members, others, key)
            && Values(r.unmatched) == Beyond(members, others, key)
            && r.remaining == Beyond(others, members, key)
  {
    var start: Progress<T> := Progress([], [], others);
    assert entries[..|entries|] == entries;
    PassShares(entries, start, key, |entries|);
    PassLeaves(entries, start, key, |entries|);
    hide Pass, Having, Beyond, PairsOf, Zipped, ShareKeys;
    forall k: K ensures Zipped(PairsOf(Pass(entries, start, key, |entries|).pairs, key, k),
                               Having(Values(entries), key, k), Having(others, key, k)) {
      PassZips(entries, start, key, |entries|, k);
    }
    assert Values(start.unmatched) == [];
  }

  // ----- both passes -----

  lemma {:induction false} PassFrom<T, K>(entries: seq<(nat, T)>, start: Progress<T>, key: T -> Option<K>, n: nat)
    requires n <= |entries|
    ensures var r := Pass(entries, start.(pairs := []), key, n);
            Pass(entries, start, key, n) == r.(pairs := start.pairs + r.pairs)
  {
    if n > 0 {
      PassFrom(entries, start, key, n - 1);
    }
  }

  ghost predicate Ascending<T>(entries: seq<(nat, T)>) {
    forall i, j :: 0 <= i < j < |entries| ==> entries[i].0 < entries[j].0
  }

  lemma {:induction false} PassAscends<T, K>(entries: seq<(nat, T)>, start: Progress<T>, key: T -> Option<K>, n: nat)
    requires n <= |entries| && Ascending(entries) && start.pairs == [] && start.unmatched == []
    ensures var r := Pass(entries, start, key, n);
            && StrictlyOrdered(r.pairs) && Ascending(r.unmatched)
            && (forall i :: 0 <= i < |r.pairs| ==> r.pairs[i].index <= entries[n - 1].0)
            && (forall i :: 0 <= i < |r.unmatched| ==> r.unmatched[i].0 <= entries[n - 1].0)
    ensures n == 0 ==> Pass(entries, start, key, n) == start
  {
    if n > 0 {
      PassAscends(entries, start, key, n - 1);
      hide FirstMatch, RemoveAt;
    }
  }

  /** The pairs of equal members, or the other ones. */
  function Chosen<T, E(==)>(pairs: seq<Pair<T>>, equality: T -> Option<E>, equal: bool): seq<Pair<T>> {
    if pairs == [] then []
    else
      (if SameKey(equality, pairs[0].prior, pairs[0].current) == equal then [pairs[0]] else [])
      + Chosen(pairs[1..], equality, equal)
  }

  lemma ChosenFirst<T, E>(first: Pair<T>, rest: seq<Pair<T>>, equality: T -> Option<E>, equal: bool)
    ensures Chosen([first] + rest, equality, equal)
         == (if SameKey(equality, first.prior, first.current) == equal then [first] else [])
            + Chosen(rest, equality, equal)
  {
    hide SameKey;
    assert ([first] + rest)[1..] == rest;
  }

  lemma {:induction false} ChosenSum<T, E>(left: seq<Pair<T>>, right: seq<Pair<T>>, equality: T -> Option<E>,
                                           equal: bool)
    ensures Chosen(left + right, equality, equal) == Chosen(left, equality, equal) + Chosen(right, equality, equal)
  {
    if left == [] {
      assert left + right == right;
    } else {
      var rest := left[1..];
      ChosenSum(rest, right, equality, equal);
      hide Chosen, SameKey;
      assert left == [left[0]] + rest && left + right == [left[0]] + (rest + right);
      ChosenFirst(left[0], rest, equality, equal);
      ChosenFirst(left[0], rest + right, equality, equal);
      var one := if SameKey(equality, left[0].prior, left[0].current) == equal then [left[0]] else [];
      Regroup(one, Chosen(rest, equality, equal), Chosen(right, equality, equal));
    }
  }

  lemma {:induction false} ChosenIn<T, E>(pairs: seq<Pair<T>>, equality: T -> Option<E>, equal: bool)
    ensures forall pair :: pair in Chosen(pairs, equality, equal) ==> pair in pairs
    ensures (forall i :: 0 <= i < |pairs| ==> SameKey(equality, pairs[i].prior, pairs[i].current) == equal)
            ==> Chosen(pairs, equality, equal) == pairs && Chosen(pairs, equality, !equal) == []
  {
    if pairs != [] {
      ChosenIn(pairs[1..], equality, equal);
      assert pairs == [pairs[0]] + pairs[1..];
    }
  }

  lemma InsertedBefore<T, E>(sorted: seq<Pair<T>>, pair: Pair<T>, equality: T -> Option<E>, equal: bool)
    requires StrictlyOrdered(sorted) && (sorted == [] || pair.index < sorted[0].index)
    ensures Insert(sorted, pair) == [pair] + sorted
    ensures Insert(Chosen(sorted, equality, equal), pair) == [pair] + Chosen(sorted, equality, equal)
  {
    ChosenIn(sorted, equality, equal);
    hide Chosen, SameKey;
    var chosen := Chosen(sorted, equality, equal);
    if chosen != [] {
      assert chosen[0] in sorted;
    }
  }

  /** Sorting commutes with choosing. */
  lemma {:induction false} ChosenInserted<T, E>(sorted: seq<Pair<T>>, pair: Pair<T>, equality: T -> Option<E>,
                                                equal: bool)
    requires StrictlyOrdered(sorted)
    ensures Chosen(Insert(sorted, pair), equality, equal)
         == if SameKey(equality, pair.prior, pair.current) == equal
            then Insert(Chosen(sorted, equality, equal), pair) else Chosen(sorted, equality, equal)
  {
    hide SameKey, Chosen;
    if sorted == [] || pair.index < sorted[0].index {
      InsertedBefore(sorted, pair, equality, equal);
      hide Insert;
      ChosenFirst(pair, sorted, equality, equal);
      assert [] + Chosen(sorted, equality, equal) == Chosen(sorted, equality, equal);
    } else {
      var first, rest := sorted[0], sorted[1..];
      ChosenInserted(rest, pair, equality, equal);
      assert sorted == [first] + rest && Insert(sorted, pair) == [first] + Insert(rest, pair);
      hide Insert;
      ChosenFirst(first, rest, equality, equal);
      ChosenFirst(first, Insert(rest, pair), equality, equal);
      InsertedBehind(first, Chosen(rest, equality, equal), pair);
    }
  }

  lemma InsertedBehind<T>(first: Pair<T>, rest: seq<Pair<T>>, pair: Pair<T>)
    requires first.index <= pair.index
    ensures Insert([first] + rest, pair) == [first] + Insert(rest, pair)
    ensures Insert([] + rest, pair) == [] + Insert(rest, pair)
  {
    assert ([first] + rest)[1..] == rest && [] + rest == rest;
  }

  ghost predicate DistinctIndices<T>(pairs: seq<Pair<T>>) {
    forall i, j :: 0 <= i < j < |pairs| ==> pairs[i].index != pairs[j].index
  }

  lemma ChosenLast<T, E>(front: seq<Pair<T>>, last: Pair<T>, equality: T -> Option<E>, equal: bool)
    ensures var chosen := Chosen(front, equality, equal);
            Chosen(front + [last], equality, equal)
              == if SameKey(equality, last.prior, last.current) == equal then chosen + [last] else chosen
  {
    ChosenSum(front, [last], equality, equal);
    assert Chosen([last], equality, equal)
        == if SameKey(equality, last.prior, last.current) == equal then [last] else [];
    hide Chosen, SameKey;
    assert Chosen(front, equality, equal) + [] == Chosen(front, equality, equal);
  }

  lemma SortedLast<T>(front: seq<Pair<T>>, last: Pair<T>)
    ensures SortByIndex(front + [last]) == Insert(SortByIndex(front), last)
  {
    hide Insert;
    assert (front + [last])[..|front|] == front;
  }

  lemma {:induction false} ChosenSorted<T, E>(pairs: seq<Pair<T>>, equality: T -> Option<E>, equal: bool)
    requires DistinctIndices(pairs)
    ensures Chosen(SortByIndex(pairs), equality, equal) == SortByIndex(Chosen(pairs, equality, equal))
  {
    if pairs != [] {
      var front, last := pairs[..|pairs| - 1], pairs[|pairs| - 1];
      ChosenSorted(front, equality, equal);
      SortByIndexSorts(front);
      hide Insert, SameKey, Chosen, SortByIndex;
      assert pairs == front + [last];
      SortedLast(front, last);
      ChosenInserted(SortByIndex(front), last, equality, equal);
      ChosenLast(front, last, equality, equal);
      SortedLast(Chosen(front, equality, equal), last);
    }
  }

  lemma {:induction false} InsertedLast<T>(sorted: seq<Pair<T>>, pair: Pair<T>)
    requires forall i :: 0 <= i < |sorted| ==> sorted[i].index < pair.index
    ensures Insert(sorted, pair) == sorted + [pair]
  {
    if sorted != [] {
      InsertedLast(sorted[1..], pair);
      assert sorted == [sorted[0]] + sorted[1..];
    }
  }

  lemma {:induction false} SortedStays<T>(pairs: seq<Pair<T>>)
    requires StrictlyOrdered(pairs)
    ensures SortByIndex(pairs) == pairs
  {
    if pairs != [] {
      SortedStays(pairs[..|pairs| - 1]);
      InsertedLast(pairs[..|pairs| - 1], pairs[|pairs| - 1]);
    }
  }

  lemma EnumerateAscends<T>(members: seq<T>)
    ensures Ascending(Enumerate(members)) && Values(Enumerate(members)) == members
  {
  }

  /** The pairs of both passes, before they are sorted. */
  lemma MatchParts<T, E, I>(base: seq<T>, current: seq<T>, equality: T -> Option<E>, identity: T -> Option<I>)
    returns (equal: Progress<T>, alike: Progress<T>)
    ensures equal == EqualPass(base, current, equality) && StrictlyOrdered(equal.pairs)
    ensures alike == Pass(equal.unmatched, Progress([], [], equal.remaining), identity, |equal.unmatched|)
    ensures StrictlyOrdered(alike.pairs) && DistinctIndices(equal.pairs + alike.pairs)
    ensures Match(base, current, equality, identity)
         == Matching(SortByIndex(equal.pairs + alike.pairs), Values(alike.unmatched), alike.remaining)
  {
    equal := EqualPass(base, current, equality);
    alike := Pass(equal.unmatched, Progress([], [], equal.remaining), identity, |equal.unmatched|);
    EnumerateAscends(base);
    PassAscends(Enumerate(base), Progress([], [], current), equality, |base|);
    PassAscends(equal.unmatched, Progress([], [], equal.remaining), identity, |equal.unmatched|);
    PassFrom(equal.unmatched, equal.(unmatched := []), identity, |equal.unmatched|);
    MatchIndexed(base, current, equality, identity);
    hide Pass;
  }

  /** Equal members are all paired by the first pass. */
  lemma AlikeAreNotEqual<T, E, I>(base: seq<T>, current: seq<T>, equality: T -> Option<E>, identity: T -> Option<I>,
                                  equal: Progress<T>, alike: Progress<T>)
    requires equal == EqualPass(base, current, equality)
    requires alike == Pass(equal.unmatched, Progress([], [], equal.remaining), identity, |equal.unmatched|)
    ensures forall i :: 0 <= i < |alike.pairs| ==> !SameKey(equality, alike.pairs[i].prior, alike.pairs[i].current)
  {
    PassLeavesNoMatch(Enumerate(base), Progress([], [], current), equality, |base|);
    PassPairsFrom(equal.unmatched, Progress([], [], equal.remaining), identity, |equal.unmatched|);
    hide Pass, SameKey;
    forall i | 0 <= i < |alike.pairs|
      ensures !SameKey(equality, alike.pairs[i].prior, alike.pairs[i].current)
    {
      var n :| 0 <= n < |equal.unmatched| && equal.unmatched[n] == (alike.pairs[i].index, alike.pairs[i].prior);
      var m :| 0 <= m < |equal.remaining| && equal.remaining[m] == alike.pairs[i].current;
    }
  }

  /** The pairs come from these entries and members, and so does what remains. */
  ghost predicate ComesFrom<T>(state: Progress<T>, entries: seq<(nat, T)>, members: seq<T>) {
    && (forall i :: 0 <= i < |state.pairs| ==> state.pairs[i].current in members)
    && (forall i :: 0 <= i < |state.pairs| ==> (state.pairs[i].index, state.pairs[i].prior) in entries)
    && (forall i :: 0 <= i < |state.remaining| ==> state.remaining[i] in members)
  }

  lemma EntryComesFrom<T, K>(state: Progress<T>, entry: (nat, T), key: T -> Option<K>, entries: seq<(nat, T)>,
                             members: seq<T>)
    requires ComesFrom(state, entries, members) && entry in entries
    ensures ComesFrom(TakeEntry(state, entry, key), entries, members)
  {
    var k := FirstMatch(state.remaining, key, entry.1);
    hide FirstMatch;
    if k < |state.remaining| {
      SplitAt(state.remaining, k);
    }
  }

  lemma {:induction false} PassPairsFrom<T, K>(entries: seq<(nat, T)>, start: Progress<T>, key: T -> Option<K>, n: nat)
    requires n <= |entries| && start.pairs == []
    ensures ComesFrom(Pass(entries, start, key, n), entries, start.remaining)
  {
    if n > 0 {
      PassPairsFrom(entries, start, key, n - 1);
      EntryComesFrom(Pass(entries, start, key, n - 1), entries[n - 1], key, entries, start.remaining);
      hide TakeEntry, ComesFrom;
    }
  }

  /**
    Equal members are paired first, in order, as many as there are of each kind on both sides. Of the
    members left over, those of one identity are then paired in order. What is left over after that
    was removed or added.
   */
  lemma MatchMeans<T, E(!new), I(!new)>(base: seq<T>, current: seq<T>, equality: T -> Option<E>,
                                        identity: T -> Option<I>)
    ensures var r := Match(base, current, equality, identity);
            var prior, later := Beyond(base, current, equality), Beyond(current, base, equality);
            && InOrder(Chosen(r.pairs, equality, true), base, current, equality)
            && InOrder(Chosen(r.pairs, equality, false), prior, later, identity)
            && r.removed == Beyond(prior, later, identity)
            && r.added == Beyond(later, prior, identity)
  {
    var equal, alike := MatchParts(base, current, equality, identity);
    EnumerateAscends(base);
    PassMeans(Enumerate(base), current, equality);
    PassMeans(equal.unmatched, equal.remaining, identity);
    AlikeAreNotEqual(base, current, equality, identity, equal, alike);
    forall which: bool
      ensures Chosen(SortByIndex(equal.pairs + alike.pairs), equality, which)
           == if which then equal.pairs else alike.pairs
    {
      ChosenOfBoth(equal.pairs, alike.pairs, equality, which);
    }
    hide Pass, Match, InOrder, Beyond, SortByIndex, Chosen;
  }

  lemma ChosenOfBoth<T, E>(equal: seq<Pair<T>>, alike: seq<Pair<T>>, equality: T -> Option<E>, which: bool)
    requires StrictlyOrdered(equal) && StrictlyOrdered(alike) && DistinctIndices(equal + alike)
    requires ShareKeys(equal, equality)
    requires forall i :: 0 <= i < |alike| ==> !SameKey(equality, alike[i].prior, alike[i].current)
    ensures Chosen(SortByIndex(equal + alike), equality, which) == if which then equal else alike
  {
    hide SortByIndex, Chosen;
    ChosenIn(equal, equality, true);
    ChosenIn(alike, equality, false);
    hide SameKey;
    ChosenSorted(equal + alike, equality, which);
    ChosenSum(equal, alike, equality, which);
    assert Chosen(equal + alike, equality, which) == if which then equal else alike by {
      hide StrictlyOrdered, DistinctIndices;
      assert equal + [] == equal && [] + alike == alike;
    }
    SortedStays(if which then equal else alike);
  }
}
