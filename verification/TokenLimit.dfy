/**
  Concurrent issuing under a per-owner limit.

  A limited issue takes the owner's advisory lock, counts, inserts and commits; between these steps
  any other transaction may run. Locks are keyed by a hash of the owner, so two owners may share
  one. A commit first becomes visible and then releases the lock.
 */
module TokenLimit {
  import opened Wrappers
  import opened TokenTable

  datatype Phase = Waiting | Holding | Counted(active: nat) | Inserting(counted: nat) | Committed

  datatype Transaction = Transaction(record: Record, phase: Phase)

  datatype State = State(
    table: Table,
    transactions: map<nat, Transaction>,
    // When the last committed token of each owner was created.
    lastCreated: map<OwnerId, Instant>
  )

  datatype Config = Config(maximum: nat, lockKey: OwnerId -> int)

  datatype Step =
    | Begin(tx: nat, record: Record)
    | Lock(tx: nat)
    | Count(tx: nat)
    | Reject(tx: nat)
    | Insert(tx: nat)
    | Publish(tx: nat)
    | Release(tx: nat)
    | Abort(tx: nat)
    | Touch(id: TokenId, usedAt: Instant)
    | Revoke(owner: OwnerId, id: TokenId, at: Instant)
    | Purge(cutoff: Instant, limit: nat, locked: set<TokenId>)
    | Erase(owner: OwnerId)

  predicate Holds(s: State, tx: nat) {
    tx in s.transactions && !s.transactions[tx].phase.Waiting?
  }

  function KeyOf(c: Config, s: State, tx: nat): int
    requires tx in s.transactions
  {
    (c.lockKey)(s.transactions[tx].record.ownerId)
  }

  /** Whether the step can happen now. */
  predicate Enabled(c: Config, s: State, step: Step) {
    match step
    case Begin(tx, record) => tx !in s.transactions
    case Lock(tx) =>
      && tx in s.transactions && s.transactions[tx].phase.Waiting?
      && forall other <- s.transactions :: Holds(s, other) ==> KeyOf(c, s, other) != KeyOf(c, s, tx)
    case Count(tx) => tx in s.transactions && s.transactions[tx].phase.Holding?
    case Reject(tx) => tx in s.transactions && s.transactions[tx].phase.Counted?
        && s.transactions[tx].phase.active >= c.maximum
    case Insert(tx) => tx in s.transactions && s.transactions[tx].phase.Counted?
        && s.transactions[tx].phase.active < c.maximum
                       && MeetsChecks(s.transactions[tx].record)
    case Publish(tx) => tx in s.transactions && s.transactions[tx].phase.Inserting?
        && Fits(s.table, s.transactions[tx].record)
    case Release(tx) => tx in s.transactions && s.transactions[tx].phase.Committed?
    case Abort(tx) => tx in s.transactions && !s.transactions[tx].phase.Committed?
    case _ => true
  }

  function SetPhase(s: State, tx: nat, phase: Phase): State
    requires tx in s.transactions
  {
    s.(transactions := s.transactions[tx := s.transactions[tx].(phase := phase)])
  }

  function Apply(c: Config, s: State, step: Step): State
    requires Enabled(c, s, step)
  {
    match step
    case Begin(tx, record) => s.(transactions := s.transactions[tx := Transaction(record, Waiting)])
    case Lock(tx) => SetPhase(s, tx, Holding)
    case Count(tx) =>
      var record := s.transactions[tx].record;
      SetPhase(s, tx, Counted(|ActiveIds(s.table, record.ownerId, record.createdAt)|))
    case Reject(tx) => s.(transactions := s.transactions - {tx})
    case Insert(tx) => SetPhase(s, tx, Inserting(s.transactions[tx].phase.active))
    case Publish(tx) =>
      var record := s.transactions[tx].record;
      SetPhase(s, tx, Committed).(table := Inserted(s.table, record),
                                  lastCreated := s.lastCreated[record.ownerId := record.createdAt])
    case Release(tx) => s.(transactions := s.transactions - {tx})
    case Abort(tx) => s.(transactions := s.transactions - {tx})
    case Touch(id, usedAt) => s.(table := Touched(s.table, id, usedAt))
    case Revoke(owner, id, at) => s.(table := Revoked(s.table, owner, id, at))
    case Purge(cutoff, limit, locked) => s.(table := Purged(s.table, cutoff, limit, locked))
    case Erase(owner) => s.(table := Erased(s.table, owner))
  }

  /** The steps can happen one after the other. */
  predicate Runs(c: Config, s: State, steps: seq<Step>)
    decreases steps
  {
    steps == [] || (Enabled(c, s, steps[0]) && Runs(c, Apply(c, s, steps[0]), steps[1..]))
  }

  function After(c: Config, s: State, steps: seq<Step>): State
    requires Runs(c, s, steps)
    decreases steps
  {
    if steps == [] then s else After(c, Apply(c, s, steps[0]), steps[1..])
  }

  function Start(table: Table): State {
    State(table, map[], map[])
  }

  // ----- how the statements change the count -----

  lemma SubsetIsSmaller(small: set<TokenId>, large: set<TokenId>)
    requires small <= large
    ensures |small| <= |large|
  {
    assert large == small + (large - small);
  }

  lemma LaterCountsLess(table: Table, owner: OwnerId, early: Instant, late: Instant)
    requires early <= late
    ensures |ActiveIds(table, owner, late)| <= |ActiveIds(table, owner, early)|
  {
    SubsetIsSmaller(ActiveIds(table, owner, late), ActiveIds(table, owner, early));
  }

  predicate Shrinks(step: Step) {
    step.Touch? || step.Revoke? || step.Purge? || step.Erase?
  }

  lemma StatementsOnlyShrink(c: Config, s: State, step: Step, owner: OwnerId, at: Instant)
    requires Shrinks(step)
    ensures |ActiveIds(Apply(c, s, step).table, owner, at)| <= |ActiveIds(s.table, owner, at)|
  {
    SubsetIsSmaller(ActiveIds(Apply(c, s, step).table, owner, at), ActiveIds(s.table, owner, at));
  }

  lemma InsertCounts(table: Table, record: Record, owner: OwnerId, at: Instant)
    requires Fits(table, record)
    ensures owner != record.ownerId ==> ActiveIds(Inserted(table, record), owner, at) == ActiveIds(table, owner, at)
    ensures |ActiveIds(Inserted(table, record), owner, at)| <= |ActiveIds(table, owner, at)| + 1
  {
    SubsetIsSmaller(ActiveIds(Inserted(table, record), owner, at), ActiveIds(table, owner, at) + {record.id});
  }

  // ----- the invariant -----

  ghost predicate LocksExclude(c: Config, s: State) {
    forall a, b :: a in s.transactions && b in s.transactions && a != b && Holds(s, a) && Holds(s, b)
        ==> KeyOf(c, s, a) != KeyOf(c, s, b)
  }

  /** What a transaction counted still bounds the count now. */
  ghost predicate CountHolds(c: Config, s: State, tx: nat) {
    tx in s.transactions ==>
      var t := s.transactions[tx];
      var now := |ActiveIds(s.table, t.record.ownerId, t.record.createdAt)|;
      && (t.phase.Counted? ==> now <= t.phase.active)
      && (t.phase.Inserting? ==> now <= t.phase.counted < c.maximum)
  }

  ghost predicate LimitHolds(c: Config, s: State, owner: OwnerId) {
    owner in s.lastCreated ==>
      forall at: Instant :: at >= s.lastCreated[owner] ==> |ActiveIds(s.table, owner, at)| <= c.maximum
  }

  ghost predicate Invariant(c: Config, s: State) {
    && LocksExclude(c, s)
    && (forall tx :: CountHolds(c, s, tx))
    && (forall owner :: LimitHolds(c, s, owner))
  }

  lemma PublishKeepsInvariant(c: Config, s: State, tx: nat)
    requires Invariant(c, s) && Enabled(c, s, Publish(tx))
    ensures Invariant(c, Apply(c, s, Publish(tx)))
  {
    hide ActiveIds, Fits;
    var r := Apply(c, s, Publish(tx));
    var record := s.transactions[tx].record;
    forall other ensures CountHolds(c, r, other) {
      if other in s.transactions && other != tx {
        assert CountHolds(c, s, other);
        var mine := s.transactions[other].record;
        InsertCounts(s.table, record, mine.ownerId, mine.createdAt);
        assert Holds(s, tx);
        assert mine.ownerId == record.ownerId ==> !Holds(s, other);
      }
    }
    forall owner ensures LimitHolds(c, r, owner) {
      assert LimitHolds(c, s, owner) && CountHolds(c, s, tx);
      if owner in r.lastCreated {
        forall at: Instant | at >= r.lastCreated[owner] ensures |ActiveIds(r.table, owner, at)| <= c.maximum {
          InsertCounts(s.table, record, owner, at);
          if owner == record.ownerId {
            LaterCountsLess(s.table, owner, record.createdAt, at);
          }
        }
      }
    }
  }

  lemma StatementKeepsInvariant(c: Config, s: State, step: Step)
    requires Invariant(c, s) && Shrinks(step)
    ensures Invariant(c, Apply(c, s, step))
  {
    hide ActiveIds, Touched, Revoked, Purged, Erased;
    var r := Apply(c, s, step);
    forall tx ensures CountHolds(c, r, tx) {
      assert CountHolds(c, s, tx);
      if tx in s.transactions {
        StatementsOnlyShrink(c, s, step, s.transactions[tx].record.ownerId, s.transactions[tx].record.createdAt);
      }
    }
    forall owner ensures LimitHolds(c, r, owner) {
      assert LimitHolds(c, s, owner);
      forall at: Instant ensures |ActiveIds(r.table, owner, at)| <= |ActiveIds(s.table, owner, at)| {
        StatementsOnlyShrink(c, s, step, owner, at);
      }
    }
  }

  /** Every step of every transaction keeps the invariant. */
  lemma StepKeepsInvariant(c: Config, s: State, step: Step)
    requires Invariant(c, s) && Enabled(c, s, step)
    ensures Invariant(c, Apply(c, s, step))
  {
    if step.Publish? {
      PublishKeepsInvariant(c, s, step.tx);
    } else if Shrinks(step) {
      StatementKeepsInvariant(c, s, step);
    } else {
      hide ActiveIds, Fits, MeetsChecks;
      var r := Apply(c, s, step);
      assert r.table == s.table && r.lastCreated == s.lastCreated;
      forall tx ensures CountHolds(c, r, tx) {
        assert CountHolds(c, s, tx);
      }
      forall owner ensures LimitHolds(c, r, owner) {
        assert LimitHolds(c, s, owner);
      }
    }
  }

  lemma {:induction false} RunKeepsInvariant(c: Config, s: State, steps: seq<Step>)
    requires Invariant(c, s) && Runs(c, s, steps)
    ensures Invariant(c, After(c, s, steps))
    decreases steps
  {
    if steps != [] {
      hide Invariant, Enabled, Apply;
      StepKeepsInvariant(c, s, steps[0]);
      RunKeepsInvariant(c, Apply(c, s, steps[0]), steps[1..]);
    }
  }

  /**
    Concurrent issues cannot overshoot the limit. After every interleaving of limited issues with
    touches, revocations, purges and erasures, an owner has at most `maximum` active tokens at every
    instant from the creation of the owner's last committed token on.
   */
  lemma ActiveLimit(c: Config, table: Table, steps: seq<Step>, owner: OwnerId, at: Instant)
    requires Runs(c, Start(table), steps)
    requires var s := After(c, Start(table), steps);
             owner in s.lastCreated && at >= s.lastCreated[owner]
    ensures |ActiveIds(After(c, Start(table), steps).table, owner, at)| <= c.maximum
  {
    assert Invariant(c, Start(table));
    RunKeepsInvariant(c, Start(table), steps);
    assert LimitHolds(c, After(c, Start(table), steps), owner);
  }

  // ----- rejections over whole runs -----

  lemma {:induction false} RunsFront(c: Config, s: State, steps: seq<Step>)
    requires Runs(c, s, steps) && steps != []
    ensures var front, last := steps[..|steps| - 1], steps[|steps| - 1];
            Runs(c, s, front) && Enabled(c, After(c, s, front), last)
                && After(c, s, steps) == Apply(c, After(c, s, front), last)
    decreases steps
  {
    hide Enabled, Apply;
    if |steps| > 1 {
      var rest := steps[1..];
      RunsFront(c, Apply(c, s, steps[0]), rest);
      assert steps[..|steps| - 1][1..] == rest[..|rest| - 1] && rest[|rest| - 1] == steps[|steps| - 1];
    }
  }

  predicate IsStepOf(step: Step, tx: nat) {
    match step
    case Begin(x, _) => x == tx
    case Lock(x) => x == tx
    case Count(x) => x == tx
    case Reject(x) => x == tx
    case Insert(x) => x == tx
    case Publish(x) => x == tx
    case Release(x) => x == tx
    case Abort(x) => x == tx
    case _ => false
  }

  /** After these steps the record's owner has this many active tokens, and tx is about to count them. */
  ghost predicate Counts(c: Config, s: State, steps: seq<Step>, tx: nat, record: Record, active: nat) {
    Runs(c, s, steps) &&
    var now := After(c, s, steps);
    && tx in now.transactions && now.transactions[tx].record == record
    && active == |ActiveIds(now.table, record.ownerId, record.createdAt)|
  }

  /** The n-th step is the one at which tx counted, and tx has taken no step since. */
  ghost predicate CountedAt(c: Config, s: State, steps: seq<Step>, tx: nat, record: Record, active: nat, n: nat) {
    && n < |steps| && steps[n] == Count(tx)
    && Counts(c, s, steps[..n], tx, record, active)
    && forall k :: n < k < |steps| ==> !IsStepOf(steps[k], tx)
  }

  predicate HasCounted(s: State, tx: nat) {
    tx in s.transactions && s.transactions[tx].phase.Counted?
  }

  lemma CountedByStep(c: Config, s: State, step: Step, tx: nat)
    requires Enabled(c, s, step) && HasCounted(Apply(c, s, step), tx)
    ensures if step == Count(tx)
            then tx in s.transactions && Apply(c, s, step).transactions[tx] == s.transactions[tx].(
                   phase :=
                       Counted(|ActiveIds(s.table, s.transactions[tx].record.ownerId,
                                          s.transactions[tx].record.createdAt)|))
            else !IsStepOf(step, tx) && HasCounted(s, tx) && s.transactions[tx] == Apply(c, s, step).transactions[tx]
  {
    hide ActiveIds, MeetsChecks, Fits;
  }

  lemma StillCounted(c: Config, s: State, steps: seq<Step>, last: Step, tx: nat, record: Record, active: nat, n: nat)
    requires CountedAt(c, s, steps, tx, record, active, n) && !IsStepOf(last, tx)
    ensures CountedAt(c, s, steps + [last], tx, record, active, n)
  {
    assert (steps + [last])[..n] == steps[..n];
    hide Counts;
  }

  /** In every run, what a transaction has counted is the number of active tokens at its last step. */
  lemma {:induction false} CountedWhen(c: Config, s: State, steps: seq<Step>, tx: nat) returns (n: nat)
    requires Runs(c, s, steps) && !HasCounted(s, tx) && HasCounted(After(c, s, steps), tx)
    ensures var t := After(c, s, steps).transactions[tx]; CountedAt(c, s, steps, tx, t.record, t.phase.active, n)
    decreases |steps|
  {
    hide Enabled, Apply, ActiveIds;
    assert steps != [];
    RunsFront(c, s, steps);
    var front, last := steps[..|steps| - 1], steps[|steps| - 1];
    var before, t := After(c, s, front), After(c, s, steps).transactions[tx];
    CountedByStep(c, before, last, tx);
    assert steps == front + [last];
    if last == Count(tx) {
      n := |front|;
    } else {
      n := CountedWhen(c, s, front, tx);
      hide Runs, After, CountedAt;
      StillCounted(c, s, front, last, tx, t.record, t.phase.active, n);
    }
  }

  /**
    In every run, a transaction that has counted may be rejected exactly when its owner had at least
    `maximum` active tokens at the step at which it counted, which was its last step, and may insert
    only when the owner had fewer. Rejecting writes nothing: only the transaction goes away.
   */
  lemma RejectionIsJustified(c: Config, s: State, steps: seq<Step>, tx: nat)
    requires Runs(c, s, steps) && !HasCounted(s, tx) && HasCounted(After(c, s, steps), tx)
    ensures var end := After(c, s, steps);
            var record := end.transactions[tx].record;
            && (exists n: nat, active: nat :: CountedAt(c, s, steps, tx, record, active, n)
                  && (Enabled(c, end, Reject(tx)) <==> active >= c.maximum)
                  && (Enabled(c, end, Insert(tx)) <==> active < c.maximum && MeetsChecks(record)))
            && (Enabled(c, end, Reject(tx))
                ==> Apply(c, end, Reject(tx)) == end.(transactions := end.transactions - {tx}))
  {
    hide Runs, After, CountedAt, MeetsChecks;
    var n := CountedWhen(c, s, steps, tx);
    assert CountedAt(c, s, steps, tx, After(c, s, steps).transactions[tx].record,
                     After(c, s, steps).transactions[tx].phase.active, n);
  }

  /** Up to its commit a transaction writes nothing: its rows and its creation appear in one step. */
  lemma OnlyPublishWrites(c: Config, s: State, step: Step)
    requires Enabled(c, s, step) && !step.Publish? && !Shrinks(step)
    ensures Apply(c, s, step).table == s.table && Apply(c, s, step).lastCreated == s.lastCreated
  {
    hide ActiveIds, MeetsChecks, Fits;
  }

  // ----- the bound is about later instants only -----

  function Issue(tx: nat, record: Record): seq<Step> {
    [Begin(tx, record), Lock(tx), Count(tx), Insert(tx), Publish(tx), Release(tx)]
  }

  lemma {:induction false} RunsThen(c: Config, s: State, first: seq<Step>, second: seq<Step>)
    requires Runs(c, s, first) && Runs(c, After(c, s, first), second)
    ensures Runs(c, s, first + second) && After(c, s, first + second) == After(c, After(c, s, first), second)
    decreases first
  {
    hide Enabled, Apply;
    if first == [] {
      assert first + second == second;
    } else {
      assert (first + second)[1..] == first[1..] + second;
      RunsThen(c, Apply(c, s, first[0]), first[1..], second);
    }
  }

  lemma RunStep(c: Config, s: State, step: Step, rest: seq<Step>)
    requires Enabled(c, s, step) && Runs(c, Apply(c, s, step), rest)
    ensures Runs(c, s, [step] + rest) && After(c, s, [step] + rest) == After(c, Apply(c, s, step), rest)
  {
    assert ([step] + rest)[1..] == rest;
  }

  /** Below the limit, an issue that runs alone commits its token and leaves nothing behind. */
  lemma IssueAlone(c: Config, s: State, tx: nat, record: Record)
    requires s.transactions == map[]
    requires Fits(s.table, record) && MeetsChecks(record)
    requires |ActiveIds(s.table, record.ownerId, record.createdAt)| < c.maximum
    ensures Runs(c, s, Issue(tx, record))
    ensures After(c, s, Issue(tx, record))
         == State(Inserted(s.table, record), map[], s.lastCreated[record.ownerId := record.createdAt])
  {
    hide ActiveIds, MeetsChecks, Fits, Inserted;
    var n := |ActiveIds(s.table, record.ownerId, record.createdAt)|;
    var s1 := Apply(c, s, Begin(tx, record));
    var s2 := Apply(c, s1, Lock(tx));
    var s3 := Apply(c, s2, Count(tx));
    assert s3.transactions[tx] == Transaction(record, Counted(n));
    var s4 := Apply(c, s3, Insert(tx));
    var s5 := Apply(c, s4, Publish(tx));
    var s6 := Apply(c, s5, Release(tx));
    assert s6.transactions == map[];
    RunStep(c, s5, Release(tx), []);
    RunStep(c, s4, Publish(tx), [Release(tx)]);
    RunStep(c, s3, Insert(tx), [Publish(tx), Release(tx)]);
    RunStep(c, s2, Count(tx), [Insert(tx), Publish(tx), Release(tx)]);
    RunStep(c, s1, Lock(tx), [Count(tx), Insert(tx), Publish(tx), Release(tx)]);
    RunStep(c, s, Begin(tx, record), [Lock(tx), Count(tx), Insert(tx), Publish(tx), Release(tx)]);
  }

  // ----- at earlier instants the limit may be exceeded -----

  /** A digest that starts with the four bytes of n. */
  function DigestOf(n: nat): Digest {
    [n % 256, n / 256 % 256, n / 256 / 256 % 256, n / 256 / 256 / 256 % 256] + seq(28, i => 0)
  }

  lemma FromParts(a: nat, b: nat)
    requires a / 256 == b / 256 && a % 256 == b % 256
    ensures a == b
  {
  }

  lemma DigestsDiffer(a: nat, b: nat)
    requires a < 0x1_0000_0000 && b < 0x1_0000_0000 && DigestOf(a) == DigestOf(b)
    ensures a == b
  {
    FirstBytes(a);
    FirstBytes(b);
    hide DigestOf;
    FromParts(a / 256 / 256, b / 256 / 256);
    FromParts(a / 256, b / 256);
    FromParts(a, b);
  }

  lemma FirstBytes(n: nat)
    requires n < 0x1_0000_0000
    ensures DigestOf(n)[0] == n % 256 && DigestOf(n)[1] == n / 256 % 256
    ensures DigestOf(n)[2] == n / 256 / 256 % 256 && DigestOf(n)[3] == n / 256 / 256 / 256
  {
  }

  /** Issued at 0, and expired at 15. */
  function ShortLived(n: nat): Record {
    Record(n, 0, "a", DigestOf(n), "p", {}, 0, Some(15))
  }

  /** Issued at 20. */
  function LongLived(n: nat): Record {
    Record(n, 0, "a", DigestOf(n), "p", {}, 20, None)
  }

  function ShortTable(n: nat): (r: Table)
    ensures forall id: TokenId :: id in r <==> id < n
    ensures forall id <- r :: r[id] == NewRow(ShortLived(id))
  {
    if n == 0 then map[] else Inserted(ShortTable(n - 1), ShortLived(n - 1))
  }

  function Below(n: nat): (r: set<TokenId>)
    ensures |r| == n && forall id: TokenId :: id in r <==> id < n
  {
    if n == 0 then {} else Below(n - 1) + {n - 1}
  }

  lemma ShortTokens(n: nat, at: Instant)
    ensures ActiveIds(ShortTable(n), 0, at) == if at < 15 then Below(n) else {}
  {
  }

  lemma NextFits(n: nat, record: Record)
    requires n < 0x1_0000_0000 && record.id == n && record.secretHash == DigestOf(n)
    ensures Fits(ShortTable(n), record)
  {
    forall id | id in ShortTable(n) ensures ShortTable(n)[id].secretHash != record.secretHash {
      if DigestOf(id) == DigestOf(n) {
        DigestsDiffer(id, n);
      }
    }
  }

  lemma RecordsMeetChecks(n: nat)
    ensures MeetsChecks(ShortLived(n)) && MeetsChecks(LongLived(n))
  {
  }

  function ShortRun(n: nat): seq<Step> {
    if n == 0 then [] else ShortRun(n - 1) + Issue(n - 1, ShortLived(n - 1))
  }

  ghost predicate OnlyShort(s: State, n: nat) {
    s.table == ShortTable(n) && s.transactions == map[]
  }

  lemma InsertShort(n: nat)
    ensures Inserted(ShortTable(n), ShortLived(n)) == ShortTable(n + 1)
  {
  }

  /** Up to the limit, short-lived tokens can be issued one after the other. */
  lemma {:induction false} ShortRuns(c: Config, n: nat)
    requires n <= c.maximum < 0x1_0000_0000
    ensures Runs(c, Start(map[]), ShortRun(n)) && OnlyShort(After(c, Start(map[]), ShortRun(n)), n)
  {
    if n > 0 {
      ShortRuns(c, n - 1);
      var before := After(c, Start(map[]), ShortRun(n - 1));
      ShortTokens(n - 1, 0);
      NextFits(n - 1, ShortLived(n - 1));
      RecordsMeetChecks(n - 1);
      InsertShort(n - 1);
      hide ActiveIds, Fits, MeetsChecks, Inserted, Issue, Runs, After, ShortTable;
      assert ShortLived(n - 1).ownerId == 0 && ShortLived(n - 1).createdAt == 0;
      IssueAlone(c, before, n - 1, ShortLived(n - 1));
      RunsThen(c, Start(map[]), ShortRun(n - 1), Issue(n - 1, ShortLived(n - 1)));
    }
  }

  lemma AllActive(n: nat)
    ensures |ActiveIds(Inserted(ShortTable(n), LongLived(n)), 0, 12)| == n + 1
  {
    assert ActiveIds(Inserted(ShortTable(n), LongLived(n)), 0, 12) == Below(n + 1);
  }

  /**
    The instant matters. Tokens that had expired when the last one was created are not counted, so at
    an earlier instant all of them are active with it: under every limit a 32-bit number can state,
    and however owners share locks, some run exceeds it.
   */
  lemma EarlierInstantsMayExceed(c: Config)
    requires 0 < c.maximum < 0x1_0000_0000
    ensures exists steps: seq<Step> ::
              && Runs(c, Start(map[]), steps)
              && var s := After(c, Start(map[]), steps);
              && 0 in s.lastCreated
              && exists at: Instant :: at < s.lastCreated[0] && |ActiveIds(s.table, 0, at)| > c.maximum
  {
    var n := c.maximum;
    var long := LongLived(n);
    ShortRuns(c, n);
    var middle := After(c, Start(map[]), ShortRun(n));
    ShortTokens(n, 20);
    NextFits(n, long);
    RecordsMeetChecks(n);
    AllActive(n);
    assert long.ownerId == 0 && long.createdAt == 20;
    hide ActiveIds, Fits, MeetsChecks, Inserted, Issue, Runs, After, ShortTable, ShortRun, LongLived;
    IssueAlone(c, middle, n, long);
    RunsThen(c, Start(map[]), ShortRun(n), Issue(n, long));
    var steps := ShortRun(n) + Issue(n, long);
    var end := After(c, Start(map[]), steps);
    assert end.lastCreated[0] == 20;
    var at: Instant := 12;
    assert at < end.lastCreated[0] && |ActiveIds(end.table, 0, at)| > c.maximum;
  }
}
