/** Which presented tokens verify, over whole runs of issues, uses, revocations, purges and erasures. */
module TokenLifecycle {
  import opened Wrappers
  import opened TokenTable
  import opened TokenStore
  import opened ApiTokens

  datatype VerifyError = Invalid | Expired

  datatype Config = Config(format: Format, hash: string -> Digest)

  /** The decision of `verify_at` on the committed rows. */
  function Verified(c: Config, table: Table, presented: string, now: Instant): Result<Token, VerifyError>
    requires Consistent(table)
  {
    if !IsWellFormed(c.format, presented) then Failure(Invalid)
    else
      var stored := FindByHash(table, (c.hash)(presented));
      if stored.None? then Failure(Invalid)
      else if stored.value.token.revokedAt.Some? then Failure(Invalid)
      else if stored.value.token.expiresAt.Some? && stored.value.token.expiresAt.value <= now then Failure(Expired)
      else Success(stored.value.token)
  }

  class ApiTokenService {
    const store: PostgresApiTokenStore
    const config: Config

    ghost predicate Valid()
      reads this, store
    {
      Consistent(store.rows)
    }

    constructor (store: PostgresApiTokenStore, config: Config)
      requires Consistent(store.rows)
      ensures Valid() && this.store == store && this.config == config
    {
      this.store, this.config := store, config;
    }

    /** Reads the row, decides, and records the use only on success. */
    method VerifyAt(presented: string, now: Instant) returns (r: Result<Token, VerifyError>)
      requires Valid()
      modifies store
      ensures r == Verified(config, old(store.rows), presented, now)
      ensures store.rows == if r.Success? then Touched(old(store.rows), r.value.id, now) else old(store.rows)
    {
      if !IsWellFormed(config.format, presented) {
        return Failure(Invalid);
      }
      var presentedHash := (config.hash)(presented);
      var stored := FindByHash(store.rows, presentedHash);
      if stored.None? {
        return Failure(Invalid);
      }
      if stored.value.secretHash != presentedHash {
        return Failure(Invalid);
      }
      var token := stored.value.token;
      if token.revokedAt.Some? {
        return Failure(Invalid);
      }
      if token.expiresAt.Some? && token.expiresAt.value <= now {
        return Failure(Expired);
      }
      store.Touch(token.id, now);
      return Success(token);
    }

    method RevokeAt(owner: OwnerId, id: TokenId, now: Instant) returns (found: bool)
      modifies store
      ensures found <==> Revocable(old(store.rows), owner, id)
      ensures store.rows == Revoked(old(store.rows), owner, id, now)
    {
      found := store.RevokeToken(owner, id, now);
    }
  }

  // ----- runs -----

  /** The committed rows, and for the record the secret and the uses of every token ever issued. */
  datatype State = State(table: Table, secrets: map<TokenId, string>, uses: map<TokenId, set<Instant>>)

  datatype Step =
    | Issue(record: Record, secret: string)
    | Use(id: TokenId, usedAt: Instant)
    | Revoke(owner: OwnerId, id: TokenId, at: Instant)
    | Purge(cutoff: Instant, limit: nat, locked: set<TokenId>)
    | Erase(owner: OwnerId)

  /** Ids and secrets are never reused; the other statements are always possible. */
  ghost predicate Enabled(c: Config, s: State, step: Step) {
    step.Issue? ==>
      && step.record.id !in s.secrets && step.secret !in s.secrets.Values
      && IsWellFormed(c.format, step.secret)
      && step.record.secretHash == (c.hash)(step.secret)
      && Fits(s.table, step.record)
  }

  function Apply(s: State, step: Step): State {
    match step
    case Issue(record, secret) =>
      State(Inserted(s.table, record), s.secrets[record.id := secret], s.uses[record.id := {}])
    case Use(id, usedAt) =>
      State(Touched(s.table, id, usedAt), s.secrets, if id in s.table && id in s.uses
                                                     then s.uses[id := s.uses[id] + {usedAt}] else s.uses)
    case Revoke(owner, id, at) => s.(table := Revoked(s.table, owner, id, at))
    case Purge(cutoff, limit, locked) => s.(table := Purged(s.table, cutoff, limit, locked))
    case Erase(owner) => s.(table := Erased(s.table, owner))
  }

  ghost predicate Runs(c: Config, s: State, steps: seq<Step>)
    decreases steps
  {
    steps == [] || (Enabled(c, s, steps[0]) && Runs(c, Apply(s, steps[0]), steps[1..]))
  }

  function After(s: State, steps: seq<Step>): State
    decreases steps
  {
    if steps == [] then s else After(Apply(s, steps[0]), steps[1..])
  }

  const START := State(map[], map[], map[])

  /** The latest of a set of instants, or None when there is none. */
  ghost predicate IsLatest(last: Option<Instant>, uses: set<Instant>) {
    if uses == {} then last.None? else last.Some? && last.value in uses && forall use <- uses :: use <= last.value
  }

  /** Issued secrets are well formed and pairwise different. */
  ghost predicate SecretsDiffer(c: Config, secrets: map<TokenId, string>) {
    && (forall id <- secrets :: IsWellFormed(c.format, secrets[id]))
    && (forall a, b, secret :: HasSecret(secrets, a, secret) && HasSecret(secrets, b, secret) ==> a == b)
  }

  predicate HasSecret(secrets: map<TokenId, string>, id: TokenId, secret: string) {
    id in secrets && secrets[id] == secret
  }

  /** Every stored row was issued and carries the digest of its secret. */
  ghost predicate RowsIssued(c: Config, s: State) {
    forall id <- s.table :: id in s.secrets && s.table[id].secretHash == (c.hash)(s.secrets[id])
  }

  /** Every stored row remembers its latest use. */
  ghost predicate UsesKept(s: State) {
    && s.uses.Keys == s.secrets.Keys
    && forall id <- s.table :: id in s.uses && IsLatest(s.table[id].token.lastUsedAt, s.uses[id])
  }

  ghost predicate Invariant(c: Config, s: State) {
    Consistent(s.table) && SecretsDiffer(c, s.secrets) && RowsIssued(c, s) && UsesKept(s)
  }

  lemma SecretsStayDifferent(c: Config, secrets: map<TokenId, string>, id: TokenId, secret: string)
    requires SecretsDiffer(c, secrets) && secret !in secrets.Values && IsWellFormed(c.format, secret)
    ensures SecretsDiffer(c, secrets[id := secret])
  {
    hide IsWellFormed;
    var more := secrets[id := secret];
    forall a, b, x | HasSecret(more, a, x) && HasSecret(more, b, x) ensures a == b {
      assert forall other :: HasSecret(secrets, other, x) ==> x in secrets.Values;
      assert HasSecret(secrets, a, x) || a == id;
      assert HasSecret(secrets, b, x) || b == id;
    }
  }

  lemma InsertedIsConsistent(table: Table, record: Record)
    requires Consistent(table) && Fits(table, record)
    ensures Consistent(Inserted(table, record))
  {
  }

  lemma IssueKeepsInvariant(c: Config, s: State, record: Record, secret: string)
    requires Invariant(c, s) && Enabled(c, s, Issue(record, secret))
    ensures Invariant(c, Apply(s, Issue(record, secret)))
  {
    InsertedIsConsistent(s.table, record);
    SecretsStayDifferent(c, s.secrets, record.id, secret);
    InsertedIsIssued(c, s, record, secret);
    InsertedIsUnused(c, s, record, secret);
    hide Consistent, SecretsDiffer, Fits, IsWellFormed, RowsIssued, UsesKept;
  }

  lemma InsertedIsIssued(c: Config, s: State, record: Record, secret: string)
    requires RowsIssued(c, s) && record.id !in s.secrets && record.secretHash == (c.hash)(secret)
    ensures RowsIssued(c, Apply(s, Issue(record, secret)))
  {
  }

  lemma InsertedIsUnused(c: Config, s: State, record: Record, secret: string)
    requires UsesKept(s) && RowsIssued(c, s) && record.id !in s.secrets
    ensures UsesKept(Apply(s, Issue(record, secret)))
  {
    hide IsLatest;
    assert IsLatest(None, {}) by {
      NoUse();
    }
  }

  lemma NoUse()
    ensures IsLatest(None, {})
  {
  }

  lemma LatestGrows(last: Option<Instant>, uses: set<Instant>, usedAt: Instant)
    requires IsLatest(last, uses)
    ensures IsLatest(if Newer(last, usedAt) then Some(usedAt) else last, uses + {usedAt})
  {
  }

  lemma UseKeepsInvariant(c: Config, s: State, id: TokenId, usedAt: Instant)
    requires Invariant(c, s)
    ensures Invariant(c, Apply(s, Use(id, usedAt)))
  {
    hide SecretsDiffer, IsLatest;
    if id in s.table {
      LatestGrows(s.table[id].token.lastUsedAt, s.uses[id], usedAt);
    }
  }

  lemma DeletionKeepsInvariant(c: Config, s: State, table: Table)
    requires Invariant(c, s)
    requires table.Keys <= s.table.Keys && forall id <- table :: table[id] == s.table[id]
    ensures Invariant(c, s.(table := table))
  {
    hide SecretsDiffer, IsLatest;
  }

  lemma StepKeepsInvariant(c: Config, s: State, step: Step)
    requires Invariant(c, s) && Enabled(c, s, step)
    ensures Invariant(c, Apply(s, step))
  {
    hide SecretsDiffer, IsLatest;
    match step {
      case Issue(record, secret) => IssueKeepsInvariant(c, s, record, secret);
      case Use(id, usedAt) => UseKeepsInvariant(c, s, id, usedAt);
      case Revoke(_, _, _) =>
      case Purge(_, _, _) => DeletionKeepsInvariant(c, s, Apply(s, step).table);
      case Erase(_) => DeletionKeepsInvariant(c, s, Apply(s, step).table);
    }
  }

  lemma {:induction false} RunKeepsInvariant(c: Config, s: State, steps: seq<Step>)
    requires Invariant(c, s) && Runs(c, s, steps)
    ensures Invariant(c, After(s, steps))
    decreases steps
  {
    if steps != [] {
      hide Invariant, Enabled, Apply;
      StepKeepsInvariant(c, s, steps[0]);
      RunKeepsInvariant(c, Apply(s, steps[0]), steps[1..]);
    }
  }

  /** No presented text has the digest of a different issued secret. */
  ghost predicate Injective(c: Config, s: State, presented: string) {
    forall id <- s.secrets :: (c.hash)(s.secrets[id]) == (c.hash)(presented) ==> s.secrets[id] == presented
  }

  ghost predicate StoredFor(s: State, presented: string, id: TokenId) {
    id in s.table && HasSecret(s.secrets, id, presented)
  }

  lemma VerifyMeans(c: Config, s: State, presented: string, now: Instant)
    requires Invariant(c, s) && Injective(c, s, presented)
    ensures var r := Verified(c, s.table, presented, now);
            && (r.Success? <==> exists id :: StoredFor(s, presented, id) && IsActiveAt(s.table[id].token, now))
            && (r == Failure(Expired) <==> exists id :: StoredFor(s, presented, id) && s.table[id].token.revokedAt.None?
                                                        && !IsActiveAt(s.table[id].token, now))
            && (r.Success? ==> StoredFor(s, presented, r.value.id) && r.value == s.table[r.value.id].token)
  {
    hide IsWellFormed;
    forall id | StoredFor(s, presented, id)
      ensures IsWellFormed(c.format, presented) && HasHash(s.table, id, (c.hash)(presented))
      ensures FindByHash(s.table, (c.hash)(presented)) == Some(s.table[id])
    {
    }
    var stored := FindByHash(s.table, (c.hash)(presented));
    if stored.Some? {
      var id := stored.value.token.id;
      assert StoredFor(s, presented, id);
    }
  }

  /**
    Over every run: a presented text verifies at an instant exactly when a stored row issued for
    that secret is unrevoked and expires later, if at all.
   */
  lemma VerifyIsExact(c: Config, steps: seq<Step>, presented: string, now: Instant)
    requires Runs(c, START, steps) && Injective(c, After(START, steps), presented)
    ensures var s := After(START, steps);
            && Consistent(s.table)
            && (Verified(c, s.table, presented, now).Success?
                <==> exists id :: StoredFor(s, presented, id) && IsActiveAt(s.table[id].token, now))
  {
    RunKeepsInvariant(c, START, steps);
    VerifyMeans(c, After(START, steps), presented, now);
  }

  /** Issued once, and no longer stored or revoked. */
  predicate Dead(s: State, id: TokenId) {
    id in s.secrets && (id !in s.table || s.table[id].token.revokedAt.Some?)
  }

  lemma {:induction false} DeadStaysDead(c: Config, s: State, steps: seq<Step>, id: TokenId)
    requires Runs(c, s, steps) && Dead(s, id)
    ensures var r := After(s, steps); Dead(r, id) && r.secrets[id] == s.secrets[id]
    decreases steps
  {
    if steps != [] {
      hide IsWellFormed;
      DeadStaysDead(c, Apply(s, steps[0]), steps[1..], id);
    }
  }

  lemma DeadNeverVerifies(c: Config, s: State, steps: seq<Step>, id: TokenId, now: Instant)
    requires Invariant(c, s) && Runs(c, s, steps) && Dead(s, id)
    requires Injective(c, After(s, steps), s.secrets[id])
    ensures Consistent(After(s, steps).table)
    ensures Verified(c, After(s, steps).table, s.secrets[id], now) == Failure(Invalid)
  {
    hide Enabled, Apply, IsWellFormed, FindByHash;
    RunKeepsInvariant(c, s, steps);
    DeadStaysDead(c, s, steps, id);
    assert HasSecret(After(s, steps).secrets, id, s.secrets[id]);
    VerifyMeans(c, After(s, steps), s.secrets[id], now);
  }

  lemma RevokeKills(c: Config, s: State, owner: OwnerId, id: TokenId, at: Instant)
    requires Invariant(c, s) && Revocable(s.table, owner, id)
    ensures var r := Apply(s, Revoke(owner, id, at)); Dead(r, id) && r.secrets == s.secrets
  {
    hide Consistent, SecretsDiffer, UsesKept;
  }

  lemma EraseKills(c: Config, s: State, owner: OwnerId, id: TokenId)
    requires Invariant(c, s) && id in OwnedBy(s.table, owner)
    ensures var r := Apply(s, Erase(owner)); Dead(r, id) && r.secrets == s.secrets
  {
    hide Consistent, SecretsDiffer, UsesKept;
  }

  /** After a revocation that found the token, its secret never verifies again, whatever happens next. */
  lemma RevokedNeverVerifies(c: Config, s: State, owner: OwnerId, id: TokenId, at: Instant, steps: seq<Step>,
                             now: Instant)
    requires Invariant(c, s) && Revocable(s.table, owner, id)
    requires Runs(c, Apply(s, Revoke(owner, id, at)), steps)
    requires Injective(c, After(Apply(s, Revoke(owner, id, at)), steps), s.secrets[id])
    ensures var r := After(Apply(s, Revoke(owner, id, at)), steps);
            Consistent(r.table) && Verified(c, r.table, s.secrets[id], now) == Failure(Invalid)
  {
    RevokeKills(c, s, owner, id, at);
    hide Invariant, Apply, Runs, After, Injective, Consistent, Verified, Dead;
    StepKeepsInvariant(c, s, Revoke(owner, id, at));
    DeadNeverVerifies(c, Apply(s, Revoke(owner, id, at)), steps, id, now);
  }

  /** After an owner was erased, none of the owner's secrets verifies again. */
  lemma ErasedNeverVerifies(c: Config, s: State, owner: OwnerId, id: TokenId, steps: seq<Step>, now: Instant)
    requires Invariant(c, s) && id in OwnedBy(s.table, owner)
    requires Runs(c, Apply(s, Erase(owner)), steps)
    requires Injective(c, After(Apply(s, Erase(owner)), steps), s.secrets[id])
    ensures var r := After(Apply(s, Erase(owner)), steps);
            Consistent(r.table) && Verified(c, r.table, s.secrets[id], now) == Failure(Invalid)
  {
    EraseKills(c, s, owner, id);
    hide Invariant, Apply, Runs, After, Injective, OwnedBy, Consistent, Verified, Dead;
    StepKeepsInvariant(c, s, Erase(owner));
    DeadNeverVerifies(c, Apply(s, Erase(owner)), steps, id, now);
  }

  /** A purge up to now changes no successful verification from now on. */
  lemma PurgeKeepsVerification(c: Config, s: State, cutoff: Instant, limit: nat, locked: set<TokenId>,
                               presented: string, now: Instant)
    requires Invariant(c, s) && Injective(c, s, presented) && cutoff <= now
    ensures var r := Apply(s, Purge(cutoff, limit, locked));
            && Consistent(r.table)
            && (Verified(c, r.table, presented, now).Success? <==> Verified(c, s.table, presented, now).Success?)
            && (Verified(c, r.table, presented, now).Success?
                ==> Verified(c, r.table, presented, now) == Verified(c, s.table, presented, now))
  {
    hide FindByHash, IsWellFormed;
    var r := Apply(s, Purge(cutoff, limit, locked));
    StepKeepsInvariant(c, s, Purge(cutoff, limit, locked));
    VerifyMeans(c, s, presented, now);
    VerifyMeans(c, r, presented, now);
    forall id | StoredFor(s, presented, id) && IsActiveAt(s.table[id].token, now) ensures StoredFor(r, presented, id) {
    }
  }

  /** A token verifies as soon as it is issued and until it expires. */
  lemma IssuedVerifies(c: Config, s: State, record: Record, secret: string, now: Instant)
    requires Invariant(c, s) && Enabled(c, s, Issue(record, secret))
    requires Injective(c, Apply(s, Issue(record, secret)), secret)
    requires record.expiresAt.Some? ==> now < record.expiresAt.value
    ensures var r := Apply(s, Issue(record, secret));
            Consistent(r.table) && Verified(c, r.table, secret, now) == Success(NewRow(record).token)
  {
    var r := Apply(s, Issue(record, secret));
    StepKeepsInvariant(c, s, Issue(record, secret));
    VerifyMeans(c, r, secret, now);
    assert StoredFor(r, secret, record.id);
  }

  // ----- uses in any order -----

  function TouchedAll(table: Table, id: TokenId, times: seq<Instant>): Table {
    if times == [] then table else Touched(TouchedAll(table, id, times[..|times| - 1]), id, times[|times| - 1])
  }

  function InitialUses(last: Option<Instant>): set<Instant> {
    if last.Some? then {last.value} else {}
  }

  function Instants(times: seq<Instant>): set<Instant> {
    set t | t in times
  }

  lemma {:induction false} TouchesKeepLatest(table: Table, id: TokenId, times: seq<Instant>)
    requires id in table
    ensures var r := TouchedAll(table, id, times);
            && id in r
            && IsLatest(r[id].token.lastUsedAt, InitialUses(table[id].token.lastUsedAt) + Instants(times))
            && r == table[id := table[id].(token := table[id].token.(lastUsedAt := r[id].token.lastUsedAt))]
  {
    if times != [] {
      var front, last := times[..|times| - 1], times[|times| - 1];
      TouchesKeepLatest(table, id, front);
      assert Instants(times) == Instants(front) + {last};
    }
  }

  /** The recorded last use is the maximum of all uses, so the order of concurrent uses does not matter. */
  lemma OrderOfUsesDoesNotMatter(table: Table, id: TokenId, times: seq<Instant>, others: seq<Instant>)
    requires id in table && Instants(times) == Instants(others)
    ensures TouchedAll(table, id, times) == TouchedAll(table, id, others)
  {
    TouchesKeepLatest(table, id, times);
    TouchesKeepLatest(table, id, others);
  }

  /** Over every run, the last use of a stored token is the latest of its uses. */
  lemma LastUseIsLatest(c: Config, steps: seq<Step>, id: TokenId)
    requires Runs(c, START, steps) && id in After(START, steps).table
    ensures var s := After(START, steps);
            id in s.uses && IsLatest(s.table[id].token.lastUsedAt, s.uses[id])
  {
    RunKeepsInvariant(c, START, steps);
  }
}
