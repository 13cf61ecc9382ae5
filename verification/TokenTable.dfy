/**
  The `api_tokens` table and the SQL statements of the PostgreSQL store, each taken as one atomic
  step on the committed rows.
 */
module TokenTable {
  import opened Wrappers
  import opened Text

  type TokenId = nat
  type OwnerId = nat
  type Instant = int
  type Digest = seq<byte>

  datatype Token = Token(
    id: TokenId,
    ownerId: OwnerId,
    name: string,
    displayPrefix: string,
    grants: set<string>,
    createdAt: Instant,
    expiresAt: Option<Instant>,
    lastUsedAt: Option<Instant>,
    revokedAt: Option<Instant>
  )

  datatype Row = Row(token: Token, secretHash: Digest)

  type Table = map<TokenId, Row>

  datatype Record = Record(
    id: TokenId,
    ownerId: OwnerId,
    name: string,
    secretHash: Digest,
    displayPrefix: string,
    grants: set<string>,
    createdAt: Instant,
    expiresAt: Option<Instant>
  )

  predicate IsActiveAt(token: Token, now: Instant) {
    token.revokedAt.None? && (token.expiresAt.None? || token.expiresAt.value > now)
  }

  // ----- statements -----

  /** The CHECK constraints of the migration. */
  predicate MeetsChecks(record: Record) {
    && 1 <= |record.name| <= 100
    && |record.secretHash| == 32
    && |record.displayPrefix| > 0
    && |record.grants| <= 64
    && (record.expiresAt.Some? ==> record.expiresAt.value > record.createdAt)
  }

  /** The primary key and the unique digest leave room for the record. */
  predicate Fits(table: Table, record: Record) {
    record.id !in table && forall id <- table :: table[id].secretHash != record.secretHash
  }

  function NewRow(record: Record): Row {
    Row(Token(record.id, record.ownerId, record.name, record.displayPrefix, record.grants, record.createdAt,
              record.expiresAt, None, None), record.secretHash)
  }

  function Inserted(table: Table, record: Record): Table {
    table[record.id := NewRow(record)]
  }

  /** The rows the store counts before it issues a token. */
  function ActiveIds(table: Table, owner: OwnerId, at: Instant): set<TokenId> {
    set id | id in table && table[id].token.ownerId == owner && IsActiveAt(table[id].token, at)
  }

  predicate Newer(lastUsedAt: Option<Instant>, usedAt: Instant) {
    lastUsedAt.None? || lastUsedAt.value < usedAt
  }

  function Touched(table: Table, id: TokenId, usedAt: Instant): Table {
    if id in table && Newer(table[id].token.lastUsedAt, usedAt)
    then table[id := table[id].(token := table[id].token.(lastUsedAt := Some(usedAt)))]
    else table
  }

  predicate Revocable(table: Table, owner: OwnerId, id: TokenId) {
    id in table && table[id].token.ownerId == owner && table[id].token.revokedAt.None?
  }

  function Revoked(table: Table, owner: OwnerId, id: TokenId, at: Instant): Table {
    if Revocable(table, owner, id) then table[id := table[id].(token := table[id].token.(revokedAt := Some(at)))]
    else table
  }

  predicate InactiveBefore(token: Token, cutoff: Instant) {
    (token.revokedAt.Some? && token.revokedAt.value < cutoff)
        || (token.expiresAt.Some? && token.expiresAt.value < cutoff)
  }

  /** The rows a purge may delete: inactive before the cutoff and not locked by another writer. */
  function Purgeable(table: Table, cutoff: Instant, locked: set<TokenId>): set<TokenId> {
    set id | id in table && id !in locked && InactiveBefore(table[id].token, cutoff)
  }

  predicate IsLeast(ids: set<TokenId>, least: TokenId) {
    least in ids && forall id <- ids :: least <= id
  }

  function Least(ids: set<TokenId>): (least: TokenId)
    requires ids != {}
    ensures least in ids && forall id <- ids :: least <= id
  {
    LeastExists(ids);
    var least :| IsLeast(ids, least);
    least
  }

  lemma {:induction false} LeastExists(ids: set<TokenId>)
    requires ids != {}
    ensures exists least :: IsLeast(ids, least)
    decreases |ids|
  {
    var any :| any in ids;
    if ids == {any} {
      assert IsLeast(ids, any);
    } else {
      LeastExists(ids - {any});
      var least :| IsLeast(ids - {any}, least);
      LeastOfBoth(ids, any, least);
    }
  }

  lemma LeastOfBoth(ids: set<TokenId>, any: TokenId, least: TokenId)
    requires any in ids && IsLeast(ids - {any}, least)
    ensures IsLeast(ids, if any <= least then any else least)
  {
    forall id | id in ids ensures (if any <= least then any else least) <= id {
      assert id == any || id in ids - {any};
    }
  }

  /** The first `limit` ids in order. */
  function Lowest(ids: set<TokenId>, limit: nat): (r: set<TokenId>)
    ensures r <= ids && |r| <= limit
    ensures |r| < limit ==> r == ids
    ensures forall kept <- r, left <- ids - r :: kept < left
    decreases limit
  {
    if limit == 0 || ids == {} then {}
    else
      var least := Least(ids);
      var rest := Lowest(ids - {least}, limit - 1);
      assert forall left <- ids - (rest + {least}) :: left in ids - {least} - rest;
      rest + {least}
  }

  function Purged(table: Table, cutoff: Instant, limit: nat, locked: set<TokenId>): Table {
    table - Lowest(Purgeable(table, cutoff, locked), limit)
  }

  function OwnedBy(table: Table, owner: OwnerId): set<TokenId> {
    set id | id in table && table[id].token.ownerId == owner
  }

  function Erased(table: Table, owner: OwnerId): Table {
    table - OwnedBy(table, owner)
  }

  // ----- what the statements do to the rows -----

  /** At some instant before the cutoff the token was revoked, or it had expired. */
  ghost predicate WasInactive(token: Token, cutoff: Instant) {
    exists at: Instant :: at < cutoff && InactiveAt(token, at)
  }

  predicate InactiveAt(token: Token, at: Instant) {
    token.revokedAt == Some(at) || !IsActiveAt(token.(revokedAt := None), at)
  }

  lemma InactiveIsExact(token: Token, cutoff: Instant)
    ensures InactiveBefore(token, cutoff) <==> WasInactive(token, cutoff)
  {
    if InactiveBefore(token, cutoff) {
      var at := if token.revokedAt.Some? && token.revokedAt.value < cutoff then token.revokedAt.value
                else token.expiresAt.value;
      assert InactiveAt(token, at);
    }
  }

  /**
    A purge deletes only unlocked rows that were inactive before the cutoff, leaves the others as
    they are, and leaves an unlocked inactive row behind only when its batch is full.
   */
  lemma PurgeIsExact(table: Table, cutoff: Instant, limit: nat, locked: set<TokenId>, id: TokenId)
    requires id in table
    ensures var r := Purged(table, cutoff, limit, locked);
            && r.Keys <= table.Keys && |table.Keys - r.Keys| <= limit
            && (id in r ==> r[id] == table[id])
            && (id !in r ==> id !in locked && WasInactive(table[id].token, cutoff))
            && (id in r && id !in locked && WasInactive(table[id].token, cutoff) ==> |table.Keys - r.Keys| == limit)
  {
    InactiveIsExact(table[id].token, cutoff);
    var batch := Lowest(Purgeable(table, cutoff, locked), limit);
    assert table.Keys - Purged(table, cutoff, limit, locked).Keys == batch;
    hide InactiveBefore, WasInactive;
  }

  /** Erasing deletes exactly the owner's rows. */
  lemma EraseIsExact(table: Table, owner: OwnerId, id: TokenId)
    ensures id in Erased(table, owner) <==> id in table && table[id].token.ownerId != owner
    ensures id in Erased(table, owner) ==> Erased(table, owner)[id] == table[id]
  {
  }

  /** Revoking ends the activity of this owner's row, once, and changes nothing else. */
  lemma RevokeIsExact(table: Table, owner: OwnerId, id: TokenId, at: Instant, other: TokenId)
    ensures var r := Revoked(table, owner, id, at);
            && r.Keys == table.Keys
            && (other in table
                ==> r[other] == table[other].(token := table[other].token.(revokedAt := r[other].token.revokedAt)))
            && (other in table && (other != id || table[id].token.ownerId != owner) ==> r[other] == table[other])
            && (id in table && table[id].token.ownerId == owner ==>
                  r[id].token.revokedAt == if table[id].token.revokedAt.Some? then table[id].token.revokedAt
                                           else Some(at))
  {
  }

  /** A new row carries what the record says, unused and unrevoked, and the other rows stay. */
  lemma InsertIsExact(table: Table, record: Record, other: TokenId)
    requires Fits(table, record)
    ensures var r := Inserted(table, record);
            var token := r[record.id].token;
            && r.Keys == table.Keys + {record.id} && (other in table ==> r[other] == table[other])
            && token.id == record.id && token.ownerId == record.ownerId && token.name == record.name
            && token.displayPrefix == record.displayPrefix && token.grants == record.grants
            && token.createdAt == record.createdAt && token.expiresAt == record.expiresAt
            && token.lastUsedAt.None? && token.revokedAt.None? && r[record.id].secretHash == record.secretHash
  {
  }

  predicate HasHash(table: Table, id: TokenId, hash: Digest) {
    id in table && table[id].secretHash == hash
  }

  /** Every row is stored under its own id, and no digest occurs twice. */
  ghost predicate Consistent(table: Table) {
    && (forall id <- table :: table[id].token.id == id)
    && (forall a, b :: a in table && b in table && table[a].secretHash == table[b].secretHash ==> a == b)
  }

  function FindByHash(table: Table, hash: Digest): (r: Option<Row>)
    requires Consistent(table)
    ensures r.Some? <==> exists id :: HasHash(table, id, hash)
    ensures r.Some? ==> r.value.token.id in table && table[r.value.token.id] == r.value && r.value.secretHash == hash
  {
    if exists id :: id in table && HasHash(table, id, hash) then
      var id :| id in table && HasHash(table, id, hash);
      Some(table[id])
    else None
  }
}
