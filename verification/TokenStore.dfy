/** The PostgreSQL store as an object: each method changes the committed rows by one statement. */
module TokenStore {
  import opened Wrappers
  import opened TokenTable

  datatype StoreError = Internal | PolicyRejected

  class PostgresApiTokenStore {
    var rows: Table
    const maximum: Option<nat>

    constructor (maximum: Option<nat>)
      ensures rows == map[] && this.maximum == maximum
    {
      rows, this.maximum := map[], maximum;
    }

    /** Counts and inserts with nothing in between, as one transaction does when it runs alone. */
    method CreateToken(record: Record) returns (r: Result<Token, StoreError>)
      modifies this
      ensures r.Success? <==> && Fits(old(rows), record) && MeetsChecks(record)
                              && (maximum.Some?
                                  ==> |ActiveIds(old(rows), record.ownerId, record.createdAt)| < maximum.value)
      ensures r.Success? ==> rows == Inserted(old(rows), record)
                             && r.value == rows[record.id].token && IsActiveAt(r.value, record.createdAt)
      ensures r.Failure? ==> rows == old(rows)
      ensures maximum.None? && r.Failure? ==> r.error.Internal?
      ensures maximum.Some? ==>
                (r == Failure(PolicyRejected)
                 <==> |ActiveIds(old(rows), record.ownerId, record.createdAt)| >= maximum.value)
    {
      if maximum.Some? {
        var active := LockAndCountActive(record.ownerId, record.createdAt);
        if active >= maximum.value {
          return Failure(PolicyRejected);
        }
      }
      r := InsertApiToken(record);
    }

    /** Looks at each row once. */
    method LockAndCountActive(owner: OwnerId, at: Instant) returns (active: nat)
      ensures active == |ActiveIds(rows, owner, at)|
    {
      active := 0;
      var left := rows.Keys;
      ghost var counted: set<TokenId> := {};
      while left != {}
        invariant left <= rows.Keys
        invariant counted == ActiveIds(rows, owner, at) - left
        invariant active == |counted|
      {
        var id :| id in left;
        left := left - {id};
        var token := rows[id].token;
        if token.ownerId == owner && token.revokedAt.None? && (token.expiresAt.None? || token.expiresAt.value > at) {
          active := active + 1;
          counted := counted + {id};
        }
      }
    }

    method InsertApiToken(record: Record) returns (r: Result<Token, StoreError>)
      modifies this
      ensures r.Success? <==> Fits(old(rows), record) && MeetsChecks(record)
      ensures r.Success? ==> rows == Inserted(old(rows), record) && r.value == rows[record.id].token
                             && IsActiveAt(r.value, record.createdAt)
      ensures r.Failure? ==> rows == old(rows) && r.error.Internal?
    {
      if !Fits(rows, record) || !MeetsChecks(record) {
        return Failure(Internal);
      }
      rows := Inserted(rows, record);
      r := Success(rows[record.id].token);
    }

    method FindToken(hash: Digest) returns (r: Option<Row>)
      requires Consistent(rows)
      ensures r.Some? <==> exists id :: HasHash(rows, id, hash)
      ensures r.Some? ==> r.value.secretHash == hash && r.value in rows.Values
    {
      r := FindByHash(rows, hash);
    }

    /** Moves the last use forward, never back. */
    method Touch(id: TokenId, usedAt: Instant)
      modifies this
      ensures rows == Touched(old(rows), id, usedAt)
      ensures id in rows ==> !Newer(rows[id].token.lastUsedAt, usedAt)
    {
      if id in rows && Newer(rows[id].token.lastUsedAt, usedAt) {
        rows := rows[id := rows[id].(token := rows[id].token.(lastUsedAt := Some(usedAt)))];
      }
    }

    method RevokeToken(owner: OwnerId, id: TokenId, at: Instant) returns (revoked: bool)
      modifies this
      ensures revoked <==> Revocable(old(rows), owner, id)
      ensures rows == Revoked(old(rows), owner, id, at)
      ensures !Revocable(rows, owner, id)
    {
      revoked := Revocable(rows, owner, id);
      if revoked {
        rows := rows[id := rows[id].(token := rows[id].token.(revokedAt := Some(at)))];
      }
    }

    /** Deletes one batch; fewer rows than the limit means that none is left that could be deleted. */
    method PurgeInactiveApiTokens(cutoff: Instant, limit: nat, locked: set<TokenId>) returns (deleted: nat)
      modifies this
      ensures rows == Purged(old(rows), cutoff, limit, locked)
      ensures deleted == |old(rows).Keys - rows.Keys| <= limit
      ensures deleted < limit ==> Purgeable(rows, cutoff, locked) == {}
      ensures forall id <- rows :: id in old(rows) && rows[id] == old(rows)[id]
      ensures forall id <- old(rows) :: id in rows || (id !in locked && WasInactive(old(rows)[id].token, cutoff))
      ensures deleted < limit ==> forall id <- rows :: id in locked || !WasInactive(rows[id].token, cutoff)
    {
      forall id | id in rows ensures InactiveBefore(rows[id].token, cutoff) <==> WasInactive(rows[id].token, cutoff) {
        InactiveIsExact(rows[id].token, cutoff);
      }
      var ids := Lowest(Purgeable(rows, cutoff, locked), limit);
      assert rows.Keys - (rows - ids).Keys == ids;
      hide InactiveBefore, WasInactive;
      deleted := |ids|;
      rows := rows - ids;
    }

    method EraseOwnerApiTokens(owner: OwnerId) returns (deleted: nat)
      modifies this
      ensures rows == Erased(old(rows), owner)
      ensures deleted == |old(rows).Keys - rows.Keys|
      ensures OwnedBy(rows, owner) == {}
    {
      var ids := OwnedBy(rows, owner);
      assert rows.Keys - (rows - ids).Keys == ids;
      deleted := |ids|;
      rows := rows - ids;
    }
  }
}
