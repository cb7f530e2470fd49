/** The refresh-token table and its repository (repository/RefreshTokenRepository.java):
    lookups by value and by owner, and the deletions the session service relies on. */
module RefreshTokenStore {
  import opened Wrappers
  import opened Seqs
  import opened RefreshTokenEntity

  /** One persisted row of `refresh_tokens`. */
  datatype TokenRow = TokenRow(id: int, token: string, user: UserId, expiryDate: Instant)

  /** The `token` column is unique. */
  predicate UniqueTokens(rows: seq<TokenRow>)
  {
    DistinctBy(rows, (r: TokenRow) => r.token)
  }

  predicate UniqueIds(rows: seq<TokenRow>)
  {
    DistinctBy(rows, (r: TokenRow) => r.id)
  }

  /** The session invariant: no user owns two refresh tokens. */
  predicate OneTokenPerUser(rows: seq<TokenRow>)
  {
    DistinctBy(rows, (r: TokenRow) => r.user)
  }

  function Values(rows: seq<TokenRow>): set<string>
  {
    set r | r in rows :: r.token
  }

  /** The rows a user owns. */
  function TokensOf(rows: seq<TokenRow>, user: UserId): (r: seq<TokenRow>)
    ensures forall x :: x in r <==> x in rows && x.user == user
  {
    Filter(rows, (r: TokenRow) => r.user == user)
  }

  /** `WHERE rt.expiryDate < :now`: exactly the rows for which `isExpired(now)` holds. */
  function ExpiredRows(rows: seq<TokenRow>, now: Instant): (r: seq<TokenRow>)
    ensures forall x :: x in r <==> x in rows && Expired(x.expiryDate, now)
  {
    Filter(rows, (r: TokenRow) => r.expiryDate < now)
  }

  /** What a sweep at `now` leaves behind. */
  function LiveRows(rows: seq<TokenRow>, now: Instant): (r: seq<TokenRow>)
    ensures forall x :: x in r <==> x in rows && !Expired(x.expiryDate, now)
  {
    Filter(rows, (r: TokenRow) => !(r.expiryDate < now))
  }

  /** What deleting every row of `user` leaves behind. */
  function WithoutUser(rows: seq<TokenRow>, user: UserId): (r: seq<TokenRow>)
    ensures forall x :: x in r <==> x in rows && x.user != user
  {
    Filter(rows, (r: TokenRow) => r.user != user)
  }

  /** What deleting the row with primary key `id` leaves behind. */
  function WithoutId(rows: seq<TokenRow>, id: int): (r: seq<TokenRow>)
    ensures forall x :: x in r <==> x in rows && x.id != id
  {
    Filter(rows, (r: TokenRow) => r.id != id)
  }

  /** The first row whose value is `value`. */
  function Lookup(rows: seq<TokenRow>, value: string): (r: Option<TokenRow>)
    ensures r.Some? ==> r.value in rows && r.value.token == value
    ensures r.None? <==> value !in Values(rows)
  {
    if rows == [] then None
    else if rows[0].token == value then Some(rows[0])
    else
      var rest := Lookup(rows[1..], value);
      assert Values(rows) == {rows[0].token} + Values(rows[1..]) by {
        assert forall r :: r in rows <==> r == rows[0] || r in rows[1..];
      }
      rest
  }

  /** The store after a login for `row.user`: every earlier token of that user is gone
      and `row` is the newest row. */
  function Issue(rows: seq<TokenRow>, row: TokenRow): (r: seq<TokenRow>)
    ensures forall x :: x in r <==> (x in rows && x.user != row.user) || x == row
    ensures r != [] && r[|r| - 1] == row
  {
    WithoutUser(rows, row.user) + [row]
  }

  /** The store after rotating `used` into `row`. */
  function Rotate(rows: seq<TokenRow>, used: TokenRow, row: TokenRow): (r: seq<TokenRow>)
    ensures forall x :: x in r <==> (x in rows && x.id != used.id) || x == row
    ensures r != [] && r[|r| - 1] == row
  {
    WithoutId(rows, used.id) + [row]
  }

  /** With unique values, looking a value up finds the one row that carries it. */
  lemma {:induction false} LookupFindsTheRow(rows: seq<TokenRow>, row: TokenRow)
    requires UniqueTokens(rows) && row in rows
    ensures Lookup(rows, row.token) == Some(row)
  {
    if rows[0] != row {
      assert rows[0].token != row.token by {
        var k :| 0 <= k < |rows| && rows[k] == row;
        assert k != 0;
      }
      assert UniqueTokens(rows[1..]) by {
        forall i, j | 0 <= i < j < |rows[1..]| ensures rows[1..][i].token != rows[1..][j].token {
          assert rows[1..][i] == rows[i + 1] && rows[1..][j] == rows[j + 1];
        }
      }
      LookupFindsTheRow(rows[1..], row);
    }
  }

  /** A sweep splits the table: what it deletes and what it keeps add up to the whole. */
  lemma {:induction false} SweepPartitions(rows: seq<TokenRow>, now: Instant)
    ensures |ExpiredRows(rows, now)| + |LiveRows(rows, now)| == |rows|
  {
    if rows != [] {
      SweepPartitions(rows[1..], now);
    }
  }

  /** A row is deleted by a sweep at `now` exactly when `isExpired` holds of it at `now`. */
  lemma SweepDeletesExactlyExpired(rows: seq<TokenRow>, now: Instant, r: TokenRow)
    requires r in rows
    ensures r in ExpiredRows(rows, now) <==> Expired(r.expiryDate, now)
    ensures r in LiveRows(rows, now) <==> !Expired(r.expiryDate, now)
  {
  }

  /** A second sweep at the same instant finds nothing more to delete. */
  lemma {:induction false} SweepLeavesNothingExpired(rows: seq<TokenRow>, now: Instant)
    ensures ExpiredRows(LiveRows(rows, now), now) == []
    ensures LiveRows(LiveRows(rows, now), now) == LiveRows(rows, now)
  {
    if rows != [] {
      SweepLeavesNothingExpired(rows[1..], now);
    }
  }

  /** Deleting a user's rows leaves the others, and the two parts add up. */
  lemma {:induction false} DeleteByUserPartitions(rows: seq<TokenRow>, user: UserId)
    ensures |TokensOf(rows, user)| + |WithoutUser(rows, user)| == |rows|
    ensures TokensOf(WithoutUser(rows, user), user) == []
  {
    if rows != [] {
      DeleteByUserPartitions(rows[1..], user);
    }
  }

  /** Deleting another user's rows does not touch `v`'s rows. */
  lemma {:induction false} WithoutUserKeepsOthers(rows: seq<TokenRow>, u: UserId, v: UserId)
    requires u != v
    ensures TokensOf(WithoutUser(rows, u), v) == TokensOf(rows, v)
  {
    if rows != [] {
      WithoutUserKeepsOthers(rows[1..], u, v);
    }
  }

  /** A user none of whose rows are present owns nothing. */
  lemma {:induction false} NoTokensOf(rows: seq<TokenRow>, user: UserId)
    requires forall r :: r in rows ==> r.user != user
    ensures TokensOf(rows, user) == []
  {
    if rows != [] {
      NoTokensOf(rows[1..], user);
    }
  }

  /** Deleting one row by id leaves the rows of every other owner in place. */
  lemma {:induction false} WithoutIdKeepsOthers(rows: seq<TokenRow>, used: TokenRow, v: UserId)
    requires used.user != v
    requires forall r :: r in rows && r.id == used.id ==> r.user == used.user
    ensures TokensOf(WithoutId(rows, used.id), v) == TokensOf(rows, v)
  {
    if rows != [] {
      WithoutIdKeepsOthers(rows[1..], used, v);
    }
  }

  /** With one token per user and unique ids, deleting a user's token by its id leaves
      that user with none. */
  lemma WithoutIdOfOnlyToken(rows: seq<TokenRow>, used: TokenRow)
    requires OneTokenPerUser(rows) && UniqueIds(rows) && used in rows
    ensures TokensOf(WithoutId(rows, used.id), used.user) == []
  {
    var kept := WithoutId(rows, used.id);
    forall x | x in kept ensures x.user != used.user {
      var i :| 0 <= i < |rows| && rows[i] == x;
      var j :| 0 <= j < |rows| && rows[j] == used;
      assert i != j;
    }
    NoTokensOf(kept, used.user);
  }

  /** After a login only the new row belongs to its user, and every other user's rows
      are exactly as before. */
  lemma IssueLeavesOneToken(rows: seq<TokenRow>, row: TokenRow, v: UserId)
    ensures TokensOf(Issue(rows, row), row.user) == [row]
    ensures v != row.user ==> TokensOf(Issue(rows, row), v) == TokensOf(rows, v)
  {
    FilterAppend(WithoutUser(rows, row.user), [row], (r: TokenRow) => r.user == row.user);
    DeleteByUserPartitions(rows, row.user);
    if v != row.user {
      FilterAppend(WithoutUser(rows, row.user), [row], (r: TokenRow) => r.user == v);
      WithoutUserKeepsOthers(rows, row.user, v);
    }
  }

  /** Login keeps every user at one token at most. */
  lemma IssueKeepsOneTokenPerUser(rows: seq<TokenRow>, row: TokenRow)
    requires OneTokenPerUser(rows)
    ensures OneTokenPerUser(Issue(rows, row))
  {
    var kept := WithoutUser(rows, row.user);
    FilterKeepsDistinct(rows, (r: TokenRow) => r.user != row.user, (r: TokenRow) => r.user);
    var s := kept + [row];
    forall i, j | 0 <= i < j < |s| ensures s[i].user != s[j].user {
      if j == |s| - 1 {
        assert s[i] in kept;
      } else {
        assert s[i] == kept[i] && s[j] == kept[j];
      }
    }
  }

  /** Rotation hands the owner's single token over to the new row: the owner still
      has exactly one, everybody else's rows are untouched and the invariant holds. */
  lemma RotateReplacesTheToken(rows: seq<TokenRow>, used: TokenRow, row: TokenRow, v: UserId)
    requires OneTokenPerUser(rows) && UniqueIds(rows) && used in rows && row.user == used.user
    ensures TokensOf(Rotate(rows, used, row), used.user) == [row]
    ensures v != used.user ==> TokensOf(Rotate(rows, used, row), v) == TokensOf(rows, v)
    ensures OneTokenPerUser(Rotate(rows, used, row))
  {
    var kept := WithoutId(rows, used.id);
    FilterAppend(kept, [row], (r: TokenRow) => r.user == used.user);
    WithoutIdOfOnlyToken(rows, used);
    if v != used.user {
      FilterAppend(kept, [row], (r: TokenRow) => r.user == v);
      forall r | r in rows && r.id == used.id ensures r.user == used.user {
        var i :| 0 <= i < |rows| && rows[i] == r;
        var j :| 0 <= j < |rows| && rows[j] == used;
        assert i == j;
      }
      WithoutIdKeepsOthers(rows, used, v);
    }
    FilterKeepsDistinct(rows, (r: TokenRow) => r.id != used.id, (r: TokenRow) => r.user);
    var s := kept + [row];
    forall i, j | 0 <= i < j < |s| ensures s[i].user != s[j].user {
      if j == |s| - 1 {
        assert s[i] in kept && s[i] !in TokensOf(kept, used.user);
      } else {
        assert s[i] == kept[i] && s[j] == kept[j];
      }
    }
  }

  /** Once rotated, the used value is no longer in the store: replaying it fails. */
  lemma {:induction false} RotateForgetsOldValue(rows: seq<TokenRow>, used: TokenRow, row: TokenRow)
    requires UniqueTokens(rows) && used in rows && row.token != used.token
    ensures Lookup(Rotate(rows, used, row), used.token) == None
  {
    var kept := WithoutId(rows, used.id);
    forall x | x in kept ensures x.token != used.token {
      var i :| 0 <= i < |rows| && rows[i] == x;
      var j :| 0 <= j < |rows| && rows[j] == used;
      assert i != j;
    }
    assert used.token !in Values(kept + [row]);
  }

  /** Deleting one row by id forgets its value: a second use of it finds nothing. */
  lemma DeleteForgetsValue(rows: seq<TokenRow>, used: TokenRow)
    requires UniqueTokens(rows) && used in rows
    ensures Lookup(WithoutId(rows, used.id), used.token) == None
  {
    var kept := WithoutId(rows, used.id);
    forall x | x in kept ensures x.token != used.token {
      var i :| 0 <= i < |rows| && rows[i] == x;
      var j :| 0 <= j < |rows| && rows[j] == used;
      assert i != j;
    }
  }

  /** Deleting a row by id keeps every user at one token at most. */
  lemma DeleteKeepsOneTokenPerUser(rows: seq<TokenRow>, id: int)
    requires OneTokenPerUser(rows)
    ensures OneTokenPerUser(WithoutId(rows, id))
  {
    FilterKeepsDistinct(rows, (r: TokenRow) => r.id != id, (r: TokenRow) => r.user);
  }

  /** A sweep keeps every user at one token at most. */
  lemma SweepKeepsOneTokenPerUser(rows: seq<TokenRow>, now: Instant)
    requires OneTokenPerUser(rows)
    ensures OneTokenPerUser(LiveRows(rows, now))
  {
    FilterKeepsDistinct(rows, (r: TokenRow) => !(r.expiryDate < now), (r: TokenRow) => r.user);
  }

  class RefreshTokenRepository {
    /** The rows of `refresh_tokens`, in insertion order. */
    var rows: seq<TokenRow>
    /** The identity generator: the id the next inserted row receives. */
    var nextId: int

    ghost predicate Valid()
      reads this
    {
      && UniqueTokens(rows)
      && UniqueIds(rows)
      && forall r :: r in rows ==> r.id < nextId
    }

    constructor ()
      ensures Valid() && rows == []
    {
      rows := [];
      nextId := 1;
    }

    /** `findByToken`: the row carrying `value`, if any. */
    function FindByToken(value: string): (r: Option<TokenRow>)
      reads this
      requires Valid()
      ensures r.Some? <==> value in Values(rows)
      ensures r.Some? ==> r.value in rows && r.value.token == value
      ensures forall row :: row in rows && row.token == value ==> r == Some(row)
    {
      var r := Lookup(rows, value);
      assert forall row :: row in rows && row.token == value ==> r == Some(row) by {
        forall row | row in rows && row.token == value ensures r == Some(row) {
          LookupFindsTheRow(rows, row);
        }
      }
      r
    }

    /** `findByUser`: the (first) row owned by `user`, if any. */
    function FindByUser(user: UserId): (r: Option<TokenRow>)
      reads this
      ensures r.Some? <==> exists row :: row in rows && row.user == user
      ensures r.Some? ==> r.value in rows && r.value.user == user
    {
      var mine := TokensOf(rows, user);
      if mine == [] then None else Some(mine[0])
    }

    /** `findExpiredTokens(now)`: the rows a sweep at `now` would delete. */
    function FindExpiredTokens(now: Instant): (r: seq<TokenRow>)
      reads this
      ensures forall row :: row in r <==> row in rows && Expired(row.expiryDate, now)
    {
      ExpiredRows(rows, now)
    }

    /** `save` of a new entity: inserts its row under a freshly generated id and writes
        that id back into the entity. The unique `token` column admits only a value
        not already stored. */
    method Save(entity: RefreshToken) returns (saved: TokenRow)
      requires Valid() && entity.id == None && entity.token !in Values(rows)
      modifies this, entity`id
      ensures Valid()
      ensures saved == TokenRow(old(nextId), entity.token, entity.user, entity.expiryDate)
      ensures rows == old(rows) + [saved] && nextId == old(nextId) + 1
      ensures entity.id == Some(saved.id)
    {
      saved := TokenRow(nextId, entity.token, entity.user, entity.expiryDate);
      assert forall r :: r in rows ==> r.token != saved.token;
      rows := rows + [saved];
      entity.id := Some(nextId);
      nextId := nextId + 1;
    }

    /** `delete(entity)`: removes the row with the entity's id; no such row is no error. */
    method Delete(row: TokenRow)
      requires Valid()
      modifies this`rows
      ensures Valid()
      ensures rows == WithoutId(old(rows), row.id)
    {
      FilterKeepsDistinct(rows, (r: TokenRow) => r.id != row.id, (r: TokenRow) => r.token);
      FilterKeepsDistinct(rows, (r: TokenRow) => r.id != row.id, (r: TokenRow) => r.id);
      rows := WithoutId(rows, row.id);
    }

    /** `deleteAllByUser`. */
    method DeleteAllByUser(user: UserId)
      requires Valid()
      modifies this`rows
      ensures Valid()
      ensures rows == WithoutUser(old(rows), user)
      ensures FindByUser(user) == None
    {
      var count := DeleteByUser(user);
    }

    /** `deleteByUser`: removes every row of `user` and reports how many there were. */
    method DeleteByUser(user: UserId) returns (count: nat)
      requires Valid()
      modifies this`rows
      ensures Valid()
      ensures rows == WithoutUser(old(rows), user)
      ensures count == |TokensOf(old(rows), user)|
      ensures FindByUser(user) == None
    {
      DeleteByUserPartitions(rows, user);
      FilterKeepsDistinct(rows, (r: TokenRow) => r.user != user, (r: TokenRow) => r.token);
      FilterKeepsDistinct(rows, (r: TokenRow) => r.user != user, (r: TokenRow) => r.id);
      count := |TokensOf(rows, user)|;
      rows := WithoutUser(rows, user);
    }

    /** `deleteByExpiryDateBefore(now)`: removes every row that expired before `now` and
        reports how many it removed. */
    method DeleteByExpiryDateBefore(now: Instant) returns (count: nat)
      requires Valid()
      modifies this`rows
      ensures Valid()
      ensures rows == LiveRows(old(rows), now)
      ensures count == |old(FindExpiredTokens(now))| == |old(rows)| - |rows|
      ensures FindExpiredTokens(now) == []
    {
      SweepPartitions(rows, now);
      FilterKeepsDistinct(rows, (r: TokenRow) => !(r.expiryDate < now), (r: TokenRow) => r.token);
      FilterKeepsDistinct(rows, (r: TokenRow) => !(r.expiryDate < now), (r: TokenRow) => r.id);
      count := |ExpiredRows(rows, now)|;
      rows := LiveRows(rows, now);
      SweepLeavesNothingExpired(old(rows), now);
    }
  }
}
