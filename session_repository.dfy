/** `UserSessionRepository`: the session table, updated in place. */
module SessionRepository {
  import opened Common
  import opened Crypto
  import opened SessionTable

  /** Row ids distinct and below `bound`: the table invariant on a plain sequence. */
  ghost predicate IdsBelow(rows: seq<Session>, bound: Id)
  {
    IdsDistinct(rows) && forall i :: 0 <= i < |rows| ==> rows[i].id < bound
  }

  class UserSessionRepository {
    /** The table's rows, in insertion order. */
    var rows: seq<Session>
    /** The id the next created row receives (stands for a generated uuid). */
    var nextId: Id

    ghost predicate Valid()
      reads this
    {
      IdsBelow(rows, nextId)
    }

    constructor ()
      ensures Valid() && rows == [] && nextId == 0
    {
      rows := [];
      nextId := 0;
    }

    /** `create(data)`: adds one row with a fresh id and the given fields,
        stamped with `createdAt = now`; existing rows are untouched. */
    method Create(data: NewSession, now: int) returns (s: Session)
      requires Valid()
      modifies this
      ensures Valid()
      ensures s == Session(old(nextId), data.userId, data.hashedRefreshToken, data.expiresAt, now)
      ensures forall r :: r in old(rows) ==> r.id != s.id
      ensures rows == old(rows) + [s] && nextId == old(nextId) + 1
    {
      s := Session(nextId, data.userId, data.hashedRefreshToken, data.expiresAt, now);
      rows := rows + [s];
      nextId := nextId + 1;
    }

    /** `delete(id)`: removes only the row with that id. */
    method Delete(id: Id)
      requires Valid()
      modifies this
      ensures Valid() && nextId == old(nextId)
      ensures rows == RemoveId(old(rows), id)
    {
      RemoveIdKeepsValid(rows, id, nextId);
      rows := RemoveId(rows, id);
    }

    /** `deleteExpiredSessions()` at clock `now`: removes exactly the rows with
        `expiresAt < now` and returns how many it removed. */
    method DeleteExpiredSessions(now: int) returns (count: nat)
      requires Valid()
      modifies this
      ensures Valid() && nextId == old(nextId)
      ensures rows == Unexpired(old(rows), now)
      ensures count == |ExpiredRows(old(rows), now)| == |old(rows)| - |rows|
    {
      PurgePartition(rows, now);
      UnexpiredKeepsValid(rows, now, nextId);
      count := |rows| - |Unexpired(rows, now)|;
      rows := Unexpired(rows, now);
    }

    /** `findByUserId(userId)`: exactly the rows of that user, in table order. */
    method FindByUserId(userId: Id) returns (r: seq<Session>)
      ensures forall s :: s in r <==> s in rows && s.userId == userId
      ensures r == SessionsOf(rows, userId)
    {
      r := SessionsOf(rows, userId);
    }

    /** `findOneById(id)`: the row with that id, or null. */
    method FindOneById(id: Id) returns (r: Option<Session>)
      requires Valid()
      ensures r.Some? <==> exists s :: s in rows && s.id == id
      ensures r.Some? ==> r.value in rows && r.value.id == id
      ensures r.Some? ==> forall s :: s in rows && s.id == id ==> s == r.value
    {
      r := FindById(rows, id);
      if r.Some? {
        forall s | s in rows && s.id == id ensures s == r.value {
          var i :| 0 <= i < |rows| && rows[i] == s;
          var j :| 0 <= j < |rows| && rows[j] == r.value;
          assert i == j;
        }
      }
    }
  }

  lemma TailIdsBelow(rows: seq<Session>, bound: Id)
    requires rows != [] && IdsBelow(rows, bound)
    ensures IdsBelow(rows[1..], bound)
    ensures forall s :: s in rows[1..] ==> s.id != rows[0].id
  {
    var tail := rows[1..];
    forall i, j | 0 <= i < j < |tail| ensures tail[i].id != tail[j].id {
      assert tail[i] == rows[i + 1] && tail[j] == rows[j + 1];
    }
    forall i | 0 <= i < |tail| ensures tail[i].id < bound {
      assert tail[i] == rows[i + 1];
    }
    forall s | s in tail ensures s.id != rows[0].id {
      var j :| 0 <= j < |tail| && tail[j] == s;
      assert rows[j + 1] == s;
    }
  }

  lemma ConsIdsBelow(x: Session, rest: seq<Session>, bound: Id)
    requires IdsBelow(rest, bound) && x.id < bound
    requires forall s :: s in rest ==> s.id != x.id
    ensures IdsBelow([x] + rest, bound)
  {
    var r := [x] + rest;
    forall i, j | 0 <= i < j < |r| ensures r[i].id != r[j].id {
      assert r[j] == rest[j - 1];
      if i == 0 {
        assert rest[j - 1] in rest;
      } else {
        assert r[i] == rest[i - 1];
      }
    }
    forall i | 0 <= i < |r| ensures r[i].id < bound {
      if i > 0 {
        assert r[i] == rest[i - 1];
      }
    }
  }

  lemma {:induction false} RemoveIdKeepsValid(rows: seq<Session>, id: Id, bound: Id)
    requires IdsDistinct(rows) && forall i :: 0 <= i < |rows| ==> rows[i].id < bound
    ensures IdsDistinct(RemoveId(rows, id))
    ensures forall i :: 0 <= i < |RemoveId(rows, id)| ==> RemoveId(rows, id)[i].id < bound
  {
    if rows != [] {
      TailIdsBelow(rows, bound);
      RemoveIdKeepsValid(rows[1..], id, bound);
      if rows[0].id != id {
        ConsIdsBelow(rows[0], RemoveId(rows[1..], id), bound);
      }
    }
  }

  lemma {:induction false} UnexpiredKeepsValid(rows: seq<Session>, now: int, bound: Id)
    requires IdsDistinct(rows) && forall i :: 0 <= i < |rows| ==> rows[i].id < bound
    ensures IdsDistinct(Unexpired(rows, now))
    ensures forall i :: 0 <= i < |Unexpired(rows, now)| ==> Unexpired(rows, now)[i].id < bound
  {
    if rows != [] {
      TailIdsBelow(rows, bound);
      UnexpiredKeepsValid(rows[1..], now, bound);
      if !Expired(rows[0], now) {
        ConsIdsBelow(rows[0], Unexpired(rows[1..], now), bound);
      }
    }
  }
}
