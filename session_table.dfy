/** The rows of the `userSession` table and the pure selections the session
    repository and the session service perform on them. The table is a
    sequence in insertion order; `findMany` without `orderBy` promises no
    order, and the model fixes this one. */
module SessionTable {
  import opened Common
  import opened Crypto

  /** `UserSessionModel`. */
  datatype Session = Session(id: Id, userId: Id, hashedRefreshToken: Digest<Jwt>, expiresAt: int, createdAt: int)

  /** `CreateUserSessionData`: what the service hands to the repository. */
  datatype NewSession = NewSession(userId: Id, hashedRefreshToken: Digest<Jwt>, expiresAt: int)

  /** The row id is the table's primary key. */
  ghost predicate IdsDistinct(rows: seq<Session>)
  {
    forall i, j :: 0 <= i < j < |rows| ==> rows[i].id != rows[j].id
  }

  /** The purge predicate `expiresAt < now`, which is also the expiry check of
      `findSessionByToken`. */
  predicate Expired(s: Session, now: int)
  {
    s.expiresAt < now
  }

  /** `findMany({ where: { userId } })`. */
  function SessionsOf(rows: seq<Session>, u: Id): (r: seq<Session>)
    ensures forall s :: s in r <==> s in rows && s.userId == u
    ensures |r| <= |rows|
  {
    if rows == [] then []
    else (if rows[0].userId == u then [rows[0]] else []) + SessionsOf(rows[1..], u)
  }

  /** The rows `deleteMany({ where: { expiresAt: { lt: now } } })` keeps. */
  function Unexpired(rows: seq<Session>, now: int): (r: seq<Session>)
    ensures forall s :: s in r <==> s in rows && !Expired(s, now)
    ensures |r| <= |rows|
  {
    if rows == [] then []
    else (if Expired(rows[0], now) then [] else [rows[0]]) + Unexpired(rows[1..], now)
  }

  /** The rows that purge deletes. */
  function ExpiredRows(rows: seq<Session>, now: int): (r: seq<Session>)
    ensures forall s :: s in r <==> s in rows && Expired(s, now)
  {
    if rows == [] then []
    else (if Expired(rows[0], now) then [rows[0]] else []) + ExpiredRows(rows[1..], now)
  }

  /** `delete({ where: { id } })`: every row but the one with that id. */
  function RemoveId(rows: seq<Session>, id: Id): (r: seq<Session>)
    ensures forall s :: s in r <==> s in rows && s.id != id
    ensures |r| <= |rows|
  {
    if rows == [] then []
    else (if rows[0].id == id then [] else [rows[0]]) + RemoveId(rows[1..], id)
  }

  /** `findUnique({ where: { id } })`. */
  function FindById(rows: seq<Session>, id: Id): (r: Option<Session>)
    ensures r.Some? ==> r.value in rows && r.value.id == id
    ensures r.None? ==> forall s :: s in rows ==> s.id != id
  {
    if rows == [] then None
    else if rows[0].id == id then Some(rows[0])
    else FindById(rows[1..], id)
  }

  /** `comparisons.find(c => c.isValid)`: the index of the first session whose
      stored digest matches the token. */
  function FirstMatch(sessions: seq<Session>, token: Jwt): (r: Option<nat>)
    ensures r.Some? ==> r.value < |sessions| && Compare(token, sessions[r.value].hashedRefreshToken)
    ensures r.Some? ==> forall j :: 0 <= j < r.value ==> !Compare(token, sessions[j].hashedRefreshToken)
    ensures r.None? ==> forall j :: 0 <= j < |sessions| ==> !Compare(token, sessions[j].hashedRefreshToken)
  {
    if sessions == [] then None
    else if Compare(token, sessions[0].hashedRefreshToken) then Some(0)
    else match FirstMatch(sessions[1..], token)
      case None => None
      case Some(k) => Some(k + 1)
  }

  const InvalidRefreshToken := "Invalid refresh token"
  const ExpiredRefreshToken := "Refresh token has expired"

  /** What `findSessionByToken` does with the sessions of one user: the first
      match, rejected if it has expired. */
  function SelectSession(sessions: seq<Session>, token: Jwt, now: int): (r: Result<Session>)
  {
    match FirstMatch(sessions, token)
    case None => Err(Unauthorized(InvalidRefreshToken))
    case Some(k) =>
      if Expired(sessions[k], now) then Err(Unauthorized(ExpiredRefreshToken))
      else Ok(sessions[k])
  }

  // ---------------------------------------------------------------------------
  // Properties of the selections

  /** Filtering by user preserves table order: appending rows appends their
      matches. */
  lemma {:induction false} SessionsOfAppend(a: seq<Session>, b: seq<Session>, u: Id)
    ensures SessionsOf(a + b, u) == SessionsOf(a, u) + SessionsOf(b, u)
  {
    if a == [] {
      assert a + b == b;
    } else {
      assert (a + b)[1..] == a[1..] + b;
      SessionsOfAppend(a[1..], b, u);
    }
  }

  /** The purge count: every row is either kept or deleted. */
  lemma {:induction false} PurgePartition(rows: seq<Session>, now: int)
    ensures |Unexpired(rows, now)| + |ExpiredRows(rows, now)| == |rows|
  {
    if rows != [] {
      PurgePartition(rows[1..], now);
    }
  }

  /** Deleting by id distributes over concatenation, so it keeps table order. */
  lemma {:induction false} RemoveIdAppend(a: seq<Session>, b: seq<Session>, id: Id)
    ensures RemoveId(a + b, id) == RemoveId(a, id) + RemoveId(b, id)
  {
    if a == [] {
      assert a + b == b;
    } else {
      assert (a + b)[1..] == a[1..] + b;
      RemoveIdAppend(a[1..], b, id);
    }
  }

  /** When exactly one session holds the token's digest, that session is the
      first match. */
  lemma UniqueMatch(sessions: seq<Session>, token: Jwt, s: Session)
    requires s in sessions && Compare(token, s.hashedRefreshToken)
    requires forall x :: x in sessions && Compare(token, x.hashedRefreshToken) ==> x == s
    ensures FirstMatch(sessions, token).Some?
    ensures sessions[FirstMatch(sessions, token).value] == s
  {
    var i :| 0 <= i < |sessions| && sessions[i] == s;
    var k := FirstMatch(sessions, token).value;
    assert sessions[k] in sessions;
  }

  /** With distinct ids, deleting a present id removes exactly one row. */
  lemma {:induction false} RemoveIdCount(rows: seq<Session>, id: Id)
    requires IdsDistinct(rows)
    ensures |RemoveId(rows, id)| == if FindById(rows, id).Some? then |rows| - 1 else |rows|
  {
    if rows != [] {
      assert IdsDistinct(rows[1..]) by {
        forall i, j | 0 <= i < j < |rows[1..]| ensures rows[1..][i].id != rows[1..][j].id {
          assert rows[1..][i] == rows[i + 1] && rows[1..][j] == rows[j + 1];
        }
      }
      RemoveIdCount(rows[1..], id);
      if rows[0].id == id {
        assert forall s :: s in rows[1..] ==> s.id != id by {
          forall s | s in rows[1..] ensures s.id != id {
            var j :| 0 <= j < |rows[1..]| && rows[1..][j] == s;
            assert rows[j + 1] == s;
          }
        }
      }
    }
  }

  /** `findSessionByToken` accepts exactly an unexpired first match: the
      session is returned iff it matches first and `expiresAt >= now` (so
      `expiresAt == now` is still accepted). */
  lemma SelectSessionSpec(sessions: seq<Session>, token: Jwt, now: int)
    ensures SelectSession(sessions, token, now).Ok? <==>
      FirstMatch(sessions, token).Some? && sessions[FirstMatch(sessions, token).value].expiresAt >= now
    ensures SelectSession(sessions, token, now) == Err(Unauthorized(InvalidRefreshToken)) <==>
      forall s :: s in sessions ==> !Compare(token, s.hashedRefreshToken)
    ensures SelectSession(sessions, token, now).Ok? ==>
      var s := SelectSession(sessions, token, now).value;
      s in sessions && Compare(token, s.hashedRefreshToken) && !Expired(s, now)
  {
    if FirstMatch(sessions, token).Some? {
      var k := FirstMatch(sessions, token).value;
      assert sessions[k] in sessions;
    } else {
      forall s | s in sessions ensures !Compare(token, s.hashedRefreshToken) {
        var j :| 0 <= j < |sessions| && sessions[j] == s;
      }
    }
  }

  /** Boundary agreement between the purge and the expiry check: a matched
      session survives `deleteExpiredSessions(now)` exactly when
      `findSessionByToken` at the same `now` does not reject it as expired. */
  lemma PurgeAgreesWithExpiryCheck(rows: seq<Session>, sessions: seq<Session>, token: Jwt, now: int)
    requires FirstMatch(sessions, token).Some?
    requires sessions[FirstMatch(sessions, token).value] in rows
    ensures sessions[FirstMatch(sessions, token).value] in Unexpired(rows, now) <==>
      SelectSession(sessions, token, now).Ok?
    ensures sessions[FirstMatch(sessions, token).value] !in Unexpired(rows, now) <==>
      SelectSession(sessions, token, now) == Err(Unauthorized(ExpiredRefreshToken))
  {
  }

  /** A token whose digest no row holds is rejected as invalid for every user
      and at every time: this is why a consumed refresh token cannot be reused. */
  lemma UnheldTokenIsInvalid(rows: seq<Session>, u: Id, token: Jwt, now: int)
    requires forall s :: s in rows ==> s.hashedRefreshToken != Hash(token)
    ensures SelectSession(SessionsOf(rows, u), token, now) == Err(Unauthorized(InvalidRefreshToken))
  {
    SelectSessionSpec(SessionsOf(rows, u), token, now);
  }
}
