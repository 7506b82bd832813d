/** `AuthService`: log-in, log-out, refresh-token rotation, sign-up and the
    password check, over the user service and the session service. */
module Auth {
  import opened Common
  import opened Crypto
  import opened SessionTable
  import opened SessionRepository
  import opened SessionService
  import opened UserTable
  import opened UserStore
  import opened UserService

  /** `AuthTokens`. */
  datatype AuthTokens = AuthTokens(accessToken: Jwt, refreshToken: Jwt)

  /** What `signUp` returns: the tokens and the created user. */
  datatype SignedUp = SignedUp(tokens: AuthTokens, user: UserModel)

  const UserNotFound := "User not found"
  const WrongPassword := "Wrong password"

  // ---------------------------------------------------------------------------
  // Resolving a refresh token

  /** `findUserSessionByToken(token)` at clock `now`: verify the token, then
      look it up among the sessions of the subject it names. */
  function LookUpSession(key: Key, rows: seq<Session>, t: Jwt, now: int): Result<Session>
  {
    match Verify(key, t, now)
    case Err(e) => Err(e)
    case Ok(claims) => SelectSession(SessionsOf(rows, claims.sub), t, now)
  }

  /** A foreign or expired token fails in `verify`; a token that passes can
      only resolve to a session of its own subject that holds its digest and
      has not expired; it is "Invalid refresh token" exactly when no session
      of its subject holds its digest. */
  lemma LookUpSessionSpec(key: Key, rows: seq<Session>, t: Jwt, now: int)
    ensures var r := LookUpSession(key, rows, t, now);
      && (r.Err? && r.error.JwtRejected? <==> !(t.signedWith == key && now < t.claims.exp * 1000))
      && (r.Ok? ==> && r.value in rows && r.value.userId == t.claims.sub
                    && r.value.hashedRefreshToken == Hash(t) && r.value.expiresAt >= now)
      && (r == Err(Unauthorized(InvalidRefreshToken)) <==>
            && t.signedWith == key && now < t.claims.exp * 1000
            && forall x :: x in rows && x.userId == t.claims.sub ==> x.hashedRefreshToken != Hash(t))
  {
    SelectSessionSpec(SessionsOf(rows, t.claims.sub), t, now);
  }

  /** The session that alone holds the digest of a valid token for its user
      is the one the token resolves to. */
  lemma ResolvesToUniqueHolder(key: Key, rows: seq<Session>, t: Jwt, s: Session, now: int)
    requires t.signedWith == key && now < t.claims.exp * 1000
    requires s in rows && s.hashedRefreshToken == Hash(t) && s.userId == t.claims.sub && s.expiresAt >= now
    requires forall x :: x in rows && x.hashedRefreshToken == Hash(t) ==> x == s
    ensures LookUpSession(key, rows, t, now) == Ok(s)
  {
    UniqueMatch(SessionsOf(rows, t.claims.sub), t, s);
  }

  /** A token whose digest no row holds is refused, and, once `verify`
      accepts it, refused as "Invalid refresh token": a consumed refresh
      token cannot be replayed. */
  lemma ReplayIsRejected(key: Key, rows: seq<Session>, t: Jwt, now: int)
    requires forall x :: x in rows ==> x.hashedRefreshToken != Hash(t)
    ensures LookUpSession(key, rows, t, now).Err?
    ensures t.signedWith == key && now < t.claims.exp * 1000 ==>
      LookUpSession(key, rows, t, now) == Err(Unauthorized(InvalidRefreshToken))
  {
    UnheldTokenIsInvalid(rows, t.claims.sub, t, now);
  }

  // ---------------------------------------------------------------------------
  // The session table as this service leaves it

  /** Row `s` stores the digest of a refresh token this service issued: signed
      with `key`, for the row's user, with a token id below `bound`, and the
      row expires exactly when the token does. */
  ghost predicate IssuedFor(s: Session, key: Key, bound: nat)
  {
    var t := s.hashedRefreshToken.secret;
    && t.signedWith == key && t.claims.sub == s.userId
    && t.claims.jti.Some? && t.claims.jti.value < bound
    && s.expiresAt == t.claims.exp * 1000
  }

  ghost predicate Issued(rows: seq<Session>, key: Key, bound: nat)
  {
    forall s :: s in rows ==> IssuedFor(s, key, bound)
  }

  /** No two different rows hold the same digest. */
  ghost predicate UniqueDigests(rows: seq<Session>)
  {
    forall x, y :: x in rows && y in rows && x.hashedRefreshToken == y.hashedRefreshToken ==> x == y
  }

  /** Adding the row of a token with the next token id keeps every row issued and
      every digest unique. */
  lemma IssueKeepsInvariant(rows: seq<Session>, s: Session, key: Key, bound: nat)
    requires Issued(rows, key, bound) && UniqueDigests(rows)
    requires IssuedFor(s, key, bound + 1) && s.hashedRefreshToken.secret.claims.jti == Some(bound)
    ensures Issued(rows + [s], key, bound + 1) && UniqueDigests(rows + [s])
    ensures forall x :: x in rows ==> x.hashedRefreshToken != s.hashedRefreshToken
  {
    forall x | x in rows ensures x.hashedRefreshToken != s.hashedRefreshToken {
      assert IssuedFor(x, key, bound);
    }
  }

  /** With the table as this service keeps it, a token that `verify` accepts at
      `now` is never refused as "Refresh token has expired" at that same `now`:
      the row expires when the token does, and `verify` already refuses from
      that second on. */
  lemma VerifiedSessionIsUnexpired(key: Key, rows: seq<Session>, bound: nat, t: Jwt, now: int)
    requires Issued(rows, key, bound)
    ensures LookUpSession(key, rows, t, now) != Err(Unauthorized(ExpiredRefreshToken))
  {
    if t.signedWith == key && now < t.claims.exp * 1000 {
      var sessions := SessionsOf(rows, t.claims.sub);
      var k := FirstMatch(sessions, t);
      if k.Some? {
        assert sessions[k.value] in sessions;
        assert IssuedFor(sessions[k.value], key, bound);
      }
    }
  }

  /** `verify` and the expiry check read the clock separately, the second time
      after the awaited session scan. When the second reading falls after
      the row's expiry, a token `verify` accepted at the first is refused as
      "Refresh token has expired". */
  lemma ExpiryReachedAcrossClocks(key: Key, rows: seq<Session>, bound: nat, t: Jwt, verifiedAt: int, checkedAt: int)
    requires Issued(rows, key, bound)
    requires Verify(key, t, verifiedAt).Ok?
    requires FirstMatch(SessionsOf(rows, t.claims.sub), t).Some?
    requires t.claims.exp * 1000 < checkedAt
    ensures SelectSession(SessionsOf(rows, t.claims.sub), t, checkedAt) == Err(Unauthorized(ExpiredRefreshToken))
  {
    var sessions := SessionsOf(rows, t.claims.sub);
    var k := FirstMatch(sessions, t).value;
    assert sessions[k] in sessions;
    assert IssuedFor(sessions[k], key, bound);
  }

  /** A concrete case: a token expiring at second 1 is verified at 999 ms and
      its session is checked at 1001 ms. */
  lemma ExpiryAcrossClocksExample()
    ensures var key := Key("secret");
      var t := Jwt(Claims(1, 1, Some(0)), key);
      var rows := [Session(0, 1, Hash(t), 1000, 0)];
      && Verify(key, t, 999).Ok?
      && SelectSession(SessionsOf(rows, 1), t, 1001) == Err(Unauthorized(ExpiredRefreshToken))
  {
    var key := Key("secret");
    var t := Jwt(Claims(1, 1, Some(0)), key);
    var rows := [Session(0, 1, Hash(t), 1000, 0)];
    assert SessionsOf(rows, 1) == rows;
    ExpiryReachedAcrossClocks(key, rows, 1, t, 999, 1001);
  }

  /** A token without a token id, such as an access token, or with one this
      service has not handed out yet, never resolves to a session. */
  lemma UnissuedTokenIsRejected(key: Key, rows: seq<Session>, bound: nat, t: Jwt, now: int)
    requires Issued(rows, key, bound)
    requires t.claims.jti.None? || t.claims.jti.value >= bound
    ensures LookUpSession(key, rows, t, now).Err?
  {
    forall x | x in rows ensures x.hashedRefreshToken != Hash(t) {
      assert IssuedFor(x, key, bound);
    }
    ReplayIsRejected(key, rows, t, now);
  }

  /** Deleting another session leaves a token's resolution unchanged: after a
      log-out the user's other sessions can still be used. */
  lemma OtherSessionsStillResolve(key: Key, rows: seq<Session>, id: Id, t: Jwt, now: int)
    requires UniqueDigests(rows)
    requires LookUpSession(key, rows, t, now).Ok? && LookUpSession(key, rows, t, now).value.id != id
    ensures LookUpSession(key, RemoveId(rows, id), t, now) == LookUpSession(key, rows, t, now)
  {
    LookUpSessionSpec(key, rows, t, now);
    ResolvesToUniqueHolder(key, RemoveId(rows, id), t, LookUpSession(key, rows, t, now).value, now);
  }

  /** Adding a session with a new digest leaves a token's resolution unchanged:
      a log-in on another device keeps the earlier sessions usable. */
  lemma EarlierSessionsStillResolve(key: Key, rows: seq<Session>, n: Session, t: Jwt, now: int)
    requires UniqueDigests(rows + [n])
    requires LookUpSession(key, rows, t, now).Ok?
    ensures LookUpSession(key, rows + [n], t, now) == LookUpSession(key, rows, t, now)
  {
    LookUpSessionSpec(key, rows, t, now);
    ResolvesToUniqueHolder(key, rows + [n], t, LookUpSession(key, rows, t, now).value, now);
  }

  // ---------------------------------------------------------------------------
  // The password check of `validateUser`

  /** The three-way decision on the user found by email. */
  function CheckPassword(found: Option<UserModel>, password: string): (r: Result<UserModel>)
    ensures r.Ok? <==> found.Some? && Compare(password, found.value.password)
    ensures r.Ok? ==> r.value == found.value
    ensures r.Err? ==> r.error == Unauthorized(if found.None? then UserNotFound else WrongPassword)
  {
    if found.None? then Err(Unauthorized(UserNotFound))
    else if Compare(password, found.value.password) then Ok(found.value)
    else Err(Unauthorized(WrongPassword))
  }

  /** The table after a refresh: the new row appended, then the consumed row
      deleted, is the old table without the consumed row, plus the new row. */
  lemma RotatedTable(before: seq<Session>, s: Session, n: Session)
    requires IdsDistinct(before) && s in before && n.id != s.id
    ensures RemoveId(before + [n], s.id) == RemoveId(before, s.id) + [n]
    ensures |RemoveId(before + [n], s.id)| == |before|
  {
    RemoveIdAppend(before, [n], s.id);
    assert RemoveId([n], s.id) == [n];
    RemoveIdCount(before, s.id);
  }

  // ---------------------------------------------------------------------------
  // Rotation as written

  /** The table and the new refresh token after a rotation. */
  datatype Rotation = Rotation(rows: seq<Session>, refreshToken: Jwt)

  /** `refreshToken(token)` as the source writes it: the new refresh token is
      `sign({ sub })` with no token id, so it is fixed by the subject and the
      second it is signed in. */
  function RefreshAsWritten(key: Key, rows: seq<Session>, nextId: Id, t: Jwt, now: int): (r: Result<Rotation>)
    ensures r.Err? <==> LookUpSession(key, rows, t, now).Err?
    ensures r.Ok? ==> r.value.refreshToken == Sign(key, t.claims.sub, RefreshTokenLifetime, now, None)
  {
    var found := LookUpSession(key, rows, t, now);
    if found.Err? then Err(found.error)
    else
      LookUpSessionSpec(key, rows, t, now);
      var s := found.value;
      var reissued := Sign(key, s.userId, RefreshTokenLifetime, now, None);
      Ok(Rotation(RemoveId(rows + [Session(nextId, s.userId, Hash(reissued), reissued.claims.exp * 1000, now)], s.id), reissued))
  }

  /** As written, a refresh within the second the token was signed in hands
      back the very same token, and the consumed token still resolves. */
  lemma {:induction false} SameSecondRefreshReissues(key: Key, rows: seq<Session>, nextId: Id, signedAt: int, now: int, u: Id)
    requires UniqueDigests(rows) && forall x :: x in rows ==> x.id != nextId
    requires Seconds(signedAt) == Seconds(now)
    requires LookUpSession(key, rows, Sign(key, u, RefreshTokenLifetime, signedAt, None), now).Ok?
    ensures var t := Sign(key, u, RefreshTokenLifetime, signedAt, None);
      var r := RefreshAsWritten(key, rows, nextId, t, now);
      && r.Ok? && r.value.refreshToken == t
      && LookUpSession(key, r.value.rows, t, now).Ok?
  {
    var t := Sign(key, u, RefreshTokenLifetime, signedAt, None);
    LookUpSessionSpec(key, rows, t, now);
    var s := LookUpSession(key, rows, t, now).value;
    var n := Session(nextId, s.userId, Hash(t), t.claims.exp * 1000, now);
    var after := RemoveId(rows + [n], s.id);
    assert n in after;
    forall x | x in after && x.hashedRefreshToken == Hash(t) ensures x == n {
      assert x in rows + [n];
    }
    ResolvesToUniqueHolder(key, after, t, n, now);
  }

  /** A concrete case: a token signed at 1000 ms is refreshed at 1500 ms. */
  lemma SameSecondRefreshExample()
    ensures var key := Key("secret");
      var t := Sign(key, 1, RefreshTokenLifetime, 1000, None);
      var rows := [Session(0, 1, Hash(t), t.claims.exp * 1000, 1000)];
      var r := RefreshAsWritten(key, rows, 1, t, 1500);
      r.Ok? && r.value.refreshToken == t && LookUpSession(key, r.value.rows, t, 1500).Ok?
  {
    var key := Key("secret");
    var t := Sign(key, 1, RefreshTokenLifetime, 1000, None);
    var rows := [Session(0, 1, Hash(t), t.claims.exp * 1000, 1000)];
    ResolvesToUniqueHolder(key, rows, t, rows[0], 1500);
    SameSecondRefreshReissues(key, rows, 1, 1000, 1500, 1);
  }

  // ---------------------------------------------------------------------------
  // Lookup as written, with bcrypt's 72-byte truncation

  /** The first session whose digest the truncated `compare` accepts. */
  function FirstTruncatedMatch(sessions: seq<Session>, token: Jwt): (r: Option<nat>)
    ensures r.Some? ==> r.value < |sessions| && CompareTruncated(token, sessions[r.value].hashedRefreshToken)
    ensures r.Some? ==> forall j :: 0 <= j < r.value ==> !CompareTruncated(token, sessions[j].hashedRefreshToken)
    ensures r.None? ==> forall j :: 0 <= j < |sessions| ==> !CompareTruncated(token, sessions[j].hashedRefreshToken)
  {
    if sessions == [] then None
    else if CompareTruncated(token, sessions[0].hashedRefreshToken) then Some(0)
    else match FirstTruncatedMatch(sessions[1..], token)
      case None => None
      case Some(k) => Some(k + 1)
  }

  /** `findUserSessionByToken(token)` with the truncated `compare`. */
  function LookUpTruncated(key: Key, rows: seq<Session>, t: Jwt, now: int): Result<Session>
  {
    match Verify(key, t, now)
    case Err(e) => Err(e)
    case Ok(claims) =>
      var sessions := SessionsOf(rows, claims.sub);
      match FirstTruncatedMatch(sessions, t)
      case None => Err(Unauthorized(InvalidRefreshToken))
      case Some(k) =>
        if Expired(sessions[k], now) then Err(Unauthorized(ExpiredRefreshToken))
        else Ok(sessions[k])
  }

  /** Every row holds the digest of a token naming the row's user, as every
      row `logIn` stores does, with or without a token id. */
  ghost predicate NamesRowUser(rows: seq<Session>)
  {
    forall s :: s in rows ==> s.hashedRefreshToken.secret.claims.sub == s.userId
  }

  /** With the truncated `compare`, any token `verify` accepts resolves to the
      first session of its subject whenever that session is unexpired, whether
      or not a row holds its digest: a refresh token consumed by `logOut` or
      `refreshToken` resolves again while its user's first session is
      unexpired. */
  lemma TruncatedLookUpAcceptsReplay(key: Key, rows: seq<Session>, t: Jwt, now: int)
    requires NamesRowUser(rows)
    requires Verify(key, t, now).Ok?
    requires SessionsOf(rows, t.claims.sub) != [] && !Expired(SessionsOf(rows, t.claims.sub)[0], now)
    ensures LookUpTruncated(key, rows, t, now) == Ok(SessionsOf(rows, t.claims.sub)[0])
    ensures (forall x :: x in rows ==> x.hashedRefreshToken != Hash(t)) ==>
      LookUpSession(key, rows, t, now) == Err(Unauthorized(InvalidRefreshToken))
  {
    var first := SessionsOf(rows, t.claims.sub)[0];
    assert first in SessionsOf(rows, t.claims.sub);
    if forall x :: x in rows ==> x.hashedRefreshToken != Hash(t) {
      ReplayIsRejected(key, rows, t, now);
    }
  }

  /** A concrete case with the source's tokens (no token id): user 1's
      refresh token signed at 1000 ms is rotated at 5000 ms; at 6000 ms the
      consumed token is refused by the whole-token lookup and accepted by the
      truncated one. */
  lemma TruncatedReplayExample()
    ensures var key := Key("secret");
      var consumed := Sign(key, 1, RefreshTokenLifetime, 1000, None);
      var current := Sign(key, 1, RefreshTokenLifetime, 5000, None);
      var rows := [Session(1, 1, Hash(current), current.claims.exp * 1000, 5000)];
      && LookUpSession(key, rows, consumed, 6000) == Err(Unauthorized(InvalidRefreshToken))
      && LookUpTruncated(key, rows, consumed, 6000) == Ok(rows[0])
  {
    var key := Key("secret");
    var consumed := Sign(key, 1, RefreshTokenLifetime, 1000, None);
    var current := Sign(key, 1, RefreshTokenLifetime, 5000, None);
    var rows := [Session(1, 1, Hash(current), current.claims.exp * 1000, 5000)];
    assert SessionsOf(rows, 1) == rows;
    TruncatedLookUpAcceptsReplay(key, rows, consumed, 6000);
  }

  // ---------------------------------------------------------------------------
  // The service

  class AuthService {
    const users: UserService
    const sessions: UserSessionService
    /** The JWT module's secret. */
    const key: Key
    /** The JWT module's default `expiresIn`, in seconds. */
    const accessLifetime: nat
    /** The token id the next refresh token carries. */
    var nextTokenId: nat

    ghost predicate Valid()
      reads this, users.repo, sessions.repo
    {
      && users.repo.Valid()
      && sessions.repo.Valid()
      && Issued(sessions.repo.rows, key, nextTokenId)
      && UniqueDigests(sessions.repo.rows)
    }

    constructor (users: UserService, sessions: UserSessionService, key: Key, accessLifetime: nat)
      requires users.repo.Valid() && sessions.repo.Valid() && sessions.repo.rows == []
      ensures Valid() && nextTokenId == 0
      ensures this.users == users && this.sessions == sessions
      ensures this.key == key && this.accessLifetime == accessLifetime
    {
      this.users := users;
      this.sessions := sessions;
      this.key := key;
      this.accessLifetime := accessLifetime;
      nextTokenId := 0;
    }

    /** `logIn(userId)`: signs an access token and a 30-day refresh token for
        the user and adds exactly one session for the refresh token, expiring
        when it does; every earlier session stays, and the new refresh token
        resolves to the new session. */
    method LogIn(userId: Id, now: int) returns (tokens: AuthTokens)
      requires Valid()
      modifies this, sessions.repo
      ensures Valid()
      ensures tokens.accessToken == Sign(key, userId, accessLifetime, now, None)
      ensures tokens.refreshToken == Sign(key, userId, RefreshTokenLifetime, now, Some(old(nextTokenId)))
      ensures nextTokenId == old(nextTokenId) + 1 && sessions.repo.nextId == old(sessions.repo.nextId) + 1
      ensures sessions.repo.rows == old(sessions.repo.rows) +
        [Session(old(sessions.repo.nextId), userId, Hash(tokens.refreshToken), tokens.refreshToken.claims.exp * 1000, now)]
      ensures forall x :: x in old(sessions.repo.rows) ==> x.hashedRefreshToken != Hash(tokens.refreshToken)
      ensures LookUpSession(key, sessions.repo.rows, tokens.refreshToken, now) ==
        Ok(sessions.repo.rows[|sessions.repo.rows| - 1])
    {
      var accessToken := Sign(key, userId, accessLifetime, now, None);
      var refreshToken := Sign(key, userId, RefreshTokenLifetime, now, Some(nextTokenId));
      var expiresAt := Decode(refreshToken).exp * 1000;
      var s := sessions.CreateSession(CreateSessionCommand(userId, refreshToken, expiresAt), now);
      IssueKeepsInvariant(old(sessions.repo.rows), s, key, nextTokenId);
      ResolvesToUniqueHolder(key, sessions.repo.rows, refreshToken, s, now);
      nextTokenId := nextTokenId + 1;
      tokens := AuthTokens(accessToken, refreshToken);
    }

    /** `findUserSessionByToken(token)`: reads only. */
    method FindUserSessionByToken(refreshToken: Jwt, now: int) returns (r: Result<Session>)
      ensures r == LookUpSession(key, sessions.repo.rows, refreshToken, now)
    {
      var claims := Verify(key, refreshToken, now);
      if claims.Err? {
        return Err(claims.error);
      }
      r := sessions.FindSessionByToken(claims.value.sub, refreshToken, now);
    }

    /** `logOut(token)`: a token that does not resolve changes nothing and
        fails as the lookup did; otherwise exactly the session it resolves to
        is deleted, and no row holds the token's digest any more. */
    method LogOut(refreshToken: Jwt, now: int) returns (r: Result<()>)
      requires Valid()
      modifies sessions.repo
      ensures Valid()
      ensures r.Err? <==> LookUpSession(key, old(sessions.repo.rows), refreshToken, now).Err?
      ensures r.Err? ==> r.error == LookUpSession(key, old(sessions.repo.rows), refreshToken, now).error
      ensures r.Err? ==> sessions.repo.rows == old(sessions.repo.rows)
      ensures r.Ok? ==>
        sessions.repo.rows == RemoveId(old(sessions.repo.rows), LookUpSession(key, old(sessions.repo.rows), refreshToken, now).value.id)
      ensures r.Ok? ==> |sessions.repo.rows| == |old(sessions.repo.rows)| - 1
      ensures r.Ok? ==> forall x :: x in sessions.repo.rows ==> x.hashedRefreshToken != Hash(refreshToken)
      ensures r.Ok? ==> forall later :: LookUpSession(key, sessions.repo.rows, refreshToken, later).Err?
    {
      var found := FindUserSessionByToken(refreshToken, now);
      if found.Err? {
        return Err(found.error);
      }
      LookUpSessionSpec(key, sessions.repo.rows, refreshToken, now);
      var del := sessions.DeleteSession(found.value.id);
      if del.Err? {
        assert false;
      }
      forall later ensures LookUpSession(key, sessions.repo.rows, refreshToken, later).Err? {
        ReplayIsRejected(key, sessions.repo.rows, refreshToken, later);
      }
      r := Ok(());
    }

    /** `refreshToken(token)`: a token that does not resolve changes nothing
        and fails as the lookup did; otherwise a log-in for the session's user,
        then the deletion of the consumed session. Afterwards no row holds the
        consumed token's digest, and the new refresh token resolves. */
    method RefreshToken(refreshToken: Jwt, now: int) returns (r: Result<AuthTokens>)
      requires Valid()
      modifies this, sessions.repo
      ensures Valid()
      ensures r.Err? <==> LookUpSession(key, old(sessions.repo.rows), refreshToken, now).Err?
      ensures r.Err? ==> r.error == LookUpSession(key, old(sessions.repo.rows), refreshToken, now).error
      ensures r.Err? ==> sessions.repo.rows == old(sessions.repo.rows) && nextTokenId == old(nextTokenId)
      ensures r.Ok? ==>
        var s := LookUpSession(key, old(sessions.repo.rows), refreshToken, now).value;
        && s.userId == refreshToken.claims.sub
        && r.value.accessToken == Sign(key, s.userId, accessLifetime, now, None)
        && r.value.refreshToken == Sign(key, s.userId, RefreshTokenLifetime, now, Some(old(nextTokenId)))
        && sessions.repo.rows == RemoveId(old(sessions.repo.rows), s.id) +
             [Session(old(sessions.repo.nextId), s.userId, Hash(r.value.refreshToken),
                      r.value.refreshToken.claims.exp * 1000, now)]
      ensures r.Ok? ==> |sessions.repo.rows| == |old(sessions.repo.rows)|
      ensures r.Ok? ==> forall x :: x in sessions.repo.rows ==> x.hashedRefreshToken != Hash(refreshToken)
      ensures r.Ok? ==> forall later :: LookUpSession(key, sessions.repo.rows, refreshToken, later).Err?
      ensures r.Ok? ==>
        LookUpSession(key, sessions.repo.rows, r.value.refreshToken, now) == Ok(sessions.repo.rows[|sessions.repo.rows| - 1])
    {
      var found := FindUserSessionByToken(refreshToken, now);
      if found.Err? {
        return Err(found.error);
      }
      ghost var before := sessions.repo.rows;
      LookUpSessionSpec(key, before, refreshToken, now);
      var s := found.value;
      assert IssuedFor(s, key, nextTokenId);
      var tokens := LogIn(s.userId, now);
      ghost var n := sessions.repo.rows[|sessions.repo.rows| - 1];
      assert sessions.repo.rows == before + [n];
      var del := sessions.DeleteSession(s.id);
      if del.Err? {
        assert false;
      }
      RotatedTable(before, s, n);
      ResolvesToUniqueHolder(key, sessions.repo.rows, tokens.refreshToken, n, now);
      forall later ensures LookUpSession(key, sessions.repo.rows, refreshToken, later).Err? {
        ReplayIsRejected(key, sessions.repo.rows, refreshToken, later);
      }
      r := Ok(tokens);
    }

    /** `signUp(data)`: `createUser`, then, only if it succeeded, `logIn` for
        the new user; a failed sign-up adds no session. */
    method SignUp(data: NewUser<string>, now: int) returns (r: Result<SignedUp>)
      requires Valid()
      modifies this, users.repo, sessions.repo
      ensures Valid()
      ensures EmailTaken(old(users.repo.rows), data.email, None) ==>
        r == Err(Conflict(EmailInUse)) && users.repo.rows == old(users.repo.rows)
      ensures !EmailTaken(old(users.repo.rows), data.email, None) ==>
        users.repo.rows == old(users.repo.rows) +
          [CreatedRow(old(users.repo.nextId), HashedNewUser(data), users.repo.defaultTheme, now)]
      ensures !EmailTaken(old(users.repo.rows), data.email, None) &&
              ToDomain(CreatedRow(old(users.repo.nextId), HashedNewUser(data), users.repo.defaultTheme, now)).Ok? ==>
        r.Ok?
      ensures r.Err? ==> sessions.repo.rows == old(sessions.repo.rows) && nextTokenId == old(nextTokenId)
      ensures r.Ok? ==>
        Ok(r.value.user) == ToDomain(CreatedRow(old(users.repo.nextId), HashedNewUser(data), users.repo.defaultTheme, now))
      ensures r.Ok? ==>
        var u := r.value.user;
        && u.id == old(users.repo.nextId) && u.email == data.email && Compare(data.password, u.password)
        && r.value.tokens.accessToken == Sign(key, u.id, accessLifetime, now, None)
        && r.value.tokens.refreshToken == Sign(key, u.id, RefreshTokenLifetime, now, Some(old(nextTokenId)))
        && sessions.repo.rows == old(sessions.repo.rows) +
             [Session(old(sessions.repo.nextId), u.id, Hash(r.value.tokens.refreshToken),
                      r.value.tokens.refreshToken.claims.exp * 1000, now)]
      ensures r.Ok? ==>
        LookUpSession(key, sessions.repo.rows, r.value.tokens.refreshToken, now) ==
          Ok(sessions.repo.rows[|sessions.repo.rows| - 1])
    {
      var user := users.CreateUser(data, now);
      if user.Err? {
        return Err(user.error);
      }
      var tokens := LogIn(user.value.id, now);
      r := Ok(SignedUp(tokens, user.value));
    }

    /** `validateUser(email, password)`: the active user with that email when
        the password matches its digest; "User not found" when there is none,
        "Wrong password" when it does not match. Reads only. */
    method ValidateUser(email: string, password: string) returns (r: Result<UserModel>)
      ensures r == Err(Unauthorized(UserNotFound)) <==>
        FindOne(users.repo.rows, WithActiveFilter(ByEmail(email))) == Ok(None)
      ensures r == Err(Unauthorized(WrongPassword)) <==>
        var f := FindOne(users.repo.rows, WithActiveFilter(ByEmail(email)));
        f.Ok? && f.value.Some? && !Compare(password, f.value.value.password)
      ensures r.Ok? ==> FindOne(users.repo.rows, WithActiveFilter(ByEmail(email))) == Ok(Some(r.value))
      ensures r.Ok? ==> r.value.email == email && r.value.deletedAt.None? && Compare(password, r.value.password)
    {
      var found := users.FindUserByEmail(email);
      if found.Err? {
        return Err(found.error);
      }
      r := CheckPassword(found.value, password);
    }
  }
}
