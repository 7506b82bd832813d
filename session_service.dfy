/** `UserSessionService`: hashes refresh tokens before they reach the table,
    checks existence before deleting, and resolves a raw refresh token to one
    of the user's sessions. */
module SessionService {
  import opened Common
  import opened Crypto
  import opened SessionTable
  import opened SessionRepository

  /** `CreateUserSessionCommand`: carries the raw refresh token. */
  datatype CreateSessionCommand = CreateSessionCommand(userId: Id, refreshToken: Jwt, expiresAt: int)

  /** The row `createSession` asks the repository to store: the token is
      replaced by its digest, the other fields are passed through. */
  function SessionData(cmd: CreateSessionCommand): (d: NewSession)
    ensures d.userId == cmd.userId && d.expiresAt == cmd.expiresAt
    ensures Compare(cmd.refreshToken, d.hashedRefreshToken)
    ensures forall other: Jwt :: Compare(other, d.hashedRefreshToken) ==> other == cmd.refreshToken
  {
    NewSession(cmd.userId, Hash(cmd.refreshToken), cmd.expiresAt)
  }

  class UserSessionService {
    const repo: UserSessionRepository

    constructor (repo: UserSessionRepository)
      ensures this.repo == repo
    {
      this.repo := repo;
    }

    /** `createSession(dto)`: stores exactly one new row holding
        `Hash(refreshToken)` and the given user and expiry. */
    method CreateSession(cmd: CreateSessionCommand, now: int) returns (s: Session)
      requires repo.Valid()
      modifies repo
      ensures repo.Valid()
      ensures s.userId == cmd.userId && s.expiresAt == cmd.expiresAt && s.createdAt == now
      ensures s.hashedRefreshToken == Hash(cmd.refreshToken)
      ensures s.id == old(repo.nextId) && repo.nextId == old(repo.nextId) + 1
      ensures repo.rows == old(repo.rows) + [s]
    {
      var hashed := SessionData(cmd);
      s := repo.Create(hashed, now);
    }

    /** `deleteExpiredSessions()`: exactly the repository's purge and its count. */
    method DeleteExpiredSessions(now: int) returns (count: nat)
      requires repo.Valid()
      modifies repo
      ensures repo.Valid() && repo.nextId == old(repo.nextId)
      ensures repo.rows == Unexpired(old(repo.rows), now)
      ensures count == |ExpiredRows(old(repo.rows), now)|
    {
      count := repo.DeleteExpiredSessions(now);
    }

    /** `deleteSession(id)`: NotFound and no change when the id is absent;
        otherwise removes exactly that row and returns it as it was. */
    method DeleteSession(id: Id) returns (r: Result<Session>)
      requires repo.Valid()
      modifies repo
      ensures repo.Valid() && repo.nextId == old(repo.nextId)
      ensures r.Err? <==> forall s :: s in old(repo.rows) ==> s.id != id
      ensures r.Err? ==> r.error == NotFound("User session", id) && repo.rows == old(repo.rows)
      ensures r.Ok? ==> r.value in old(repo.rows) && r.value.id == id
      ensures r.Ok? ==> repo.rows == RemoveId(old(repo.rows), id)
      ensures r.Ok? ==> |repo.rows| == |old(repo.rows)| - 1
    {
      var found := repo.FindOneById(id);
      if found.None? {
        return Err(NotFound("User session", id));
      }
      RemoveIdCount(repo.rows, id);
      repo.Delete(id);
      r := Ok(found.value);
    }

    /** `findSessionByToken(userId, refreshToken)`: reads only; among the
        user's sessions, in list order, the first whose digest matches,
        rejected when `expiresAt < now`. */
    method FindSessionByToken(userId: Id, refreshToken: Jwt, now: int) returns (r: Result<Session>)
      ensures r == SelectSession(SessionsOf(repo.rows, userId), refreshToken, now)
      ensures r.Ok? ==> r.value in repo.rows && r.value.userId == userId
      ensures r.Ok? ==> Compare(refreshToken, r.value.hashedRefreshToken) && r.value.expiresAt >= now
      ensures r == Err(Unauthorized(InvalidRefreshToken)) <==>
        forall s :: s in repo.rows && s.userId == userId ==> s.hashedRefreshToken != Hash(refreshToken)
    {
      var sessions := repo.FindByUserId(userId);
      SelectSessionSpec(sessions, refreshToken, now);
      r := SelectSession(sessions, refreshToken, now);
    }
  }
}
