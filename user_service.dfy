/** `UserService`: password hashing, the existence and ownership checks, and
    the translation of unique-constraint errors into Conflict. */
module UserService {
  import opened Common
  import opened Crypto
  import opened UserTable
  import opened UserStore

  const EmailInUse := "This email address is already used"
  const DuplicateUser := "A user with this information already exists"
  const OwnAccountOnly := "You can only delete your own account"

  /** `target?.includes(field)`: membership for a list of fields, substring
      for a constraint name. */
  predicate TargetIncludes(target: Option<ConstraintTarget>, field: string)
  {
    match target
    case None => false
    case Some(Fields(fields)) => field in fields
    case Some(ConstraintName(name)) => Contains(name, field)
  }

  /** The `catch` of `createUser` and `updateUser`. */
  function ConflictFor(e: Error): Error
  {
    if e.Database? && e.cause.UniqueViolation? then
      if TargetIncludes(e.cause.target, "email") then Conflict(EmailInUse) else Conflict(DuplicateUser)
    else e
  }

  /** A unique-constraint error on `email` becomes the email Conflict, any other
      unique-constraint error the generic Conflict, and every other error is
      rethrown unchanged. */
  lemma ConflictForSpec(e: Error)
    ensures ConflictFor(e) == Conflict(EmailInUse) <==>
      (e.Database? && e.cause.UniqueViolation? && TargetIncludes(e.cause.target, "email")) || e == Conflict(EmailInUse)
    ensures e.Database? && e.cause.UniqueViolation? && !TargetIncludes(e.cause.target, "email") ==>
      ConflictFor(e) == Conflict(DuplicateUser)
    ensures !(e.Database? && e.cause.UniqueViolation?) ==> ConflictFor(e) == e
    ensures ConflictFor(EmailViolation) == Conflict(EmailInUse)
  {
  }

  /** `{ ...dto, password: await hash(password, 12) }`. */
  function HashedNewUser(data: NewUser<string>): (d: NewUser<Digest<string>>)
    ensures d.email == data.email && d.name == data.name && d.lastName == data.lastName
    ensures Compare(data.password, d.password)
  {
    NewUser(data.email, Hash(data.password), data.name, data.lastName)
  }

  /** `{ ...input, ...(password && { password: await hash(password, 12) }) }`:
      a non-empty password is hashed, an empty or absent one leaves the key
      out; every other field is passed exactly as given. */
  function HashedUpdate(input: UserUpdate<string>): (d: UserUpdate<Digest<string>>)
    ensures d.password.Some? <==> Truthy(input.password)
    ensures d.password.Some? ==> Compare(input.password.value, d.password.value)
    ensures d.birthday == input.birthday && d.country == input.country && d.email == input.email
    ensures d.lastName == input.lastName && d.name == input.name && d.theme == input.theme
  {
    var password := if Truthy(input.password) then Some(Hash(input.password.value)) else None;
    UserUpdate(input.birthday, input.country, input.email, input.lastName, input.name, password, input.theme)
  }

  /** There is a user with this id that is not soft-deleted. */
  predicate ActiveUser(rows: seq<UserRow>, id: Id)
  {
    exists row :: row in rows && row.id == id && Active(row)
  }

  /** An active user with the id is a row `findFirst` by id reaches. */
  lemma ActiveUserHasIndex(rows: seq<UserRow>, id: Id)
    requires ActiveUser(rows, id)
    ensures FirstIndex(rows, ById(id)).Some?
  {
    var row :| row in rows && row.id == id && Active(row);
    assert Matches(row, ById(id));
  }

  /** With distinct ids, the row `update` by id patches is the active row the
      lookup converted, and a patch with a known theme keeps it convertible. */
  lemma UpdatedRowConverts(rows: seq<UserRow>, id: Id, p: RowPatch)
    requires forall i, j :: 0 <= i < j < |rows| ==> rows[i].id != rows[j].id
    requires FindOne(rows, WithActiveFilter(ById(id))).Ok? && FindOne(rows, WithActiveFilter(ById(id))).value.Some?
    requires p.theme.Some? ==> MapThemeToDomain(p.theme.value).Ok?
    ensures FirstIndex(rows, ById(id)).Some?
    ensures ToDomain(ApplyPatch(rows[FirstIndex(rows, ById(id)).value], p)).Ok?
  {
    var row :| row in rows && Matches(row, WithActiveFilter(ById(id))) && ToDomain(row).Ok?;
    assert Matches(row, ById(id));
    var k := FirstIndex(rows, ById(id)).value;
    var i :| 0 <= i < |rows| && rows[i] == row;
    assert i == k;
  }

  class UserService {
    const repo: UserRepository

    constructor (repo: UserRepository)
      ensures this.repo == repo
    {
      this.repo := repo;
    }

    /** `createUser(data)`: stores the hashed password and the other fields as
        given; a taken email is the email Conflict and adds no row. */
    method CreateUser(data: NewUser<string>, now: int) returns (r: Result<UserModel>)
      requires repo.Valid()
      modifies repo
      ensures repo.Valid()
      ensures EmailTaken(old(repo.rows), data.email, None) ==>
        r == Err(Conflict(EmailInUse)) && repo.rows == old(repo.rows)
      ensures !EmailTaken(old(repo.rows), data.email, None) ==>
        && repo.rows == old(repo.rows) + [CreatedRow(old(repo.nextId), HashedNewUser(data), repo.defaultTheme, now)]
        && r == ToDomain(CreatedRow(old(repo.nextId), HashedNewUser(data), repo.defaultTheme, now))
      ensures r.Ok? ==> r.value.email == data.email && r.value.password == Hash(data.password)
    {
      var created := repo.Create(HashedNewUser(data), now);
      r := if created.Err? then Err(ConflictFor(created.error)) else created;
    }

    /** `deleteUser(id, initiator)`: NotFound when no active user has the id,
        Forbidden when it is not the initiator's own; in both cases nothing is
        soft-deleted. Otherwise that user's row gets `deletedAt = now`. */
    method DeleteUser(id: Id, initiator: UserModel, now: int) returns (r: Result<UserModel>)
      requires repo.Valid()
      modifies repo
      ensures repo.Valid()
      ensures !ActiveUser(old(repo.rows), id) ==>
        r == Err(NotFound("User", id)) && repo.rows == old(repo.rows)
      ensures r.Ok? ==> id == initiator.id && r.value.id == id && r.value.deletedAt == Some(now)
      ensures r == Err(Forbidden(OwnAccountOnly)) ==> id != initiator.id && repo.rows == old(repo.rows)
      ensures ActiveUser(old(repo.rows), id) && id != initiator.id ==> repo.rows == old(repo.rows)
      ensures ActiveUser(old(repo.rows), id) && id != initiator.id &&
              FindOne(old(repo.rows), WithActiveFilter(ById(id))).Ok? ==>
        r == Err(Forbidden(OwnAccountOnly))
      ensures r.Err? ==> repo.rows == old(repo.rows)
      ensures ActiveUser(old(repo.rows), id) && id == initiator.id &&
              FindOne(old(repo.rows), WithActiveFilter(ById(id))).Ok? ==>
        var k := FirstIndex(old(repo.rows), ActiveById(id)).value;
        repo.rows == old(repo.rows)[k := old(repo.rows)[k].(deletedAt := Some(now))]
    {
      var found := repo.FindOneById(id);
      if found.Err? {
        return Err(found.error);
      }
      if found.value.None? {
        return Err(NotFound("User", id));
      }
      var user := found.value.value;
      if user.id != initiator.id {
        return Err(Forbidden(OwnAccountOnly));
      }
      r := repo.SoftDelete(user.id, now);
      if r.Ok? {
        var k := FirstIndex(old(repo.rows), ActiveById(id)).value;
        assert r.value.deletedAt == repo.rows[k].deletedAt;
      }
    }

    /** `findUserByEmail(email)`. */
    method FindUserByEmail(email: string) returns (r: Result<Option<UserModel>>)
      ensures r == FindOne(repo.rows, WithActiveFilter(ByEmail(email)))
    {
      r := repo.FindOneByEmail(email);
    }

    /** `findUserById(id)`. */
    method FindUserById(id: Id) returns (r: Result<Option<UserModel>>)
      ensures r == FindOne(repo.rows, WithActiveFilter(ById(id)))
    {
      r := repo.FindOneById(id);
    }

    /** `findUserByIdOrFail(id)`: the active user with the id, otherwise NotFound. */
    method FindUserByIdOrFail(id: Id) returns (r: Result<UserModel>)
      ensures r == Err(NotFound("User", id)) <==> !ActiveUser(repo.rows, id)
      ensures r.Ok? ==> r.value.id == id && r.value.deletedAt.None?
      ensures r.Ok? ==> exists row :: row in repo.rows && row.id == id && ToDomain(row) == Ok(r.value)
    {
      var found := repo.FindOneById(id);
      if found.Err? {
        return Err(found.error);
      }
      if found.value.None? {
        return Err(NotFound("User", id));
      }
      r := Ok(found.value.value);
    }

    /** `findUsers(filter)`. */
    method FindUsers(filter: UserFilter) returns (r: Result<seq<UserModel>>)
      ensures r == UserTable.Find(repo.rows, filter)
    {
      r := repo.Find(filter);
    }

    /** `updateUser(id, input)`: NotFound and no update when no active user has
        the id; otherwise the repository update with a hashed password (only
        when given), its unique-constraint errors turned into Conflict. */
    method UpdateUser(id: Id, input: UserUpdate<string>) returns (r: Result<UserModel>)
      requires repo.Valid()
      modifies repo
      ensures repo.Valid()
      ensures !ActiveUser(old(repo.rows), id) ==>
        r == Err(NotFound("User", id)) && repo.rows == old(repo.rows)
      ensures ActiveUser(old(repo.rows), id) && FindOne(old(repo.rows), WithActiveFilter(ById(id))).Ok? &&
              ToRowPatch(HashedUpdate(input)).Ok? &&
              input.email.Some? && EmailTaken(old(repo.rows), input.email.value, Some(id)) ==>
        r == Err(Conflict(EmailInUse)) && repo.rows == old(repo.rows)
      ensures ToRowPatch(HashedUpdate(input)).Err? ==> r.Err? && repo.rows == old(repo.rows)
      ensures r.Err? ==> repo.rows == old(repo.rows)
      ensures ActiveUser(old(repo.rows), id) && FindOne(old(repo.rows), WithActiveFilter(ById(id))).Ok? &&
              ToRowPatch(HashedUpdate(input)).Ok? &&
              !(input.email.Some? && EmailTaken(old(repo.rows), input.email.value, Some(id))) ==>
        r.Ok?
      ensures r.Ok? ==> FirstIndex(old(repo.rows), ById(id)).Some? && ToRowPatch(HashedUpdate(input)).Ok?
      ensures r.Ok? ==>
        var k := FirstIndex(old(repo.rows), ById(id)).value;
        && repo.rows == old(repo.rows)[k := ApplyPatch(old(repo.rows)[k], ToRowPatch(HashedUpdate(input)).value)]
        && r == ToDomain(repo.rows[k])
    {
      var found := repo.FindOneById(id);
      if found.Err? {
        return Err(found.error);
      }
      if found.value.None? {
        return Err(NotFound("User", id));
      }
      var user := found.value.value;
      ghost var before := repo.rows;
      ActiveUserHasIndex(before, id);
      var patch := ToRowPatch(HashedUpdate(input));
      if patch.Ok? {
        UpdatedRowConverts(before, id, patch.value);
      }
      var updated := repo.UpdateOne(user.id, HashedUpdate(input));
      if updated.Err? {
        ConflictForSpec(updated.error);
        r := Err(ConflictFor(updated.error));
      } else {
        r := updated;
      }
    }
  }
}
