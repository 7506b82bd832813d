/** `UserRepository`: the user table, updated in place. Every lookup adds the
    active-only filter; deletion is soft (it stamps `deletedAt`). */
module UserStore {
  import opened Common
  import opened Crypto
  import opened UserTable

  /** `CreateUserData`, with the password type `P`. */
  datatype NewUser<P> = NewUser(email: string, password: P, name: string, lastName: string)

  /** Some row other than `except` already holds `email` (the unique index on
      `email` covers soft-deleted rows too). */
  predicate EmailTaken(rows: seq<UserRow>, email: string, except: Option<Id>)
  {
    exists row :: row in rows && row.email == email && (except.None? || row.id != except.value)
  }

  const EmailViolation := Database(UniqueViolation(Some(Fields(["email"]))))

  /** The row `create` inserts: the given fields, no birthday or country, the
      schema's default theme, `createdAt = now`, not deleted. */
  function CreatedRow(id: Id, data: NewUser<Digest<string>>, theme: string, now: int): UserRow
  {
    UserRow(id, data.email, data.password, data.name, data.lastName, None, None, theme, now, None)
  }

  /** `where: { deletedAt: null, id }` of `softDelete`. */
  function ActiveById(id: Id): UserWhere
  {
    UserWhere(Some(id), None, None, None, true)
  }

  /** `findFirst({ where })` followed by `toDomain`. */
  function FindOne(rows: seq<UserRow>, w: UserWhere): (r: Result<Option<UserModel>>)
    ensures r == Ok(None) <==> forall row :: row in rows ==> !Matches(row, w)
    ensures r.Err? ==> exists row :: row in rows && Matches(row, w) && ToDomain(row).Err?
    ensures r.Ok? && r.value.Some? ==>
      exists row :: row in rows && Matches(row, w) && ToDomain(row) == Ok(r.value.value)
  {
    match FirstIndex(rows, w)
    case None => Ok(None)
    case Some(k) =>
      assert rows[k] in rows;
      var m :- ToDomain(rows[k]);
      Ok(Some(m))
  }

  class UserRepository {
    /** The table's rows, in insertion order. */
    var rows: seq<UserRow>
    /** The id the next created row receives (stands for a generated uuid). */
    var nextId: Id
    /** The theme the schema gives a new row. */
    const defaultTheme: string

    ghost predicate Valid()
      reads this
    {
      && (forall i, j :: 0 <= i < j < |rows| ==> rows[i].id != rows[j].id && rows[i].email != rows[j].email)
      && (forall i :: 0 <= i < |rows| ==> rows[i].id < nextId)
    }

    constructor (defaultTheme: string)
      ensures Valid() && rows == [] && nextId == 0 && this.defaultTheme == defaultTheme
    {
      rows := [];
      nextId := 0;
      this.defaultTheme := defaultTheme;
    }

    /** `create(data)`: a unique violation on `email` when the email is taken,
        leaving the table alone; otherwise one new row with a fresh id. */
    method Create(data: NewUser<Digest<string>>, now: int) returns (r: Result<UserModel>)
      requires Valid()
      modifies this
      ensures Valid()
      ensures EmailTaken(old(rows), data.email, None) ==>
        r == Err(EmailViolation) && rows == old(rows) && nextId == old(nextId)
      ensures !EmailTaken(old(rows), data.email, None) ==>
        && rows == old(rows) + [CreatedRow(old(nextId), data, defaultTheme, now)]
        && nextId == old(nextId) + 1
        && r == ToDomain(CreatedRow(old(nextId), data, defaultTheme, now))
    {
      if EmailTaken(rows, data.email, None) {
        return Err(EmailViolation);
      }
      var row := CreatedRow(nextId, data, defaultTheme, now);
      rows := rows + [row];
      nextId := nextId + 1;
      r := ToDomain(row);
    }

    /** `find(filter)`: active users only, filtered and, with a search, ordered by name. */
    method Find(filter: UserFilter) returns (r: Result<seq<UserModel>>)
      ensures r == UserTable.Find(rows, filter)
      ensures r.Ok? ==> forall m :: m in r.value ==> m.deletedAt.None?
    {
      r := UserTable.Find(rows, filter);
      if r.Ok? {
        FindRowsSpec(rows, filter);
        forall m | m in r.value ensures m.deletedAt.None? {
          var i :| 0 <= i < |r.value| && r.value[i] == m;
          assert FindRows(rows, filter)[i] in FindRows(rows, filter);
        }
      }
    }

    /** `findOneByEmail(email)`: the active user with that email, or null. */
    method FindOneByEmail(email: string) returns (r: Result<Option<UserModel>>)
      ensures r == FindOne(rows, WithActiveFilter(ByEmail(email)))
      ensures r == Ok(None) <==> forall row :: row in rows ==> !(row.email == email && Active(row))
      ensures r.Ok? && r.value.Some? ==> r.value.value.email == email && r.value.value.deletedAt.None?
    {
      r := FindOne(rows, WithActiveFilter(ByEmail(email)));
    }

    /** `findOneById(id)`: the active user with that id, or null. */
    method FindOneById(id: Id) returns (r: Result<Option<UserModel>>)
      ensures r == FindOne(rows, WithActiveFilter(ById(id)))
      ensures r == Ok(None) <==> forall row :: row in rows ==> !(row.id == id && Active(row))
      ensures r.Ok? && r.value.Some? ==> r.value.value.id == id && r.value.value.deletedAt.None?
    {
      r := FindOne(rows, WithActiveFilter(ById(id)));
    }

    /** `softDelete(id)`: stamps `deletedAt = now` on the active row with that
        id and changes nothing else; no such row is the update's not-found error. */
    method SoftDelete(id: Id, now: int) returns (r: Result<UserModel>)
      requires Valid()
      modifies this
      ensures Valid() && nextId == old(nextId)
      ensures FirstIndex(old(rows), ActiveById(id)).None? ==>
        r == Err(Database(RecordNotFound)) && rows == old(rows)
      ensures FirstIndex(old(rows), ActiveById(id)).Some? ==>
        var k := FirstIndex(old(rows), ActiveById(id)).value;
        && old(rows)[k].id == id && Active(old(rows)[k])
        && rows == old(rows)[k := old(rows)[k].(deletedAt := Some(now))]
        && r == ToDomain(rows[k])
    {
      var k := FirstIndex(rows, ActiveById(id));
      if k.None? {
        return Err(Database(RecordNotFound));
      }
      var row := rows[k.value].(deletedAt := Some(now));
      rows := rows[k.value := row];
      r := ToDomain(row);
    }

    /** `updateOne(id, data)`: an unparsable birthday or a missing row changes
        nothing; an email held by another row is a unique violation; otherwise
        the row with that id gets the given fields and keeps the rest. */
    method UpdateOne(id: Id, data: UserUpdate<Digest<string>>) returns (r: Result<UserModel>)
      requires Valid()
      modifies this
      ensures Valid() && nextId == old(nextId)
      ensures ToRowPatch(data).Err? ==> r == Err(Database(InvalidDate)) && rows == old(rows)
      ensures ToRowPatch(data).Ok? && FirstIndex(old(rows), ById(id)).None? ==>
        r == Err(Database(RecordNotFound)) && rows == old(rows)
      ensures ToRowPatch(data).Ok? && FirstIndex(old(rows), ById(id)).Some? &&
              data.email.Some? && EmailTaken(old(rows), data.email.value, Some(id)) ==>
        r == Err(EmailViolation) && rows == old(rows)
      ensures ToRowPatch(data).Ok? && FirstIndex(old(rows), ById(id)).Some? &&
              !(data.email.Some? && EmailTaken(old(rows), data.email.value, Some(id))) ==>
        var k := FirstIndex(old(rows), ById(id)).value;
        && old(rows)[k].id == id
        && rows == old(rows)[k := ApplyPatch(old(rows)[k], ToRowPatch(data).value)]
        && r == ToDomain(rows[k])
    {
      var patch := ToRowPatch(data);
      if patch.Err? {
        return Err(patch.error);
      }
      var k := FirstIndex(rows, ById(id));
      if k.None? {
        return Err(Database(RecordNotFound));
      }
      if data.email.Some? && EmailTaken(rows, data.email.value, Some(id)) {
        return Err(EmailViolation);
      }
      var row := ApplyPatch(rows[k.value], patch.value);
      ghost var before := rows;
      rows := rows[k.value := row];
      forall i, j | 0 <= i < j < |rows| ensures rows[i].email != rows[j].email {
        if i == k.value || j == k.value {
          var other := if i == k.value then j else i;
          assert before[other] in before && before[other].id != id;
        }
      }
      r := ToDomain(row);
    }
  }
}
