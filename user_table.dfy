/** The rows of the `user` table, their mapping to the domain `UserModel`, and
    the pure parts of `UserRepository`: the `where` filters (with the
    active-only filter added to every lookup), the case-insensitive name
    search, the ordering by name, and the field-by-field update. */
module UserTable {
  import opened Common
  import opened Crypto
  import opened Dates

  /** `UserTheme` of the domain. */
  datatype Theme = Dark | Light

  /** A row as Prisma returns it; `theme` is the database enum's value. */
  datatype UserRow = UserRow(
    id: Id, email: string, password: Digest<string>, name: string, lastName: string,
    birthday: Option<DateTime>, country: Option<string>, theme: string,
    createdAt: int, deletedAt: Option<int>)

  /** `UserModel`: the birthday as a `YYYY-MM-DD` string, the theme as the domain enum. */
  datatype UserModel = UserModel(
    id: Id, email: string, password: Digest<string>, name: string, lastName: string,
    birthday: Option<string>, country: Option<string>, theme: Theme,
    createdAt: int, deletedAt: Option<int>)

  /** JavaScript truthiness of an optional string: present and non-empty. */
  predicate Truthy(s: Option<string>)
  {
    s.Some? && s.value != ""
  }

  // ---------------------------------------------------------------------------
  // toDomain

  /** The database spelling of a domain theme. */
  function StoredTheme(t: Theme): string
  {
    match t
    case Dark => "dark"
    case Light => "light"
  }

  /** `mapThemeToDomain`. */
  function MapThemeToDomain(theme: string): (r: Result<Theme>)
  {
    if theme == "dark" then Ok(Dark)
    else if theme == "light" then Ok(Light)
    else Err(UnknownTheme(theme))
  }

  /** `mapThemeToDomain` inverts the stored spelling and fails on every other value. */
  lemma MapThemeToDomainSpec(theme: string)
    ensures MapThemeToDomain(theme).Ok? <==> theme == "dark" || theme == "light"
    ensures MapThemeToDomain(theme).Ok? ==> StoredTheme(MapThemeToDomain(theme).value) == theme
    ensures MapThemeToDomain(theme).Err? ==> MapThemeToDomain(theme).error == UnknownTheme(theme)
    ensures forall t :: MapThemeToDomain(StoredTheme(t)) == Ok(t)
  {
  }

  /** `birthday?.toISOString().split('T')[0] || null`. */
  function BirthdayText(b: Option<DateTime>): (r: Option<string>)
    ensures b.None? <==> r.None?
    ensures b.Some? ==> r == Some(FormatDate(b.value.date))
  {
    match b
    case None => None
    case Some(dt) =>
      IsoDatePart(dt);
      var part := SplitFirst(ToIsoString(dt), 'T');
      if part == "" then None else Some(part)
  }

  /** `toDomain`: fails only on an unknown theme; otherwise every field is
      carried over and the birthday is rendered as its date part. */
  function ToDomain(row: UserRow): (r: Result<UserModel>)
    ensures r.Ok? <==> MapThemeToDomain(row.theme).Ok?
    ensures r.Err? ==> r.error == UnknownTheme(row.theme)
    ensures r.Ok? ==> var m := r.value;
      && m.id == row.id && m.email == row.email && m.password == row.password
      && m.name == row.name && m.lastName == row.lastName && m.country == row.country
      && m.createdAt == row.createdAt && m.deletedAt == row.deletedAt
      && StoredTheme(m.theme) == row.theme
      && m.birthday == (if row.birthday.Some? then Some(FormatDate(row.birthday.value.date)) else None)
  {
    var theme :- MapThemeToDomain(row.theme);
    Ok(UserModel(row.id, row.email, row.password, row.name, row.lastName,
                 BirthdayText(row.birthday), row.country, theme, row.createdAt, row.deletedAt))
  }

  /** `users.map(toDomain)`: fails if any row fails. */
  function ToDomainAll(rows: seq<UserRow>): (r: Result<seq<UserModel>>)
    ensures r.Ok? <==> forall i :: 0 <= i < |rows| ==> ToDomain(rows[i]).Ok?
    ensures r.Ok? ==> |r.value| == |rows| && forall i :: 0 <= i < |rows| ==> r.value[i] == ToDomain(rows[i]).value
  {
    if rows == [] then Ok([])
    else
      var head :- ToDomain(rows[0]);
      var tail :- ToDomainAll(rows[1..]);
      Ok([head] + tail)
  }

  // ---------------------------------------------------------------------------
  // Case-insensitive search (`contains` with `mode: 'insensitive'`)

  function Lower(c: char): char
  {
    if 'A' <= c <= 'Z' then (c as int + 32) as char else c
  }

  function LowerStr(s: string): (r: string)
    ensures |r| == |s| && forall i :: 0 <= i < |s| ==> r[i] == Lower(s[i])
  {
    if s == [] then [] else [Lower(s[0])] + LowerStr(s[1..])
  }

  predicate IsPrefix(t: string, s: string)
  {
    |t| <= |s| && s[..|t|] == t
  }

  /** `s` contains `t` as a contiguous substring. */
  predicate Contains(s: string, t: string)
    decreases |s|
  {
    IsPrefix(t, s) || (s != [] && Contains(s[1..], t))
  }

  lemma {:induction false} ContainsSpec(s: string, t: string)
    ensures Contains(s, t) <==> exists i :: 0 <= i <= |s| && IsPrefix(t, s[i..])
    decreases |s|
  {
    assert s[0..] == s;
    if s != [] {
      ContainsSpec(s[1..], t);
      if Contains(s[1..], t) {
        var i :| 0 <= i <= |s[1..]| && IsPrefix(t, s[1..][i..]);
        assert s[i + 1..] == s[1..][i..];
      }
      if exists i :: 0 <= i <= |s| && IsPrefix(t, s[i..]) {
        var i :| 0 <= i <= |s| && IsPrefix(t, s[i..]);
        if i > 0 {
          assert s[1..][i - 1..] == s[i..];
        }
      }
    }
  }

  predicate ContainsInsensitive(s: string, t: string)
  {
    Contains(LowerStr(s), LowerStr(t))
  }

  // ---------------------------------------------------------------------------
  // `where` inputs

  /** The `where` object of a user lookup: equality on the fields present, the
      name-or-last-name search when present, and `deletedAt: null` when
      `activeOnly` is set. */
  datatype UserWhere = UserWhere(
    id: Option<Id>, email: Option<string>, country: Option<string>,
    nameOrLastNameContains: Option<string>, activeOnly: bool)

  predicate Active(row: UserRow)
  {
    row.deletedAt.None?
  }

  predicate Matches(row: UserRow, w: UserWhere)
  {
    && (w.id.Some? ==> row.id == w.id.value)
    && (w.email.Some? ==> row.email == w.email.value)
    && (w.country.Some? ==> row.country == w.country)
    && (w.nameOrLastNameContains.Some? ==>
          ContainsInsensitive(row.name, w.nameOrLastNameContains.value) ||
          ContainsInsensitive(row.lastName, w.nameOrLastNameContains.value))
    && (w.activeOnly ==> Active(row))
  }

  /** `withActiveFilter(where)`: the same conditions, plus "not soft-deleted". */
  function WithActiveFilter(w: UserWhere): (r: UserWhere)
    ensures forall row :: Matches(row, r) <==> Matches(row, w.(activeOnly := false)) && Active(row)
  {
    w.(activeOnly := true)
  }

  /** `UserFilter`: optional email, country and search text. */
  datatype UserFilter = UserFilter(email: Option<string>, country: Option<string>, search: Option<string>)

  /** The `where` that `find` builds before adding the active filter. */
  function FindWhere(f: UserFilter): UserWhere
  {
    UserWhere(None, f.email, f.country, if Truthy(f.search) then f.search else None, false)
  }

  function ById(id: Id): UserWhere
  {
    UserWhere(Some(id), None, None, None, false)
  }

  function ByEmail(email: string): UserWhere
  {
    UserWhere(None, Some(email), None, None, false)
  }

  /** `findMany({ where })` without ordering: the matching rows in table order. */
  function Filter(rows: seq<UserRow>, w: UserWhere): (r: seq<UserRow>)
    ensures forall row :: row in r <==> row in rows && Matches(row, w)
    ensures |r| <= |rows|
  {
    if rows == [] then []
    else (if Matches(rows[0], w) then [rows[0]] else []) + Filter(rows[1..], w)
  }

  /** `findFirst({ where })` (and `update({ where })`): the index of the first matching row. */
  function FirstIndex(rows: seq<UserRow>, w: UserWhere): (r: Option<nat>)
    ensures r.Some? ==> r.value < |rows| && Matches(rows[r.value], w)
    ensures r.Some? ==> forall j :: 0 <= j < r.value ==> !Matches(rows[j], w)
    ensures r.None? ==> forall row :: row in rows ==> !Matches(row, w)
  {
    if rows == [] then None
    else if Matches(rows[0], w) then Some(0)
    else match FirstIndex(rows[1..], w)
      case None => None
      case Some(k) => Some(k + 1)
  }

  // ---------------------------------------------------------------------------
  // `orderBy: { name: 'asc' }`

  /** Lexicographic order on names, by character code. */
  predicate NameLe(a: string, b: string)
    decreases |a|
  {
    if a == [] then true
    else if b == [] then false
    else if a[0] != b[0] then a[0] < b[0]
    else NameLe(a[1..], b[1..])
  }

  lemma {:induction false} NameLeTotal(a: string, b: string)
    ensures NameLe(a, b) || NameLe(b, a)
    decreases |a|
  {
    if a != [] && b != [] && a[0] == b[0] {
      NameLeTotal(a[1..], b[1..]);
    }
  }

  predicate SortedByName(s: seq<UserRow>)
  {
    forall i :: 0 <= i < |s| - 1 ==> NameLe(s[i].name, s[i + 1].name)
  }

  function InsertByName(x: UserRow, s: seq<UserRow>): (r: seq<UserRow>)
    requires SortedByName(s)
    ensures SortedByName(r) && multiset(r) == multiset(s) + multiset{x}
    ensures |r| > 0 && (r[0] == x || (|s| > 0 && r[0] == s[0]))
  {
    if s == [] then [x]
    else if NameLe(x.name, s[0].name) then [x] + s
    else
      NameLeTotal(x.name, s[0].name);
      var rest := InsertByName(x, s[1..]);
      assert s == [s[0]] + s[1..];
      [s[0]] + rest
  }

  /** The ordering by name: a permutation of its input, sorted by name. */
  function SortByName(s: seq<UserRow>): (r: seq<UserRow>)
    ensures SortedByName(r) && multiset(r) == multiset(s)
  {
    if s == [] then []
    else
      assert s == [s[0]] + s[1..];
      InsertByName(s[0], SortByName(s[1..]))
  }

  /** The rows `find(filter)` returns, before `toDomain`. */
  function FindRows(rows: seq<UserRow>, f: UserFilter): seq<UserRow>
  {
    var matching := Filter(rows, WithActiveFilter(FindWhere(f)));
    if Truthy(f.search) then SortByName(matching) else matching
  }

  /** `find(filter)`. */
  function Find(rows: seq<UserRow>, f: UserFilter): Result<seq<UserModel>>
  {
    ToDomainAll(FindRows(rows, f))
  }

  /** A row is found exactly when it is active, equals the given email and
      country, and, when the search text is non-empty, its name or last name
      contains that text ignoring case. With a search the result is sorted by
      name (and is a permutation of the matches); without one it is the
      matches in table order. */
  lemma FindRowsSpec(rows: seq<UserRow>, f: UserFilter)
    ensures forall row :: row in FindRows(rows, f) <==>
      && row in rows && Active(row)
      && (f.email.Some? ==> row.email == f.email.value)
      && (f.country.Some? ==> row.country == f.country)
      && (Truthy(f.search) ==>
            ContainsInsensitive(row.name, f.search.value) || ContainsInsensitive(row.lastName, f.search.value))
    ensures multiset(FindRows(rows, f)) == multiset(Filter(rows, WithActiveFilter(FindWhere(f))))
    ensures Truthy(f.search) ==> SortedByName(FindRows(rows, f))
    ensures !Truthy(f.search) ==> FindRows(rows, f) == Filter(rows, WithActiveFilter(FindWhere(f)))
  {
    var matching := Filter(rows, WithActiveFilter(FindWhere(f)));
    if Truthy(f.search) {
      forall row ensures row in FindRows(rows, f) <==> row in matching {
        assert row in FindRows(rows, f) <==> row in multiset(FindRows(rows, f));
        assert row in matching <==> row in multiset(matching);
      }
    }
  }

  /** Every lookup sees only active users: the rows `find`, `findOneByEmail`
      and `findOneById` can return are never soft-deleted. */
  lemma LookupsSeeOnlyActiveRows(rows: seq<UserRow>, f: UserFilter, email: string, id: Id)
    ensures forall row :: row in FindRows(rows, f) ==> Active(row)
    ensures FirstIndex(rows, WithActiveFilter(ByEmail(email))).Some? ==>
      Active(rows[FirstIndex(rows, WithActiveFilter(ByEmail(email))).value])
    ensures FirstIndex(rows, WithActiveFilter(ById(id))).Some? ==>
      Active(rows[FirstIndex(rows, WithActiveFilter(ById(id))).value])
  {
    FindRowsSpec(rows, f);
  }

  // ---------------------------------------------------------------------------
  // `updateOne`

  /** `UpdateUserData`, with the password type `P` (plain text at the service,
      a digest at the repository). */
  datatype UserUpdate<P> = UserUpdate(
    birthday: Option<string>, country: Option<string>, email: Option<string>,
    lastName: Option<string>, name: Option<string>, password: Option<P>, theme: Option<Theme>)

  /** The `data` of the Prisma update: fields that are absent are left alone. */
  datatype RowPatch = RowPatch(
    birthday: Option<DateTime>, country: Option<string>, email: Option<string>,
    lastName: Option<string>, name: Option<string>, password: Option<Digest<string>>, theme: Option<string>)

  /** `{ ...data, ...(birthday && { birthday: new Date(birthday) }) }`: only a
      non-empty birthday is converted (an unparsable one is rejected by the
      write); the other given fields pass through. */
  function ToRowPatch(data: UserUpdate<Digest<string>>): (r: Result<RowPatch>)
    ensures r.Err? <==> Truthy(data.birthday) && ParseDate(data.birthday.value).None?
    ensures r.Err? ==> r.error == Database(InvalidDate)
    ensures r.Ok? ==> var p := r.value;
      && (p.birthday.Some? <==> Truthy(data.birthday))
      && (p.birthday.Some? ==> p.birthday == ParseDate(data.birthday.value))
      && (p.birthday.Some? ==>
           (FormatDate(p.birthday.value.date) == data.birthday.value <==> NamesRealDay(data.birthday.value)))
      && p.country == data.country && p.email == data.email && p.lastName == data.lastName
      && p.name == data.name && p.password == data.password
      && (p.theme.Some? <==> data.theme.Some?)
      && (data.theme.Some? ==> MapThemeToDomain(p.theme.value) == Ok(data.theme.value))
  {
    if Truthy(data.birthday) && ParseDate(data.birthday.value).None? then Err(Database(InvalidDate))
    else
      var birthday := if Truthy(data.birthday) then ParseDate(data.birthday.value) else None;
      var theme := match data.theme case None => None case Some(t) => Some(StoredTheme(t));
      var p := RowPatch(birthday, data.country, data.email, data.lastName, data.name, data.password, theme);
      assert p.birthday.Some? ==>
          (FormatDate(p.birthday.value.date) == data.birthday.value <==> NamesRealDay(data.birthday.value)) by {
        if p.birthday.Some? {
          if NamesRealDay(data.birthday.value) {
            FormatParsedDate(data.birthday.value);
          } else {
            ParseRollsOver(data.birthday.value);
          }
        }
      }
      Ok(p)
  }

  function Pick<T>(given: Option<T>, current: T): T
  {
    match given case Some(v) => v case None => current
  }

  /** The row after an update with `p`: each given field overwrites, the
      others are unchanged. */
  function ApplyPatch(row: UserRow, p: RowPatch): (r: UserRow)
    ensures r.id == row.id && r.createdAt == row.createdAt && r.deletedAt == row.deletedAt
    ensures r.email == Pick(p.email, row.email) && r.name == Pick(p.name, row.name)
    ensures r.lastName == Pick(p.lastName, row.lastName) && r.password == Pick(p.password, row.password)
    ensures r.theme == Pick(p.theme, row.theme)
    ensures r.country == (if p.country.Some? then p.country else row.country)
    ensures r.birthday == (if p.birthday.Some? then p.birthday else row.birthday)
  {
    row.(email := Pick(p.email, row.email), name := Pick(p.name, row.name),
         lastName := Pick(p.lastName, row.lastName), password := Pick(p.password, row.password),
         theme := Pick(p.theme, row.theme),
         country := if p.country.Some? then p.country else row.country,
         birthday := if p.birthday.Some? then p.birthday else row.birthday)
  }

  /** The birthday round trip: a `YYYY-MM-DD` birthday that names a real day,
      written through `updateOne`, comes back from `toDomain` as the same
      string. */
  lemma BirthdayRoundTrip(row: UserRow, data: UserUpdate<Digest<string>>)
    requires Truthy(data.birthday) && NamesRealDay(data.birthday.value)
    requires MapThemeToDomain(row.theme).Ok?
    ensures ToDomain(ApplyPatch(row, ToRowPatch(data).value)).Ok?
    ensures ToDomain(ApplyPatch(row, ToRowPatch(data).value)).value.birthday == data.birthday
  {
  }
}
