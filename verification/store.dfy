/**
 * The persistence layer (`src/db.js`) as operations on an immutable snapshot of its
 * four tables. The `counts` table has no uniqueness constraint in its schema, so it is
 * a sequence of rows; "one row per (unit, date)" is an invariant the operations keep.
 */
module Store {
  import opened Common
  import opened Text
  import opened Catalog
  import Calendar

  datatype Role = Admin | Editor

  /** A row of `users`; `unitId` is `NULL` for the administrator. */
  datatype User = User(id: nat, username: string, passwordHash: string, role: Role, unitId: Option<int>)

  /** A row of `units`, keyed by its id. */
  datatype Unit = Unit(areaId: int, name: string)

  /** A row of `counts`; both count columns are nullable. */
  datatype CountRow = CountRow(unitId: int, date: string, manual: Option<int>, electronic: Option<int>)

  /** The `{ manual, electronic }` pair the month queries return. */
  datatype Tally = Tally(manual: int, electronic: int)

  /** The database: `nextUserId` is the AUTOINCREMENT counter of `users`. */
  datatype Db = Db(users: seq<User>, nextUserId: nat, units: map<int, Unit>, counts: seq<CountRow>, locks: set<string>)

  /** Rejection of an INSERT by the `UNIQUE` constraint on `users.username`. */
  datatype DbError = UsernameNotUnique

  // ---------------------------------------------------------------- counts

  predicate Matches(row: CountRow, unitId: int, date: string) {
    row.unitId == unitId && row.date == date
  }

  function KeyIs(unitId: int, date: string): CountRow -> bool {
    (row: CountRow) => Matches(row, unitId, date)
  }

  /** `SELECT ... FROM counts WHERE unit_id = ? AND date = ?` followed by `.get()`: the first such row. */
  function Lookup(rows: seq<CountRow>, unitId: int, date: string): (r: Option<CountRow>)
    ensures r.Some? ==> r.value in rows && Matches(r.value, unitId, date)
    ensures r.None? <==> forall i :: 0 <= i < |rows| ==> !Matches(rows[i], unitId, date)
  {
    FindFirst(rows, KeyIs(unitId, date))
  }

  /** At most one row per (unit_id, date). */
  predicate UniqueCounts(rows: seq<CountRow>) {
    forall i, j :: 0 <= i < j < |rows| ==> !Matches(rows[j], rows[i].unitId, rows[i].date)
  }

  /** With unique keys, the row found for a key is the one row carrying it. */
  lemma LookupUnique(rows: seq<CountRow>, i: int)
    requires UniqueCounts(rows) && 0 <= i < |rows|
    ensures Lookup(rows, rows[i].unitId, rows[i].date) == Some(rows[i])
  {
    var p := KeyIs(rows[i].unitId, rows[i].date);
    assert forall j :: 0 <= j < i ==> !Matches(rows[i], rows[j].unitId, rows[j].date);
    FirstIndexAt(rows, p, i);
  }

  /** Replacing rows that do not carry a key leaves the search for that key unaffected. */
  lemma LookupUnaffected(rows: seq<CountRow>, rows': seq<CountRow>, unitId: int, date: string)
    requires |rows'| == |rows|
    requires forall j :: 0 <= j < |rows| && rows'[j] != rows[j] ==>
      !Matches(rows[j], unitId, date) && !Matches(rows'[j], unitId, date)
    ensures Lookup(rows', unitId, date) == Lookup(rows, unitId, date)
  {
    var p := KeyIs(unitId, date);
    var k := FirstIndex(rows, p);
    assert forall j :: 0 <= j < |rows| ==> (p(rows'[j]) <==> p(rows[j]));
    if k.Some? {
      FirstIndexAt(rows', p, k.value);
    } else {
      FirstIndexNowhere(rows', p);
    }
  }

  lemma LookupAfterAppend(rows: seq<CountRow>, row: CountRow, unitId: int, date: string)
    ensures !Matches(row, unitId, date) ==> Lookup(rows + [row], unitId, date) == Lookup(rows, unitId, date)
    ensures Matches(row, unitId, date) && Lookup(rows, unitId, date).None? ==>
      Lookup(rows + [row], unitId, date) == Some(row)
  {
    var p := KeyIs(unitId, date);
    var s := rows + [row];
    var k := FirstIndex(rows, p);
    assert forall j :: 0 <= j < |rows| ==> s[j] == rows[j];
    if k.Some? {
      FirstIndexAt(s, p, k.value);
    } else if p(row) {
      FirstIndexAt(s, p, |rows|);
    } else {
      FirstIndexNowhere(s, p);
    }
  }

  function UpsertRows(rows: seq<CountRow>, unitId: int, date: string, manual: int, electronic: int): seq<CountRow> {
    var row := CountRow(unitId, date, Some(manual), Some(electronic));
    match FirstIndex(rows, KeyIs(unitId, date))
    case Some(i) => rows[i := row]
    case None => rows + [row]
  }

  lemma UpsertRowsFacts(rows: seq<CountRow>, unitId: int, date: string, manual: int, electronic: int)
    ensures var r := UpsertRows(rows, unitId, date, manual, electronic);
      && Lookup(r, unitId, date) == Some(CountRow(unitId, date, Some(manual), Some(electronic)))
      && (forall u, d :: !(u == unitId && d == date) ==> Lookup(r, u, d) == Lookup(rows, u, d))
      && (UniqueCounts(rows) ==> UniqueCounts(r))
      && |r| == |rows| + (if Lookup(rows, unitId, date).None? then 1 else 0)
  {
    var row := CountRow(unitId, date, Some(manual), Some(electronic));
    var r := UpsertRows(rows, unitId, date, manual, electronic);
    match FirstIndex(rows, KeyIs(unitId, date))
    case Some(i) =>
      assert r == rows[i := row];
      assert Matches(rows[i], unitId, date);
      assert Lookup(r, unitId, date) == Some(row) by {
        FirstIndexAt(r, KeyIs(unitId, date), i);
      }
      forall u, d | !(u == unitId && d == date)
        ensures Lookup(r, u, d) == Lookup(rows, u, d)
      {
        LookupUnaffected(rows, r, u, d);
      }
    case None =>
      assert r == rows + [row];
      LookupAfterAppend(rows, row, unitId, date);
      forall u, d | !(u == unitId && d == date)
        ensures Lookup(r, u, d) == Lookup(rows, u, d)
      {
        LookupAfterAppend(rows, row, u, d);
      }
  }

  /**
   * `upsertCount`: update the first row with this (unit, date) or, when there is none,
   * insert one. Afterwards that key holds the given counts and every other key reads
   * as before; the one-row-per-key invariant is kept.
   */
  function UpsertCount(db: Db, unitId: int, date: string, manual: int, electronic: int): (r: Db)
    ensures r == db.(counts := r.counts)
    ensures Lookup(r.counts, unitId, date) == Some(CountRow(unitId, date, Some(manual), Some(electronic)))
    ensures forall u, d :: !(u == unitId && d == date) ==> Lookup(r.counts, u, d) == Lookup(db.counts, u, d)
    ensures UniqueCounts(db.counts) ==> UniqueCounts(r.counts)
    ensures |r.counts| == |db.counts| + (if Lookup(db.counts, unitId, date).None? then 1 else 0)
  {
    UpsertRowsFacts(db.counts, unitId, date, manual, electronic);
    db.(counts := UpsertRows(db.counts, unitId, date, manual, electronic))
  }

  /** Upserting the same values twice is the same as upserting them once. */
  lemma UpsertCountIdempotent(db: Db, unitId: int, date: string, manual: int, electronic: int)
    ensures UpsertCount(UpsertCount(db, unitId, date, manual, electronic), unitId, date, manual, electronic)
         == UpsertCount(db, unitId, date, manual, electronic)
  {
    var row := CountRow(unitId, date, Some(manual), Some(electronic));
    var p := KeyIs(unitId, date);
    var rows := db.counts;
    var once := UpsertRows(rows, unitId, date, manual, electronic);
    match FirstIndex(rows, p)
    case Some(i) =>
      assert once == rows[i := row];
      FirstIndexAt(once, p, i);
      assert once[i := row] == once;
    case None =>
      assert once == rows + [row];
      assert forall j :: 0 <= j < |rows| ==> once[j] == rows[j];
      FirstIndexAt(once, p, |rows|);
      assert once[|rows| := row] == once;
  }

  /** The counts a row is read as: `IFNULL(manual, 0)`, `IFNULL(electronic, 0)`. */
  function TallyOf(row: CountRow): Tally {
    Tally(row.manual.GetOr(0), row.electronic.GetOr(0))
  }

  /** What the save handler takes as the previous counts of a key: the stored row, or zeros. */
  function Stored(rows: seq<CountRow>, unitId: int, date: string): Tally {
    match Lookup(rows, unitId, date)
    case None => Tally(0, 0)
    case Some(row) => TallyOf(row)
  }

  /** `map[key] || { manual: 0, electronic: 0 }`. */
  function TallyOr(m: map<string, Tally>, key: string): Tally {
    if key in m then m[key] else Tally(0, 0)
  }

  /** `date LIKE 'ym-%'`. */
  predicate InMonth(row: CountRow, ym: string) {
    HasPrefix(row.date, ym + "-")
  }

  /** The `${unit_id}|${date}` key of the month-wide counts map. */
  function MonthKey(unitId: int, date: string): string {
    Str(unitId) + "|" + date
  }

  lemma MonthKeyInjective(u1: int, d1: string, u2: int, d2: string)
    ensures MonthKey(u1, d1) == MonthKey(u2, d2) ==> u1 == u2 && d1 == d2
  {
    if MonthKey(u1, d1) == MonthKey(u2, d2) {
      SeparatorNotInStr(u1, '|');
      SeparatorNotInStr(u2, '|');
      PrefixBeforeSeparator(Str(u1), Str(u2), d1, d2, '|');
      StrInjective(u1, u2);
    }
  }

  /**
   * `getCountsForMonth(ym)`: the rows dated in the month, keyed `unit_id|date`, read
   * in table order so that a later row with the same key would win.
   */
  function CountsForMonth(rows: seq<CountRow>, ym: string): (out: map<string, Tally>)
    ensures forall i :: 0 <= i < |rows| && InMonth(rows[i], ym) ==> MonthKey(rows[i].unitId, rows[i].date) in out
    ensures forall k :: k in out ==>
      (exists i :: 0 <= i < |rows| && InMonth(rows[i], ym)
         && MonthKey(rows[i].unitId, rows[i].date) == k && out[k] == TallyOf(rows[i]))
    decreases |rows|
  {
    if |rows| == 0 then map[]
    else
      var front := rows[..|rows| - 1];
      var out := CountsForMonth(front, ym);
      var row := rows[|rows| - 1];
      var r := if InMonth(row, ym) then out[MonthKey(row.unitId, row.date) := TallyOf(row)] else out;
      assert rows == front + [row];
      CountsForMonthSnoc(front, row, ym, out, r);
      r
  }

  /** Adding one more row to the map of the rows before it keeps both halves of the map's description. */
  lemma CountsForMonthSnoc(front: seq<CountRow>, row: CountRow, ym: string, out: map<string, Tally>, r: map<string, Tally>)
    requires forall i :: 0 <= i < |front| && InMonth(front[i], ym) ==> MonthKey(front[i].unitId, front[i].date) in out
    requires forall k :: k in out ==>
      (exists i :: 0 <= i < |front| && InMonth(front[i], ym)
         && MonthKey(front[i].unitId, front[i].date) == k && out[k] == TallyOf(front[i]))
    requires r == if InMonth(row, ym) then out[MonthKey(row.unitId, row.date) := TallyOf(row)] else out
    ensures var rows := front + [row];
      forall i :: 0 <= i < |rows| && InMonth(rows[i], ym) ==> MonthKey(rows[i].unitId, rows[i].date) in r
    ensures var rows := front + [row];
      forall k :: k in r ==>
        (exists i :: 0 <= i < |rows| && InMonth(rows[i], ym)
           && MonthKey(rows[i].unitId, rows[i].date) == k && r[k] == TallyOf(rows[i]))
  {
    var rows := front + [row];
    assert forall i :: 0 <= i < |front| ==> rows[i] == front[i];
    forall k | k in r
      ensures exists i :: (0 <= i < |rows| && InMonth(rows[i], ym)
                           && MonthKey(rows[i].unitId, rows[i].date) == k && r[k] == TallyOf(rows[i]))
    {
      if InMonth(row, ym) && k == MonthKey(row.unitId, row.date) {
        assert rows[|front|] == row;
      } else {
        var i :| 0 <= i < |front| && InMonth(front[i], ym)
          && MonthKey(front[i].unitId, front[i].date) == k && out[k] == TallyOf(front[i]);
        assert rows[i] == front[i];
      }
    }
  }

  /** `getCountsForUnitMonth(unitId, ym)`: that unit's rows dated in the month, keyed by date. */
  function CountsForUnitMonth(rows: seq<CountRow>, unitId: int, ym: string): (out: map<string, Tally>)
    ensures forall i :: 0 <= i < |rows| && rows[i].unitId == unitId && InMonth(rows[i], ym) ==> rows[i].date in out
    ensures forall k :: k in out ==>
      (exists i :: 0 <= i < |rows| && rows[i].unitId == unitId && InMonth(rows[i], ym)
         && rows[i].date == k && out[k] == TallyOf(rows[i]))
    decreases |rows|
  {
    if |rows| == 0 then map[]
    else
      var front := rows[..|rows| - 1];
      var out := CountsForUnitMonth(front, unitId, ym);
      var row := rows[|rows| - 1];
      assert forall i :: 0 <= i < |front| ==> front[i] == rows[i];
      if row.unitId == unitId && InMonth(row, ym) then out[row.date := TallyOf(row)] else out
  }

  /** With one row per key, the month map gives each key of the month its stored counts, or zeros. */
  lemma CountsForMonthAgrees(rows: seq<CountRow>, ym: string, unitId: int, date: string)
    requires UniqueCounts(rows) && HasPrefix(date, ym + "-")
    ensures TallyOr(CountsForMonth(rows, ym), MonthKey(unitId, date)) == Stored(rows, unitId, date)
  {
    var out := CountsForMonth(rows, ym);
    var key := MonthKey(unitId, date);
    if key in out {
      var i :| 0 <= i < |rows| && InMonth(rows[i], ym) && MonthKey(rows[i].unitId, rows[i].date) == key
        && out[key] == TallyOf(rows[i]);
      MonthKeyInjective(rows[i].unitId, rows[i].date, unitId, date);
      LookupUnique(rows, i);
    } else {
      forall i | 0 <= i < |rows|
        ensures !Matches(rows[i], unitId, date)
      {
        if Matches(rows[i], unitId, date) {
          assert InMonth(rows[i], ym);
        }
      }
    }
  }

  /** With one row per key, the unit's month map gives each day of the month its stored counts, or zeros. */
  lemma CountsForUnitMonthAgrees(rows: seq<CountRow>, ym: string, unitId: int, date: string)
    requires UniqueCounts(rows) && HasPrefix(date, ym + "-")
    ensures TallyOr(CountsForUnitMonth(rows, unitId, ym), date) == Stored(rows, unitId, date)
  {
    var out := CountsForUnitMonth(rows, unitId, ym);
    if date in out {
      var i :| 0 <= i < |rows| && rows[i].unitId == unitId && InMonth(rows[i], ym) && rows[i].date == date
        && out[date] == TallyOf(rows[i]);
      LookupUnique(rows, i);
    } else {
      forall i | 0 <= i < |rows|
        ensures !Matches(rows[i], unitId, date)
      {
        if Matches(rows[i], unitId, date) {
          assert InMonth(rows[i], ym);
        }
      }
    }
  }

  // ---------------------------------------------------------------- locks

  /** `isDateLocked`. */
  predicate IsDateLocked(db: Db, date: string) {
    date in db.locks
  }

  /** `lockDate`: `INSERT OR IGNORE` into the primary-keyed `locks` table. */
  function LockDate(db: Db, date: string): (r: Db)
    ensures r == db.(locks := r.locks)
    ensures IsDateLocked(r, date)
    ensures forall x :: x != date ==> (IsDateLocked(r, x) <==> IsDateLocked(db, x))
  {
    db.(locks := db.locks + {date})
  }

  /** `unlockDate`: `DELETE FROM locks WHERE date = ?`. */
  function UnlockDate(db: Db, date: string): (r: Db)
    ensures r == db.(locks := r.locks)
    ensures !IsDateLocked(r, date)
    ensures forall x :: x != date ==> (IsDateLocked(r, x) <==> IsDateLocked(db, x))
  {
    db.(locks := db.locks - {date})
  }

  /** Locking twice is locking once; unlocking a date that is not locked changes nothing. */
  lemma LockUnlockIdempotent(db: Db, date: string)
    ensures LockDate(LockDate(db, date), date) == LockDate(db, date)
    ensures IsDateLocked(db, date) ==> LockDate(db, date) == db
    ensures UnlockDate(UnlockDate(db, date), date) == UnlockDate(db, date)
    ensures !IsDateLocked(db, date) ==> UnlockDate(db, date) == db
  {
  }

  /** `getLockedDatesForMonth(ym)`: the locked dates starting with `ym-`. */
  function LockedDatesForMonth(db: Db, ym: string): (r: set<string>)
    ensures r <= db.locks
  {
    set x | x in db.locks && HasPrefix(x, ym + "-")
  }

  /** `date LIKE ym || '-%'`: a locked date is listed when it is `ym`, a '-' and at least one more character. */
  lemma LockedDatesForMonthLike(db: Db, ym: string, x: string)
    ensures x in LockedDatesForMonth(db, ym) <==> IsDateLocked(db, x) && |ym| < |x| && x[..|ym|] == ym && x[|ym|] == '-'
  {
    if |ym| < |x| {
      MonthDashPrefix(x, ym);
    }
  }

  lemma MonthDashPrefix(x: string, ym: string)
    requires |ym| < |x|
    ensures HasPrefix(x, ym + "-") <==> x[..|ym|] == ym && x[|ym|] == '-'
  {
    if x[..|ym|] == ym && x[|ym|] == '-' {
      assert x[..|ym| + 1] == x[..|ym|] + [x[|ym|]];
    }
    if HasPrefix(x, ym + "-") {
      assert x[..|ym|] == x[..|ym| + 1][..|ym|];
    }
  }

  /**
   * For a canonical month text, a day key is in that month's lock list exactly when it
   * belongs to that month and is locked: no lock leaks in from a neighbouring month.
   */
  lemma LockedDatesForMonthExact(db: Db, y: int, m: int, y2: int, m2: int, d: int)
    requires y >= 0 && m >= 0 && y2 >= 0 && m2 >= 0
    ensures Calendar.DayOf(y2, m2, d).iso in LockedDatesForMonth(db, Calendar.MonthText(y, m))
        <==> y2 == y && m2 == m && IsDateLocked(db, Calendar.DayOf(y2, m2, d).iso)
  {
    Calendar.MonthPrefixExact(y, m, y2, m2, d);
  }

  // ---------------------------------------------------------------- users

  /** Ids strictly increase along the table (it is read `ORDER BY id`), so ids are unique. */
  predicate IdsIncreasing(users: seq<User>) {
    forall i, j :: 0 <= i < j < |users| ==> users[i].id < users[j].id
  }

  /** The database invariant the operations keep. */
  predicate Valid(db: Db) {
    && UniqueCounts(db.counts)
    && IdsIncreasing(db.users)
    && (forall i :: 0 <= i < |db.users| ==> db.users[i].id < db.nextUserId)
    && (forall x, y :: x in db.users && y in db.users && x.username == y.username ==> x == y)
  }

  function NameIs(username: string): User -> bool {
    (u: User) => u.username == username
  }

  function IdIs(id: int): User -> bool {
    (u: User) => u.id == id
  }

  /** `getUserByUsername`. */
  function GetUserByUsername(db: Db, username: string): (r: Option<User>)
    ensures r.Some? ==> r.value in db.users && r.value.username == username
    ensures r.None? <==> forall i :: 0 <= i < |db.users| ==> db.users[i].username != username
  {
    FindFirst(db.users, NameIs(username))
  }

  /** `getUserById`; a `NaN` id matches no row. */
  function GetUserById(db: Db, id: Option<int>): (r: Option<User>)
    ensures r.Some? ==> id.Some? && r.value in db.users && r.value.id == id.value
    ensures r.None? <==> id.None? || forall i :: 0 <= i < |db.users| ==> db.users[i].id != id.value
  {
    if id.None? then None else FindFirst(db.users, IdIs(id.value))
  }

  /** `countUsersByUnit`: `SELECT COUNT(*) FROM users WHERE unit_id = ?` (a `NULL` unit never matches). */
  function CountUsersByUnit(users: seq<User>, unitId: int): (n: nat)
    ensures n <= |users|
    ensures n == 0 <==> forall i :: 0 <= i < |users| ==> users[i].unitId != Some(unitId)
    decreases |users|
  {
    if |users| == 0 then 0
    else
      var front := users[..|users| - 1];
      assert forall i :: 0 <= i < |front| ==> front[i] == users[i];
      CountUsersByUnit(front, unitId) + (if users[|users| - 1].unitId == Some(unitId) then 1 else 0)
  }

  /** The unit column of `users`. */
  function UnitColumn(users: seq<User>): (col: seq<Option<int>>)
    ensures |col| == |users| && forall i :: 0 <= i < |users| ==> col[i] == users[i].unitId
  {
    seq(|users|, i requires 0 <= i < |users| => users[i].unitId)
  }

  /** The count is the number of occurrences of the unit in the unit column. */
  lemma {:induction false} CountUsersByUnitCountsOccurrences(users: seq<User>, unitId: int)
    ensures CountUsersByUnit(users, unitId) == multiset(UnitColumn(users))[Some(unitId)]
    decreases |users|
  {
    if |users| > 0 {
      var front := users[..|users| - 1];
      CountUsersByUnitCountsOccurrences(front, unitId);
      assert UnitColumn(users) == UnitColumn(front) + [users[|users| - 1].unitId];
    }
  }

  /** `createEditor`: insert an editor row with the next id; the `UNIQUE` username constraint may refuse it. */
  function CreateEditor(db: Db, username: string, passwordHash: string, unitId: Option<int>): (r: Result<Db, DbError>)
    ensures r.Failure? <==> exists i :: 0 <= i < |db.users| && db.users[i].username == username
    ensures r.Success? ==> r.value == db.(users := r.value.users, nextUserId := db.nextUserId + 1)
    ensures r.Success? ==> r.value.users == db.users + [User(db.nextUserId, username, passwordHash, Editor, unitId)]
    ensures r.Success? && Valid(db) ==> Valid(r.value)
  {
    if GetUserByUsername(db, username).Some? then Failure(UsernameNotUnique)
    else
      var user := User(db.nextUserId, username, passwordHash, Editor, unitId);
      var r := db.(users := db.users + [user], nextUserId := db.nextUserId + 1);
      assert Valid(db) ==> Valid(r) by {
        if Valid(db) {
          assert forall z :: z in db.users ==> z.username != username;
          assert forall z :: z in r.users ==> z in db.users || z == user;
        }
      }
      Success(r)
  }

  /** The table without the rows carrying `id`. */
  function RemoveId(users: seq<User>, id: int): (r: seq<User>)
    ensures |r| <= |users|
    ensures forall x :: x in r <==> x in users && x.id != id
    ensures (forall i :: 0 <= i < |users| ==> users[i].id != id) ==> r == users
  {
    if |users| == 0 then []
    else
      var rest := RemoveId(users[1..], id);
      if users[0].id == id then rest else [users[0]] + rest
  }

  /** Removing rows keeps the remaining ones in id order. */
  lemma {:induction false} RemoveIdKeepsOrder(users: seq<User>, id: int)
    requires IdsIncreasing(users)
    ensures IdsIncreasing(RemoveId(users, id))
    decreases |users|
  {
    if |users| > 0 {
      var rest := RemoveId(users[1..], id);
      RemoveIdKeepsOrder(users[1..], id);
      if users[0].id != id {
        forall x | x in rest
          ensures users[0].id < x.id
        {
          var k :| 0 <= k < |users[1..]| && users[1..][k] == x;
          assert users[k + 1] == x;
        }
        var r := [users[0]] + rest;
        forall i, j | 0 <= i < j < |r|
          ensures r[i].id < r[j].id
        {
          assert r[j] == rest[j - 1];
          if i > 0 {
            assert r[i] == rest[i - 1];
          }
        }
      }
    }
  }

  /** `deleteUserById`. */
  function DeleteUserById(db: Db, id: int): (r: Db)
    ensures r == db.(users := r.users)
    ensures forall x :: x in r.users <==> x in db.users && x.id != id
    ensures Valid(db) ==> Valid(r)
    ensures (forall i :: 0 <= i < |db.users| ==> db.users[i].id != id) ==> r == db
  {
    if Valid(db) then RemoveIdKeepsOrder(db.users, id); db.(users := RemoveId(db.users, id))
    else db.(users := RemoveId(db.users, id))
  }

  /** The table with the password hash of the rows carrying `id` replaced. */
  function SetHash(users: seq<User>, id: int, passwordHash: string): (r: seq<User>)
    ensures |r| == |users|
    ensures forall i :: 0 <= i < |users| && users[i].id == id ==> r[i] == users[i].(passwordHash := passwordHash)
    ensures forall i :: 0 <= i < |users| && users[i].id != id ==> r[i] == users[i]
  {
    if |users| == 0 then []
    else
      [if users[0].id == id then users[0].(passwordHash := passwordHash) else users[0]]
      + SetHash(users[1..], id, passwordHash)
  }

  /** `updateUserPassword`; a `NaN` id matches no row. */
  function UpdateUserPassword(db: Db, id: Option<int>, passwordHash: string): (r: Db)
    ensures r == db.(users := r.users)
    ensures |r.users| == |db.users|
    ensures forall i :: 0 <= i < |db.users| ==>
      r.users[i] == if id.Some? && db.users[i].id == id.value then db.users[i].(passwordHash := passwordHash) else db.users[i]
  {
    if id.None? then db else db.(users := SetHash(db.users, id.value, passwordHash))
  }

  /** Changing a password keeps ids, names, roles and units, hence the invariant. */
  lemma UpdateUserPasswordValid(db: Db, id: Option<int>, passwordHash: string)
    requires Valid(db)
    ensures Valid(UpdateUserPassword(db, id, passwordHash))
  {
    var r := UpdateUserPassword(db, id, passwordHash);
    SameKeysValid(db, r.users);
    assert r == db.(users := r.users);
  }

  /** Replacing the users by ones with the same ids and names, in the same order, keeps the invariant. */
  lemma SameKeysValid(db: Db, users: seq<User>)
    requires Valid(db) && |users| == |db.users|
    requires forall i :: 0 <= i < |users| ==> users[i].id == db.users[i].id && users[i].username == db.users[i].username
    ensures Valid(db.(users := users))
  {
    assert IdsIncreasing(users);
    forall x, y | x in users && y in users && x.username == y.username
      ensures x == y
    {
      var i :| 0 <= i < |users| && users[i] == x;
      var j :| 0 <= j < |users| && users[j] == y;
      assert db.users[i] in db.users && db.users[j] in db.users;
      assert db.users[i] == db.users[j];
      assert i == j;
    }
  }

  // ---------------------------------------------------------------- units

  /** `INSERT OR IGNORE INTO units` for each unit of one area, in order. */
  function SeedUnits(units: map<int, Unit>, areaId: int, list: seq<CatalogUnit>): map<int, Unit>
    decreases |list|
  {
    if |list| == 0 then units
    else
      var u := list[0];
      SeedUnits(if u.id in units then units else units[u.id := Unit(areaId, u.name)], areaId, list[1..])
  }

  function SeedAreas(units: map<int, Unit>, areas: seq<Area>, c: Catalog): map<int, Unit>
    decreases |areas|
  {
    if |areas| == 0 then units
    else SeedAreas(SeedUnits(units, areas[0].id, AreaUnits(c, areas[0].id)), areas[1..], c)
  }

  /**
   * `seedAreasUnits(areas, unitsByArea)`: seeding never overwrites a unit that is already
   * there (`INSERT OR IGNORE`); afterwards every catalog unit id is present, and every new
   * row comes from the catalog.
   */
  function SeedAreasUnits(db: Db, c: Catalog): (r: Db)
    ensures r == db.(units := r.units)
    ensures forall k :: k in db.units ==> k in r.units && r.units[k] == db.units[k]
    ensures forall k :: k in r.units <==> k in db.units || ListsId(c.areas, c, k)
    ensures forall k :: k in r.units && k !in db.units ==> Lists(c.areas, c, k, r.units[k])
  {
    SeedAreasSound(db.units, c.areas, c);
    db.(units := SeedAreas(db.units, c.areas, c))
  }

  /** The catalog lists unit `k` under area `a` with name `name`. */
  predicate Lists(areas: seq<Area>, c: Catalog, k: int, u: Unit) {
    exists a, j :: 0 <= a < |areas| && 0 <= j < |AreaUnits(c, areas[a].id)|
      && AreaUnits(c, areas[a].id)[j].id == k && u == Unit(areas[a].id, AreaUnits(c, areas[a].id)[j].name)
  }

  predicate ListsId(areas: seq<Area>, c: Catalog, k: int) {
    exists a, j :: 0 <= a < |areas| && 0 <= j < |AreaUnits(c, areas[a].id)| && AreaUnits(c, areas[a].id)[j].id == k
  }

  lemma {:induction false} SeedUnitsSound(units: map<int, Unit>, areaId: int, list: seq<CatalogUnit>)
    ensures var r := SeedUnits(units, areaId, list);
      && (forall k :: k in units ==> k in r && r[k] == units[k])
      && (forall k :: k in r <==> k in units || exists j :: 0 <= j < |list| && list[j].id == k)
      && (forall k :: k in r && k !in units ==>
            exists j :: 0 <= j < |list| && list[j].id == k && r[k] == Unit(areaId, list[j].name))
    decreases |list|
  {
    if |list| > 0 {
      var u := list[0];
      var next := if u.id in units then units else units[u.id := Unit(areaId, u.name)];
      SeedUnitsSound(next, areaId, list[1..]);
      var r := SeedUnits(units, areaId, list);
      forall k | k in r
        ensures k in units || exists j :: 0 <= j < |list| && list[j].id == k
      {
        if k !in next {
          var j :| 0 <= j < |list[1..]| && list[1..][j].id == k;
          assert list[j + 1].id == k;
        }
      }
      forall k | exists j :: 0 <= j < |list| && list[j].id == k
        ensures k in r
      {
        var j :| 0 <= j < |list| && list[j].id == k;
        if j > 0 {
          assert list[1..][j - 1].id == k;
        } else {
          assert k in next;
        }
      }
      forall k | k in r && k !in units
        ensures exists j :: 0 <= j < |list| && list[j].id == k && r[k] == Unit(areaId, list[j].name)
      {
        if k in next {
          assert k == u.id && r[k] == Unit(areaId, list[0].name);
        } else {
          var j :| 0 <= j < |list[1..]| && list[1..][j].id == k && r[k] == Unit(areaId, list[1..][j].name);
          assert list[j + 1].id == k;
        }
      }
    }
  }

  lemma {:induction false} SeedAreasSound(units: map<int, Unit>, areas: seq<Area>, c: Catalog)
    ensures var r := SeedAreas(units, areas, c);
      && (forall k :: k in units ==> k in r && r[k] == units[k])
      && (forall k :: k in r <==> k in units || ListsId(areas, c, k))
      && (forall k :: k in r && k !in units ==> Lists(areas, c, k, r[k]))
    decreases |areas|
  {
    if |areas| > 0 {
      var a0 := areas[0];
      var list := AreaUnits(c, a0.id);
      var next := SeedUnits(units, a0.id, list);
      SeedUnitsSound(units, a0.id, list);
      SeedAreasSound(next, areas[1..], c);
      var r := SeedAreas(units, areas, c);
      forall k | k in r
        ensures k in units || ListsId(areas, c, k)
      {
        if k !in next {
          var a, j :| 0 <= a < |areas[1..]| && 0 <= j < |AreaUnits(c, areas[1..][a].id)|
            && AreaUnits(c, areas[1..][a].id)[j].id == k;
          assert areas[a + 1] == areas[1..][a];
        } else if k !in units {
          var j :| 0 <= j < |list| && list[j].id == k;
          assert areas[0] == a0;
        }
      }
      forall k | ListsId(areas, c, k)
        ensures k in r
      {
        var a, j :| 0 <= a < |areas| && 0 <= j < |AreaUnits(c, areas[a].id)| && AreaUnits(c, areas[a].id)[j].id == k;
        if a > 0 {
          assert areas[1..][a - 1] == areas[a];
          assert ListsId(areas[1..], c, k);
        } else {
          assert list[j].id == k;
          assert k in next;
        }
      }
      forall k | k in r && k !in units
        ensures Lists(areas, c, k, r[k])
      {
        if k in next {
          var j :| 0 <= j < |list| && list[j].id == k && next[k] == Unit(a0.id, list[j].name);
          assert 0 < |areas| && areas[0] == a0;
        } else {
          var a, j :| 0 <= a < |areas[1..]| && 0 <= j < |AreaUnits(c, areas[1..][a].id)|
            && AreaUnits(c, areas[1..][a].id)[j].id == k && r[k] == Unit(areas[1..][a].id, AreaUnits(c, areas[1..][a].id)[j].name);
          assert areas[a + 1] == areas[1..][a];
        }
      }
    }
  }
}
