/**
 * The route handlers of the web server that change the database: the session guards,
 * login, the administrator's user management and locking, and the editor's save.
 * Password hashing and checking are parameters; redirects and views are left out.
 */
module Admin {
  import opened Common
  import opened Text
  import opened Catalog
  import opened Calendar
  import opened Store
  import opened EditorSave

  // ---------------------------------------------------------------- sessions

  /** `req.session.user`: what a successful login stores. */
  datatype SessionUser = SessionUser(id: nat, role: Role, unitId: Option<int>)

  /** `requireAuth`: some user is logged in. */
  predicate RequireAuth(s: Option<SessionUser>) {
    s.Some?
  }

  /** `requireAdmin`: the logged-in user is an administrator. */
  predicate RequireAdmin(s: Option<SessionUser>) {
    s.Some? && s.value.role == Admin
  }

  /** `requireEditor`: the logged-in user is an editor. */
  predicate RequireEditor(s: Option<SessionUser>) {
    s.Some? && s.value.role == Editor
  }

  /** Every logged-in user passes exactly one of the two role guards; nobody else passes either. */
  lemma GuardsPartition(s: Option<SessionUser>)
    ensures RequireAdmin(s) ==> RequireAuth(s) && !RequireEditor(s)
    ensures RequireEditor(s) ==> RequireAuth(s) && !RequireAdmin(s)
    ensures RequireAuth(s) ==> RequireAdmin(s) || RequireEditor(s)
  {
  }

  /** The one message a failed login shows, whether the name or the password was wrong. */
  datatype LoginError = InvalidCredentials

  /**
   * `POST /login`: look the user up by name and check the password against the stored
   * hash with `verify` (bcrypt's `compareSync`).
   */
  function Login(db: Db, username: string, password: string, verify: (string, string) -> bool): (r: Result<SessionUser, LoginError>)
    ensures r.Success? ==> (exists u :: (u in db.users && u.username == username && verify(password, u.passwordHash)
                                         && r.value == SessionUser(u.id, u.role, u.unitId)))
    ensures Valid(db) ==>
      (r.Success? <==> exists u :: u in db.users && u.username == username && verify(password, u.passwordHash))
  {
    match GetUserByUsername(db, username)
    case None => Failure(InvalidCredentials)
    case Some(u) =>
      if verify(password, u.passwordHash) then Success(SessionUser(u.id, u.role, u.unitId))
      else Failure(InvalidCredentials)
  }

  // ---------------------------------------------------------------- users

  /** Why user creation was refused (the `error` text of the redirect). */
  datatype UserError = Incomplete | UsernameTaken | RuralTaken

  /** `!field` for a posted form field: missing or empty. */
  predicate Blank(field: Option<string>) {
    field.None? || field.value == ""
  }

  /** Some user is already assigned to the rural unit. */
  predicate RuralAssigned(db: Db) {
    exists i :: 0 <= i < |db.users| && db.users[i].unitId == Some(RuralUnit)
  }

  predicate NameTaken(db: Db, username: string) {
    exists i :: 0 <= i < |db.users| && db.users[i].username == username
  }

  /**
   * `POST /admin/users`: create an editor. The checks run in order: every field
   * present, the name free, and for the rural unit no user holding it already. The
   * unit text is read with `parseInt`; text that is not a number stores a `NULL` unit.
   * `hash` stands for bcrypt's `hashSync`.
   */
  function CreateUserRoute(db: Db, username: Option<string>, password: Option<string>, unitText: Option<string>,
                           hash: string -> string): (r: Result<Db, UserError>)
    ensures r == Failure(Incomplete) <==> Blank(username) || Blank(password) || Blank(unitText)
    ensures r == Failure(UsernameTaken) <==>
      !(Blank(username) || Blank(password) || Blank(unitText)) && NameTaken(db, username.value)
    ensures r == Failure(RuralTaken) <==>
      !(Blank(username) || Blank(password) || Blank(unitText)) && !NameTaken(db, username.value)
      && ParseInt(unitText.value) == Some(RuralUnit) && RuralAssigned(db)
    ensures r.Success? ==> r.value == db.(users := r.value.users, nextUserId := db.nextUserId + 1)
    ensures r.Success? ==> (r.value.users ==
      db.users + [User(db.nextUserId, username.value, hash(password.value), Editor, ParseInt(unitText.value))])
    ensures r.Success? && Valid(db) ==> Valid(r.value)
  {
    if Blank(username) || Blank(password) || Blank(unitText) then Failure(Incomplete)
    else if GetUserByUsername(db, username.value).Some? then Failure(UsernameTaken)
    else
      var unit := ParseInt(unitText.value);
      if unit == Some(RuralUnit) && CountUsersByUnit(db.users, RuralUnit) > 0 then Failure(RuralTaken)
      else
        match CreateEditor(db, username.value, hash(password.value), unit)
        case Success(next) => Success(next)
        case Failure(_) => Failure(UsernameTaken)
  }

  /** Appending a user adds one to its unit's count and nothing to the others. */
  lemma CountAfterAppend(users: seq<User>, user: User, unitId: int)
    ensures CountUsersByUnit(users + [user], unitId)
      == CountUsersByUnit(users, unitId) + (if user.unitId == Some(unitId) then 1 else 0)
  {
    assert (users + [user])[..|users|] == users;
  }

  /** User creation never gives the rural unit a second user. */
  lemma CreateUserKeepsRuralUnique(db: Db, username: Option<string>, password: Option<string>, unitText: Option<string>,
                                   hash: string -> string)
    requires CountUsersByUnit(db.users, RuralUnit) <= 1
    ensures var r := CreateUserRoute(db, username, password, unitText, hash);
      r.Success? ==> CountUsersByUnit(r.value.users, RuralUnit) <= 1
  {
    var r := CreateUserRoute(db, username, password, unitText, hash);
    if r.Success? {
      var user := User(db.nextUserId, username.value, hash(password.value), Editor, ParseInt(unitText.value));
      CountAfterAppend(db.users, user, RuralUnit);
    }
  }

  /**
   * `POST /admin/users/delete/:id`: delete the user with the parsed id, unless there
   * is none or it is an administrator.
   */
  function DeleteUserRoute(db: Db, idText: string): (r: Db)
    ensures r == db.(users := r.users)
    ensures GetUserById(db, ParseInt(idText)).None? ==> r == db
    ensures GetUserById(db, ParseInt(idText)).Some? && GetUserById(db, ParseInt(idText)).value.role == Admin ==> r == db
    ensures GetUserById(db, ParseInt(idText)).Some? && GetUserById(db, ParseInt(idText)).value.role == Editor ==>
      forall x :: x in r.users <==> x in db.users && x.id != ParseInt(idText).value
    ensures Valid(db) ==> Valid(r)
  {
    var id := ParseInt(idText);
    match GetUserById(db, id)
    case None => db
    case Some(user) => if user.role == Admin then db else DeleteUserById(db, id.value)
  }

  /** Under the invariant ids are unique, so no administrator is ever deleted. */
  lemma DeleteUserRouteKeepsAdmins(db: Db, idText: string)
    requires Valid(db)
    ensures forall x :: x in db.users && x.role == Admin ==> x in DeleteUserRoute(db, idText).users
  {
    var id := ParseInt(idText);
    forall x | x in db.users && x.role == Admin
      ensures x in DeleteUserRoute(db, idText).users
    {
      var found := GetUserById(db, id);
      if found.Some? && found.value.role == Editor && x.id == id.value {
        SameIdSameUser(db.users, x, found.value);
      }
    }
  }

  /** Two users of an id-ordered table with the same id are the same row. */
  lemma SameIdSameUser(users: seq<User>, x: User, y: User)
    requires IdsIncreasing(users) && x in users && y in users && x.id == y.id
    ensures x == y
  {
    var i :| 0 <= i < |users| && users[i] == x;
    var j :| 0 <= j < |users| && users[j] == y;
    assert !(i < j) && !(j < i);
  }

  /**
   * `POST /admin/users/update`: with both fields present, set the password hash of the
   * user with the parsed id (a `NaN` id changes nothing).
   */
  function UpdatePasswordRoute(db: Db, idText: Option<string>, password: Option<string>, hash: string -> string): (r: Db)
    ensures r == db.(users := r.users)
    ensures Blank(idText) || Blank(password) ==> r == db
    ensures |r.users| == |db.users|
    ensures forall i :: 0 <= i < |db.users| ==> (r.users[i] ==
      if !Blank(idText) && !Blank(password) && ParseInt(idText.value) == Some(db.users[i].id)
      then db.users[i].(passwordHash := hash(password.value)) else db.users[i])
    ensures Valid(db) ==> Valid(r)
  {
    if Blank(idText) || Blank(password) then db
    else
      UpdateUserPasswordValidIf(db, ParseInt(idText.value), hash(password.value));
      UpdateUserPassword(db, ParseInt(idText.value), hash(password.value))
  }

  lemma UpdateUserPasswordValidIf(db: Db, id: Option<int>, passwordHash: string)
    ensures Valid(db) ==> Valid(UpdateUserPassword(db, id, passwordHash))
  {
    if Valid(db) {
      UpdateUserPasswordValid(db, id, passwordHash);
    }
  }

  // ---------------------------------------------------------------- locks

  /** The day keys of a grid. */
  function DayKeys(days: seq<Day>): set<string> {
    set j | 0 <= j < |days| :: days[j].iso
  }

  /** `days.forEach((d) => db.lockDate(d.iso))`. */
  function LockAll(db: Db, days: seq<Day>): (r: Db)
    ensures r == db.(locks := db.locks + DayKeys(days))
    decreases |days|
  {
    if |days| == 0 then db
    else
      assert DayKeys(days) == {days[0].iso} + DayKeys(days[1..]) by {
        forall x | x in DayKeys(days)
          ensures x in {days[0].iso} + DayKeys(days[1..])
        {
          var j :| 0 <= j < |days| && days[j].iso == x;
          if j > 0 {
            assert days[1..][j - 1].iso == x;
          }
        }
      }
      LockAll(LockDate(db, days[0].iso), days[1..])
  }

  /** `days.forEach((d) => db.unlockDate(d.iso))`. */
  function UnlockAll(db: Db, days: seq<Day>): (r: Db)
    ensures r == db.(locks := db.locks - DayKeys(days))
    decreases |days|
  {
    if |days| == 0 then db
    else
      assert DayKeys(days) == {days[0].iso} + DayKeys(days[1..]) by {
        forall x | x in DayKeys(days)
          ensures x in {days[0].iso} + DayKeys(days[1..])
        {
          var j :| 0 <= j < |days| && days[j].iso == x;
          if j > 0 {
            assert days[1..][j - 1].iso == x;
          }
        }
      }
      UnlockAll(UnlockDate(db, days[0].iso), days[1..])
  }

  /** `POST /admin/lock-month/:ym`: afterwards every day of the month is locked and no other lock changed. */
  function LockMonth(db: Db, ym: string): (r: Db)
    ensures r == db.(locks := r.locks)
    ensures forall d :: IsDateLocked(r, d) <==> IsDateLocked(db, d) || IsDayOfMonth(ym, d)
  {
    var days := DaysOfMonthText(ym);
    MonthDayKeys(ym);
    LockAll(db, days)
  }

  /** `POST /admin/unlock-month/:ym`: afterwards no day of the month is locked and no other lock changed. */
  function UnlockMonth(db: Db, ym: string): (r: Db)
    ensures r == db.(locks := r.locks)
    ensures forall d :: IsDateLocked(r, d) <==> IsDateLocked(db, d) && !IsDayOfMonth(ym, d)
  {
    var days := DaysOfMonthText(ym);
    MonthDayKeys(ym);
    UnlockAll(db, days)
  }

  /** The days `IsDayOfMonth` admits are exactly the keys of the month's grid. */
  lemma MonthDayKeys(ym: string)
    ensures forall d :: IsDayOfMonth(ym, d) <==> d in DayKeys(DaysOfMonthText(ym))
  {
  }

  /** Unlocking a month that had no locked day undoes locking it. */
  lemma UnlockMonthUndoesLockMonth(db: Db, ym: string)
    requires forall d :: IsDayOfMonth(ym, d) ==> !IsDateLocked(db, d)
    ensures UnlockMonth(LockMonth(db, ym), ym) == db
  {
    var days := DaysOfMonthText(ym);
    assert forall j :: 0 <= j < |days| ==> days[j].iso !in db.locks by {
      forall j | 0 <= j < |days|
        ensures days[j].iso !in db.locks
      {
        assert IsDayOfMonth(ym, days[j].iso);
      }
    }
    UnlockAllUndoesLockAll(db, days);
  }

  lemma UnlockAllUndoesLockAll(db: Db, days: seq<Day>)
    requires forall j :: 0 <= j < |days| ==> days[j].iso !in db.locks
    ensures UnlockAll(LockAll(db, days), days) == db
  {
    var keys := DayKeys(days);
    assert keys !! db.locks;
    assert (db.locks + keys) - keys == db.locks;
  }

  /**
   * Once a month is locked, a save posted with that month's canonical text changes no
   * count. A non-canonical text such as "2024-3" escapes the locks (see `SaveAsWritten`).
   */
  lemma LockMonthFreezesSave(db: Db, unitId: int, ym: string, c: Catalog, body: Body)
    requires CanonicalMonth(ym) == ym
    ensures var locked := LockMonth(db, ym);
      forall u, d :: Lookup(SaveAsWritten(locked, unitId, ym, c, body).counts, u, d) == Lookup(db.counts, u, d)
  {
    SaveAsWrittenOnCanonical(LockMonth(db, ym), unitId, ym, c, body);
  }

  /** With the month read consistently, locking a month freezes it for every month text. */
  lemma LockMonthFreezesCorrectedSave(db: Db, unitId: int, ym: string, c: Catalog, body: Body)
    ensures var locked := LockMonth(db, ym);
      forall u, d :: Lookup(Save(locked, unitId, ym, c, body).counts, u, d) == Lookup(db.counts, u, d)
  {
  }

  /** `date.substring(0, 7)`: the month the lock pages return to. */
  function MonthOfDate(date: string): (ym: string)
    ensures |date| >= 7 ==> |ym| == 7 && date == ym + date[7..]
    ensures |date| < 7 ==> ym == date
  {
    if |date| >= 7 then date[..7] else date
  }

  /** For a four-digit year, the lock and unlock routes return to the page of the date's own month. */
  lemma MonthOfDayKey(y: int, m: int, i: int)
    requires 1000 <= y <= 9999 && 1 <= m <= 12 && 0 <= i < |DaysOfMonth(y, m)|
    ensures MonthOfDate(DaysOfMonth(y, m)[i].iso) == MonthText(y, m)
  {
    FourDigitYearKeys(y, m);
  }

  // ---------------------------------------------------------------- editor

  /**
   * `POST /editor/save` behind `requireEditor`: the month is the posted one, or the
   * current one when none is posted. Locks and previous counts are read with that text
   * as it stands, so only the locks listed under it are honoured; for the current month
   * and every canonical posted month that is every lock of the month.
   */
  function EditorSaveRoute(db: Db, s: SessionUser, month: Option<string>, nowYear: int, nowMonthIndex: int,
                           c: Catalog, body: Body): (r: Db)
    requires RequireEditor(Some(s)) && s.unitId.Some?
    requires nowYear >= 0 && 0 <= nowMonthIndex < 12
    ensures r == db.(counts := r.counts)
    ensures UniqueCounts(db.counts) ==> UniqueCounts(r.counts)
    ensures forall u, d :: !InScope(c, s.unitId.value, u) ==> Lookup(r.counts, u, d) == Lookup(db.counts, u, d)
    ensures forall u, d :: d in LockedDatesForMonth(db, MonthFromQuery(month, nowYear, nowMonthIndex)) ==>
      Lookup(r.counts, u, d) == Lookup(db.counts, u, d)
    ensures Blank(month) ==> forall u, d :: !IsDayOfMonth(MonthText(nowYear, nowMonthIndex + 1), d) ==>
      Lookup(r.counts, u, d) == Lookup(db.counts, u, d)
    ensures Blank(month) || CanonicalMonth(month.value) == month.value ==>
      && r == Save(db, s.unitId.value, MonthFromQuery(month, nowYear, nowMonthIndex), c, body)
      && forall u, d :: IsDateLocked(db, d) ==> Lookup(r.counts, u, d) == Lookup(db.counts, u, d)
  {
    var ym := MonthFromQuery(month, nowYear, nowMonthIndex);
    var r := SaveAsWritten(db, s.unitId.value, ym, c, body);
    if CanonicalMonth(ym) == ym then
      SaveAsWrittenOnCanonical(db, s.unitId.value, ym, c, body);
      r
    else r
  }

  /**
   * The route as written: an editor of unit 1001 posting month "2024-3" overwrites the
   * locked row of 5 March 2024 and zeroes its unsubmitted electronic count.
   */
  lemma EditorSaveRouteIgnoresLock()
    ensures var date := "2024-03-05";
      var db := Db([], 1, map[], [CountRow(1001, date, Some(1), Some(1))], {date});
      var body := Body(Some(Group(map[date := Value("9")])), None);
      var r := EditorSaveRoute(db, SessionUser(2, Editor, Some(1001)), Some("2024-3"), 2024, 9, Catalog([], map[]), body);
      && IsDateLocked(db, date)
      && Lookup(r.counts, 1001, date) == Some(CountRow(1001, date, Some(9), Some(0)))
  {
    SaveAsWrittenIgnoresLock();
  }
}
