/**
 * The editor's save (`POST /editor/save`): for every day of the month that is not
 * locked, store the submitted manual and electronic counts, keeping the previous value
 * of a field that was not submitted or submitted empty. The rural editor (unit 4000)
 * does this for every other unit of area 4.
 */
module EditorSave {
  import opened Common
  import opened Text
  import opened Catalog
  import opened Calendar
  import opened Store

  /** A decoded form value: a text, or a group of named values (`manual[4001][2024-03-05]=5`). */
  datatype Entry = Value(text: string) | Group(fields: map<string, Entry>)

  /** The two count families of the request body, each absent when not posted. */
  datatype Body = Body(manual: Option<Entry>, electronic: Option<Entry>)

  /** `obj[key]` where `obj` is `body.x || {}`: only a group has members; a text yields `undefined`. */
  function Member(e: Option<Entry>, key: string): Option<Entry> {
    if e.Some? && e.value.Group? && key in e.value.fields then Some(e.value.fields[key]) else None
  }

  /** The text `parseInt` sees for a value: a group stringifies to "[object Object]". */
  function Render(e: Entry): string {
    match e
    case Value(t) => t
    case Group(_) => "[object Object]"
  }

  /** The raw submitted field `obj[key]`, `None` for `undefined`. */
  function Raw(e: Option<Entry>, key: string): Option<string> {
    match Member(e, key)
    case None => None
    case Some(v) => Some(Render(v))
  }

  /**
   * `(raw !== undefined && raw !== '') ? parseInt(raw, 10) || 0 : prev`: a missing or
   * empty field keeps the previous count; any other text is parsed, and text that holds
   * no number (after white space and a sign) stores 0.
   */
  function Merge(raw: Option<string>, prev: int): (r: int)
    ensures raw.None? || raw == Some("") ==> r == prev
    ensures raw.Some? && raw.value != "" && ParseInt(raw.value).Some? ==> r == ParseInt(raw.value).value
    ensures raw.Some? && raw.value != "" && ParseInt(raw.value).None? ==> r == 0
  {
    if raw.Some? && raw.value != "" then ParseIntOrZero(raw.value) else prev
  }

  /** The row one day's save writes, given the previous counts `prev`. */
  function Target(unitId: int, date: string, prev: Tally, manual: Option<Entry>, electronic: Option<Entry>): CountRow {
    CountRow(unitId, date, Some(Merge(Raw(manual, date), prev.manual)), Some(Merge(Raw(electronic, date), prev.electronic)))
  }

  /** `date` is one of the days and not in the lock set: the save visits it. */
  predicate Writes(days: seq<Day>, lockSet: set<string>, date: string) {
    date !in lockSet && exists j :: 0 <= j < |days| && days[j].iso == date
  }

  lemma WritesTail(days: seq<Day>, lockSet: set<string>)
    requires |days| > 0
    ensures forall d :: Writes(days[1..], lockSet, d) ==> Writes(days, lockSet, d)
    ensures forall d :: Writes(days, lockSet, d) && d != days[0].iso ==> Writes(days[1..], lockSet, d)
  {
    forall d | Writes(days[1..], lockSet, d)
      ensures Writes(days, lockSet, d)
    {
      var j :| 0 <= j < |days[1..]| && days[1..][j].iso == d;
      assert days[j + 1].iso == d;
    }
    forall d | Writes(days, lockSet, d) && d != days[0].iso
      ensures Writes(days[1..], lockSet, d)
    {
      var j :| 0 <= j < |days| && days[j].iso == d;
      assert j > 0 && days[1..][j - 1].iso == d;
    }
  }

  /**
   * One unit's pass over the days (`days.forEach`): skip locked days, otherwise upsert
   * the merge of the submitted fields with the counts read before the pass, found in
   * `prevs` under `keyPrefix + date`.
   */
  function SaveDays(db: Db, unitId: int, days: seq<Day>, lockSet: set<string>, prevs: map<string, Tally>,
                    keyPrefix: string, manual: Option<Entry>, electronic: Option<Entry>): (r: Db)
    ensures r == db.(counts := r.counts)
    ensures UniqueCounts(db.counts) ==> UniqueCounts(r.counts)
    ensures forall u, d :: !(u == unitId && Writes(days, lockSet, d)) ==>
      Lookup(r.counts, u, d) == Lookup(db.counts, u, d)
    decreases |days|
  {
    if |days| == 0 then db
    else
      var date := days[0].iso;
      var next := if date in lockSet then db
        else UpsertCount(db, unitId, date, Target(unitId, date, TallyOr(prevs, keyPrefix + date), manual, electronic).manual.value,
                         Target(unitId, date, TallyOr(prevs, keyPrefix + date), manual, electronic).electronic.value);
      WritesTail(days, lockSet);
      SaveDays(next, unitId, days[1..], lockSet, prevs, keyPrefix, manual, electronic)
  }

  /** Every unlocked day of the pass ends holding the merged counts. */
  lemma {:induction false} SaveDaysWrites(db: Db, unitId: int, days: seq<Day>, lockSet: set<string>, prevs: map<string, Tally>,
                                         keyPrefix: string, manual: Option<Entry>, electronic: Option<Entry>)
    ensures forall j :: 0 <= j < |days| && days[j].iso !in lockSet ==>
      Lookup(SaveDays(db, unitId, days, lockSet, prevs, keyPrefix, manual, electronic).counts, unitId, days[j].iso)
        == Some(Target(unitId, days[j].iso, TallyOr(prevs, keyPrefix + days[j].iso), manual, electronic))
    decreases |days|
  {
    if |days| > 0 {
      var date := days[0].iso;
      var t := Target(unitId, date, TallyOr(prevs, keyPrefix + date), manual, electronic);
      var next := if date in lockSet then db else UpsertCount(db, unitId, date, t.manual.value, t.electronic.value);
      var r := SaveDays(db, unitId, days, lockSet, prevs, keyPrefix, manual, electronic);
      assert r == SaveDays(next, unitId, days[1..], lockSet, prevs, keyPrefix, manual, electronic);
      SaveDaysWrites(next, unitId, days[1..], lockSet, prevs, keyPrefix, manual, electronic);
      forall j | 0 <= j < |days| && days[j].iso !in lockSet
        ensures Lookup(r.counts, unitId, days[j].iso) == Some(Target(unitId, days[j].iso, TallyOr(prevs, keyPrefix + days[j].iso), manual, electronic))
      {
        if j > 0 {
          assert days[1..][j - 1] == days[j];
        } else if Writes(days[1..], lockSet, date) {
          var k :| 0 <= k < |days[1..]| && days[1..][k].iso == date;
        } else {
          assert Lookup(next.counts, unitId, date) == Some(t);
        }
      }
    }
  }

  lemma CoversTail(units: seq<CatalogUnit>)
    requires |units| > 0
    ensures forall u :: Covers(units[1..], u) ==> Covers(units, u)
  {
    forall u | Covers(units[1..], u)
      ensures Covers(units, u)
    {
      var k :| 0 <= k < |units[1..]| && units[1..][k].id == u;
      assert units[k + 1].id == u;
    }
  }

  /** The rural pass (`areaUnits.forEach`): one `SaveDays` per unit other than 4000, with that unit's fields. */
  function SaveUnits(db: Db, units: seq<CatalogUnit>, days: seq<Day>, lockSet: set<string>, prevs: map<string, Tally>,
                     manual: Option<Entry>, electronic: Option<Entry>): (r: Db)
    ensures r == db.(counts := r.counts)
    ensures UniqueCounts(db.counts) ==> UniqueCounts(r.counts)
    ensures forall u, d :: !(Covers(units, u) && Writes(days, lockSet, d)) ==>
      Lookup(r.counts, u, d) == Lookup(db.counts, u, d)
    decreases |units|
  {
    if |units| == 0 then db
    else
      var u := units[0];
      var key := Str(u.id);
      var next := if u.id == RuralUnit then db
        else SaveDays(db, u.id, days, lockSet, prevs, key + "|", Member(manual, key), Member(electronic, key));
      CoversTail(units);
      SaveUnits(next, units[1..], days, lockSet, prevs, manual, electronic)
  }

  /** Every covered unit ends holding, on every unlocked day, the merge of its own fields. */
  lemma {:induction false} SaveUnitsWrites(db: Db, units: seq<CatalogUnit>, days: seq<Day>, lockSet: set<string>,
                                          prevs: map<string, Tally>, manual: Option<Entry>, electronic: Option<Entry>)
    ensures forall k, j :: 0 <= k < |units| && units[k].id != RuralUnit && 0 <= j < |days| && days[j].iso !in lockSet ==>
      Lookup(SaveUnits(db, units, days, lockSet, prevs, manual, electronic).counts, units[k].id, days[j].iso)
        == Some(Target(units[k].id, days[j].iso, TallyOr(prevs, MonthKey(units[k].id, days[j].iso)),
                       Member(manual, Str(units[k].id)), Member(electronic, Str(units[k].id))))
    decreases |units|
  {
    if |units| > 0 {
      var u := units[0];
      var key := Str(u.id);
      var next := if u.id == RuralUnit then db
        else SaveDays(db, u.id, days, lockSet, prevs, key + "|", Member(manual, key), Member(electronic, key));
      var r := SaveUnits(db, units, days, lockSet, prevs, manual, electronic);
      assert r == SaveUnits(next, units[1..], days, lockSet, prevs, manual, electronic);
      SaveUnitsWrites(next, units[1..], days, lockSet, prevs, manual, electronic);
      if u.id != RuralUnit {
        SaveDaysWrites(db, u.id, days, lockSet, prevs, key + "|", Member(manual, key), Member(electronic, key));
      }
      forall k, j | 0 <= k < |units| && units[k].id != RuralUnit && 0 <= j < |days| && days[j].iso !in lockSet
        ensures Lookup(r.counts, units[k].id, days[j].iso)
          == Some(Target(units[k].id, days[j].iso, TallyOr(prevs, MonthKey(units[k].id, days[j].iso)),
                         Member(manual, Str(units[k].id)), Member(electronic, Str(units[k].id))))
      {
        if k > 0 {
          assert units[1..][k - 1] == units[k];
        } else if !Covers(units[1..], u.id) {
          assert Writes(days, lockSet, days[j].iso);
          assert Lookup(r.counts, u.id, days[j].iso) == Lookup(next.counts, u.id, days[j].iso);
        } else {
          var k' :| 0 <= k' < |units[1..]| && units[1..][k'].id == u.id;
        }
      }
    }
  }

  /**
   * The handler's body once the lock set and the previous counts have been read with
   * the month text `queryYm` and the day grid `days` computed.
   */
  function SaveWith(db: Db, unitId: int, queryYm: string, days: seq<Day>, c: Catalog, body: Body): Db {
    var lockSet := LockedDatesForMonth(db, queryYm);
    if unitId == RuralUnit then
      SaveUnits(db, AreaUnits(c, RuralArea), days, lockSet, CountsForMonth(db.counts, queryYm), body.manual, body.electronic)
    else
      SaveDays(db, unitId, days, lockSet, CountsForUnitMonth(db.counts, unitId, queryYm), "", body.manual, body.electronic)
  }

  /**
   * `POST /editor/save` as written: locks and previous counts are read with the posted
   * month text itself, while the days are re-rendered from the numbers in it.
   */
  function SaveAsWritten(db: Db, unitId: int, ym: string, c: Catalog, body: Body): (r: Db)
    ensures r == db.(counts := r.counts)
    ensures UniqueCounts(db.counts) ==> UniqueCounts(r.counts)
    ensures forall u, d :: !(InScope(c, unitId, u) && IsDayOfMonth(ym, d) && d !in LockedDatesForMonth(db, ym)) ==>
      Lookup(r.counts, u, d) == Lookup(db.counts, u, d)
  {
    SaveWith(db, unitId, ym, DaysOfMonthText(ym), c, body)
  }

  /** On a canonical month text ("2024-03", not "2024-3") the save as written is the corrected one. */
  lemma SaveAsWrittenOnCanonical(db: Db, unitId: int, ym: string, c: Catalog, body: Body)
    requires CanonicalMonth(ym) == ym
    ensures SaveAsWritten(db, unitId, ym, c, body) == Save(db, unitId, ym, c, body)
  {
  }

  /** The units a save by `editorUnit` may change. */
  predicate InScope(c: Catalog, editorUnit: int, unitId: int) {
    if editorUnit == RuralUnit then RuralScope(c, unitId) else unitId == editorUnit
  }

  /** `date` is a day of the month `ym` names. */
  predicate IsDayOfMonth(ym: string, date: string) {
    exists j :: 0 <= j < |DaysOfMonthText(ym)| && DaysOfMonthText(ym)[j].iso == date
  }

  /** The raw field the handler reads for unit `unitId` on `date` out of `family`. */
  function Submitted(family: Option<Entry>, editorUnit: int, unitId: int, date: string): Option<string> {
    if editorUnit == RuralUnit then Raw(Member(family, Str(unitId)), date) else Raw(family, date)
  }

  /**
   * `POST /editor/save` with the month read consistently: locks and previous counts are
   * looked up under the canonical month text the day keys carry.
   *
   * Only rows of units in the editor's scope, on unlocked days of the month, change;
   * locked dates in particular keep their rows. Each of those rows ends holding, per
   * field, the previous count (0 when there was no row) if the field was missing or
   * empty, and the parsed submitted value otherwise.
   */
  function Save(db: Db, unitId: int, ym: string, c: Catalog, body: Body): (r: Db)
    ensures r == db.(counts := r.counts)
    ensures UniqueCounts(db.counts) ==> UniqueCounts(r.counts)
    ensures forall u, d :: !(InScope(c, unitId, u) && IsDayOfMonth(ym, d) && d !in db.locks) ==>
      Lookup(r.counts, u, d) == Lookup(db.counts, u, d)
    ensures UniqueCounts(db.counts) ==>
      forall u, d :: InScope(c, unitId, u) && IsDayOfMonth(ym, d) && d !in db.locks ==>
        Lookup(r.counts, u, d) == Some(Expected(db, unitId, u, d, body))
  {
    SaveCorrect(db, unitId, ym, c, body);
    SaveWith(db, unitId, CanonicalMonth(ym), DaysOfMonthText(ym), c, body)
  }

  /** The merged row the corrected save leaves for unit `u` on `date`. */
  function Expected(db: Db, editorUnit: int, u: int, date: string, body: Body): CountRow {
    CountRow(u, date,
      Some(Merge(Submitted(body.manual, editorUnit, u, date), Stored(db.counts, u, date).manual)),
      Some(Merge(Submitted(body.electronic, editorUnit, u, date), Stored(db.counts, u, date).electronic)))
  }

  /** Every day key of `ym` starts with its canonical month text. */
  lemma DayKeysCanonical(ym: string)
    ensures forall j :: 0 <= j < |DaysOfMonthText(ym)| ==> HasPrefix(DaysOfMonthText(ym)[j].iso, CanonicalMonth(ym) + "-")
  {
    if ParseMonth(ym).Some? {
      DayKeysInMonth(ParseMonth(ym).value.0, ParseMonth(ym).value.1);
    }
  }

  /** Read with the canonical month, the save visits exactly the unlocked days of the month. */
  lemma WritesCanonical(db: Db, ym: string)
    ensures forall d :: (Writes(DaysOfMonthText(ym), LockedDatesForMonth(db, CanonicalMonth(ym)), d)
      <==> IsDayOfMonth(ym, d) && d !in db.locks)
  {
    DayKeysCanonical(ym);
  }

  lemma SaveRuralCorrect(db: Db, ym: string, c: Catalog, body: Body)
    requires UniqueCounts(db.counts)
    ensures forall u, d :: InScope(c, RuralUnit, u) && IsDayOfMonth(ym, d) && d !in db.locks ==>
      Lookup(SaveWith(db, RuralUnit, CanonicalMonth(ym), DaysOfMonthText(ym), c, body).counts, u, d)
        == Some(Expected(db, RuralUnit, u, d, body))
  {
    var days := DaysOfMonthText(ym);
    var canon := CanonicalMonth(ym);
    var lockSet := LockedDatesForMonth(db, canon);
    var units := AreaUnits(c, RuralArea);
    var prevs := CountsForMonth(db.counts, canon);
    var r := SaveUnits(db, units, days, lockSet, prevs, body.manual, body.electronic);
    DayKeysCanonical(ym);
    SaveUnitsWrites(db, units, days, lockSet, prevs, body.manual, body.electronic);
    forall u, d | InScope(c, RuralUnit, u) && IsDayOfMonth(ym, d) && d !in db.locks
      ensures Lookup(r.counts, u, d) == Some(Expected(db, RuralUnit, u, d, body))
    {
      var k :| 0 <= k < |units| && units[k].id == u;
      var j :| 0 <= j < |days| && days[j].iso == d;
      assert d in lockSet <==> d in db.locks;
      CountsForMonthAgrees(db.counts, canon, u, d);
    }
  }

  lemma SaveUnitCorrect(db: Db, unitId: int, ym: string, c: Catalog, body: Body)
    requires UniqueCounts(db.counts) && unitId != RuralUnit
    ensures forall d :: IsDayOfMonth(ym, d) && d !in db.locks ==>
      Lookup(SaveWith(db, unitId, CanonicalMonth(ym), DaysOfMonthText(ym), c, body).counts, unitId, d)
        == Some(Expected(db, unitId, unitId, d, body))
  {
    var days := DaysOfMonthText(ym);
    var canon := CanonicalMonth(ym);
    var lockSet := LockedDatesForMonth(db, canon);
    var prevs := CountsForUnitMonth(db.counts, unitId, canon);
    var r := SaveDays(db, unitId, days, lockSet, prevs, "", body.manual, body.electronic);
    assert SaveWith(db, unitId, canon, days, c, body) == r;
    DayKeysCanonical(ym);
    SaveDaysWrites(db, unitId, days, lockSet, prevs, "", body.manual, body.electronic);
    forall d | IsDayOfMonth(ym, d) && d !in db.locks
      ensures Lookup(r.counts, unitId, d) == Some(Expected(db, unitId, unitId, d, body))
    {
      var j :| 0 <= j < |days| && days[j].iso == d;
      assert d !in lockSet;
      UnitDay(db.counts, unitId, canon, d);
    }
  }

  lemma UnitDay(rows: seq<CountRow>, unitId: int, canon: string, d: string)
    requires UniqueCounts(rows) && HasPrefix(d, canon + "-")
    ensures TallyOr(CountsForUnitMonth(rows, unitId, canon), "" + d) == Stored(rows, unitId, d)
  {
    assert "" + d == d;
    CountsForUnitMonthAgrees(rows, canon, unitId, d);
  }

  lemma SaveCorrect(db: Db, unitId: int, ym: string, c: Catalog, body: Body)
    ensures var r := SaveWith(db, unitId, CanonicalMonth(ym), DaysOfMonthText(ym), c, body);
      && (forall u, d :: !(InScope(c, unitId, u) && IsDayOfMonth(ym, d) && d !in db.locks) ==>
            Lookup(r.counts, u, d) == Lookup(db.counts, u, d))
      && (UniqueCounts(db.counts) ==>
            forall u, d :: InScope(c, unitId, u) && IsDayOfMonth(ym, d) && d !in db.locks ==>
              Lookup(r.counts, u, d) == Some(Expected(db, unitId, u, d, body)))
  {
    WritesCanonical(db, ym);
    if UniqueCounts(db.counts) {
      if unitId == RuralUnit {
        SaveRuralCorrect(db, ym, c, body);
      } else {
        SaveUnitCorrect(db, unitId, ym, c, body);
      }
    }
  }

  /**
   * The posted month "2024-3" names March 2024, so the grid holds "2024-03-05"; but the
   * lock list and the previous counts are read for dates starting "2024-3-", which no
   * day key does. As written, the save overwrites the locked row of 5 March and zeroes
   * its unsubmitted electronic count; the corrected save leaves it alone.
   */
  lemma SaveAsWrittenIgnoresLock()
    ensures var date := "2024-03-05";
      var db := Db([], 1, map[], [CountRow(1001, date, Some(1), Some(1))], {date});
      var body := Body(Some(Group(map[date := Value("9")])), None);
      var c := Catalog([], map[]);
      && Lookup(SaveAsWritten(db, 1001, "2024-3", c, body).counts, 1001, date) == Some(CountRow(1001, date, Some(9), Some(0)))
      && Lookup(Save(db, 1001, "2024-3", c, body).counts, 1001, date) == Some(CountRow(1001, date, Some(1), Some(1)))
  {
    var date := "2024-03-05";
    var db := Db([], 1, map[], [CountRow(1001, date, Some(1), Some(1))], {date});
    var body := Body(Some(Group(map[date := Value("9")])), None);
    AsWrittenOverwrites(db, body, "2024-3", date);
    CorrectedKeeps(db, body);
  }

  lemma AsWrittenOverwrites(db: Db, body: Body, ym: string, date: string)
    requires ym == "2024-3" && date == "2024-03-05"
    requires db.counts == [CountRow(1001, date, Some(1), Some(1))] && db.locks == {date}
    requires body == Body(Some(Group(map[date := Value("9")])), None)
    ensures Lookup(SaveAsWritten(db, 1001, ym, Catalog([], map[]), body).counts, 1001, date)
      == Some(CountRow(1001, date, Some(9), Some(0)))
  {
    assert |DaysOfMonthText(ym)| == 31 && DaysOfMonthText(ym)[4].iso == date by {
      MarchFifth();
    }
    AsWrittenReadsNothing(db, ym, date);
    NineWritten(db, body, ym, date, DaysOfMonthText(ym));
  }

  /** With nothing read for the day, posting "9" for it stores (9, 0). */
  lemma NineWritten(db: Db, body: Body, ym: string, date: string, days: seq<Day>)
    requires |days| > 4 && days[4].iso == date
    requires date !in LockedDatesForMonth(db, ym) && date !in CountsForUnitMonth(db.counts, 1001, ym)
    requires body == Body(Some(Group(map[date := Value("9")])), None)
    ensures Lookup(SaveWith(db, 1001, ym, days, Catalog([], map[]), body).counts, 1001, date)
      == Some(CountRow(1001, date, Some(9), Some(0)))
  {
    SingleUnitWrite(db, 1001, ym, days, Catalog([], map[]), body, 4);
    assert Raw(body.manual, date) == Some("9");
    NineParses();
  }

  /** Read with "2024-3", neither the lock of 5 March nor its stored row is found. */
  lemma AsWrittenReadsNothing(db: Db, ym: string, date: string)
    requires ym == "2024-3" && date == "2024-03-05"
    requires db.counts == [CountRow(1001, date, Some(1), Some(1))]
    ensures date !in LockedDatesForMonth(db, ym)
    ensures date !in CountsForUnitMonth(db.counts, 1001, ym)
  {
    RawMonthMissesKey(ym, date);
    assert !InMonth(db.counts[0], ym);
  }

  /** Outside the rural branch, an unlocked day of the grid ends holding the merge with the counts read for `queryYm`. */
  lemma SingleUnitWrite(db: Db, unitId: int, queryYm: string, days: seq<Day>, c: Catalog, body: Body, j: int)
    requires unitId != RuralUnit && 0 <= j < |days| && days[j].iso !in LockedDatesForMonth(db, queryYm)
    ensures Lookup(SaveWith(db, unitId, queryYm, days, c, body).counts, unitId, days[j].iso)
      == Some(Target(unitId, days[j].iso, TallyOr(CountsForUnitMonth(db.counts, unitId, queryYm), days[j].iso),
                     body.manual, body.electronic))
  {
    var lockSet := LockedDatesForMonth(db, queryYm);
    var prevs := CountsForUnitMonth(db.counts, unitId, queryYm);
    var r := SaveDays(db, unitId, days, lockSet, prevs, "", body.manual, body.electronic);
    assert SaveWith(db, unitId, queryYm, days, c, body) == r;
    SaveDaysWrites(db, unitId, days, lockSet, prevs, "", body.manual, body.electronic);
    var date := days[j].iso;
    assert "" + date == date;
    assert Lookup(r.counts, unitId, date) == Some(Target(unitId, date, TallyOr(prevs, "" + date), body.manual, body.electronic));
  }

  lemma CorrectedKeeps(db: Db, body: Body)
    requires db.counts == [CountRow(1001, "2024-03-05", Some(1), Some(1))] && db.locks == {"2024-03-05"}
    ensures Lookup(Save(db, 1001, "2024-3", Catalog([], map[]), body).counts, 1001, "2024-03-05")
      == Some(CountRow(1001, "2024-03-05", Some(1), Some(1)))
  {
    assert Lookup(db.counts, 1001, "2024-03-05") == Some(db.counts[0]) by {
      FirstIndexAt(db.counts, KeyIs(1001, "2024-03-05"), 0);
    }
  }

  /** "2024-3" parses to March 2024, whose fifth day has the key "2024-03-05". */
  lemma MarchFifth()
    ensures |DaysOfMonthText("2024-3")| == 31 && DaysOfMonthText("2024-3")[4].iso == "2024-03-05"
  {
    PostedMonthParses();
    MarchLength();
    MarchFifthKey();
  }

  lemma PostedMonthParses()
    ensures ParseMonth("2024-3") == Some((2024, 3))
  {
    StrOf2024();
    assert Str(3) == "3";
    assert "2024-3" == Str(2024) + "-" + Str(3);
    SeparatorNotInStr(2024, '-');
    SeparatorNotInStr(3, '-');
    ParseMonthOfParts(Str(2024), Str(3));
    ParseIntOfStr(2024);
    ParseIntOfStr(3);
  }

  lemma MarchLength()
    ensures LastDay(2024, 3) == 31
  {
  }

  lemma MarchFifthKey()
    ensures DayOf(2024, 3, 5).iso == "2024-03-05"
  {
    StrOf2024();
    assert Pad2(3) == "03" && Pad2(5) == "05";
  }

  lemma StrOf2024()
    ensures Str(2024) == "2024"
  {
    assert NatStr(2) == "2";
    assert NatStr(20) == "20";
    assert NatStr(202) == "202";
  }

  lemma RawMonthMissesKey(ym: string, date: string)
    requires ym == "2024-3" && date == "2024-03-05"
    ensures !HasPrefix(date, ym + "-") && date[..|ym|] != ym
  {
    assert (ym + "-")[5] != date[5];
    assert date[..|ym|][5] != ym[5];
  }

  lemma NineParses()
    ensures ParseInt("9") == Some(9)
  {
    assert "9" == Str(9);
    ParseIntOfStr(9);
  }
}
