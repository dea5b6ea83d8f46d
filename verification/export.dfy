/**
 * The month export (`GET /admin/export`): one sheet per area, a header row naming a
 * manual and an electronic column for every day, then one row per unit of the area
 * holding its counts, 0 where nothing is stored. The workbook encoding is left out.
 */
module Export {
  import opened Common
  import opened Text
  import opened Catalog
  import opened Calendar
  import opened Store
  import opened EditorSave

  /** A cell of the array-of-arrays grid. */
  datatype Cell = Text(text: string) | Number(value: int)

  /** One worksheet: its name and its rows. */
  datatype Sheet = Sheet(name: string, rows: seq<seq<Cell>>)

  /** The most characters a sheet name keeps. */
  const SheetNameLength: nat := 31

  /** `name.substring(0, 31)`. */
  function SheetName(name: string): (r: string)
    ensures |r| <= SheetNameLength && |r| <= |name| && r == name[..|r|]
    ensures |name| <= SheetNameLength ==> r == name
    ensures |name| > SheetNameLength ==> |r| == SheetNameLength
  {
    if |name| <= SheetNameLength then name else name[..SheetNameLength]
  }

  /** The header row of a sheet for `days`. */
  predicate HeaderRow(row: seq<Cell>, days: seq<Day>) {
    && |row| == 1 + 2 * |days|
    && row[0] == Text("UNIDAD")
    && (forall j :: 0 <= j < |days| ==>
          row[1 + 2 * j] == Text(days[j].caption + " MANUALES")
          && row[2 + 2 * j] == Text(days[j].caption + " ELECTRÓNICAS"))
  }

  /** `row` names unit `u` and shows, for every day, `tally(date)`'s two counts. */
  predicate UnitRowShows(row: seq<Cell>, u: CatalogUnit, days: seq<Day>, tally: string -> Tally) {
    && |row| == 1 + 2 * |days|
    && row[0] == Text(u.name)
    && (forall j :: 0 <= j < |days| ==>
          row[1 + 2 * j] == Number(tally(days[j].iso).manual)
          && row[2 + 2 * j] == Number(tally(days[j].iso).electronic))
  }

  /** The day columns of the header: `<caption> MANUALES`, `<caption> ELECTRÓNICAS` per day. */
  function HeaderCells(days: seq<Day>): (r: seq<Cell>)
    ensures |r| == 2 * |days|
    ensures forall j :: 0 <= j < |days| ==>
      r[2 * j] == Text(days[j].caption + " MANUALES") && r[2 * j + 1] == Text(days[j].caption + " ELECTRÓNICAS")
    decreases |days|
  {
    if |days| == 0 then []
    else
      var rest := HeaderCells(days[1..]);
      var r := [Text(days[0].caption + " MANUALES"), Text(days[0].caption + " ELECTRÓNICAS")] + rest;
      assert forall j :: 1 <= j < |days| ==> days[1..][j - 1] == days[j] && r[2 * j] == rest[2 * (j - 1)];
      r
  }

  /** The counts of unit `unitId` under `unit_id|date` in the month map, 0 where missing. */
  function Shown(counts: map<string, Tally>, unitId: int): string -> Tally {
    (date: string) => ShownOn(counts, unitId, date)
  }

  function ShownOn(counts: map<string, Tally>, unitId: int, date: string): Tally {
    TallyOr(counts, MonthKey(unitId, date))
  }

  /** The stored counts of unit `unitId`, 0 without a row. */
  function StoredOf(rows: seq<CountRow>, unitId: int): string -> Tally {
    (date: string) => Stored(rows, unitId, date)
  }

  /** A unit row's day columns: the manual and the electronic count per day. */
  function UnitCells(counts: map<string, Tally>, unitId: int, days: seq<Day>): (r: seq<Cell>)
    ensures |r| == 2 * |days|
    ensures forall j :: 0 <= j < |days| ==>
      r[2 * j] == Number(ShownOn(counts, unitId, days[j].iso).manual)
      && r[2 * j + 1] == Number(ShownOn(counts, unitId, days[j].iso).electronic)
    decreases |days|
  {
    if |days| == 0 then []
    else
      var t := ShownOn(counts, unitId, days[0].iso);
      var rest := UnitCells(counts, unitId, days[1..]);
      var r := [Number(t.manual), Number(t.electronic)] + rest;
      UnitCellsCons(counts, unitId, days, rest, r);
      r
  }

  /** Prepending the first day's two cells to the later days' cells keeps the day-by-day layout. */
  lemma UnitCellsCons(counts: map<string, Tally>, unitId: int, days: seq<Day>, rest: seq<Cell>, r: seq<Cell>)
    requires |days| > 0 && |rest| == 2 * (|days| - 1)
    requires forall j :: 0 <= j < |days| - 1 ==>
      rest[2 * j] == Number(ShownOn(counts, unitId, days[1..][j].iso).manual)
      && rest[2 * j + 1] == Number(ShownOn(counts, unitId, days[1..][j].iso).electronic)
    requires r == [Number(ShownOn(counts, unitId, days[0].iso).manual),
                   Number(ShownOn(counts, unitId, days[0].iso).electronic)] + rest
    ensures |r| == 2 * |days|
    ensures forall j :: 0 <= j < |days| ==>
      r[2 * j] == Number(ShownOn(counts, unitId, days[j].iso).manual)
      && r[2 * j + 1] == Number(ShownOn(counts, unitId, days[j].iso).electronic)
  {
    forall j | 0 < j < |days|
      ensures r[2 * j] == Number(ShownOn(counts, unitId, days[j].iso).manual)
      ensures r[2 * j + 1] == Number(ShownOn(counts, unitId, days[j].iso).electronic)
    {
      assert days[1..][j - 1] == days[j];
      assert r[2 * j] == rest[2 * (j - 1)] && r[2 * j + 1] == rest[2 * (j - 1) + 1];
    }
  }

  /** `['UNIDAD', ...]`. */
  function HeaderLine(days: seq<Day>): seq<Cell> {
    [Text("UNIDAD")] + HeaderCells(days)
  }

  /** `[u.name, ...]`. */
  function UnitLine(counts: map<string, Tally>, u: CatalogUnit, days: seq<Day>): seq<Cell> {
    [Text(u.name)] + UnitCells(counts, u.id, days)
  }

  lemma HeaderLineShaped(days: seq<Day>)
    ensures HeaderRow(HeaderLine(days), days)
  {
    var header := HeaderCells(days);
    assert forall j :: 0 <= j < |days| ==> HeaderLine(days)[1 + 2 * j] == header[2 * j] && HeaderLine(days)[2 + 2 * j] == header[2 * j + 1];
  }

  lemma UnitLineShaped(counts: map<string, Tally>, u: CatalogUnit, days: seq<Day>)
    ensures UnitRowShows(UnitLine(counts, u, days), u, days, Shown(counts, u.id))
  {
    var cells := UnitCells(counts, u.id, days);
    var line := UnitLine(counts, u, days);
    assert forall j :: 0 <= j < |days| ==> line[1 + 2 * j] == cells[2 * j] && line[2 + 2 * j] == cells[2 * j + 1];
  }

  /** One line per unit, in catalog order. */
  function UnitLines(counts: map<string, Tally>, units: seq<CatalogUnit>, days: seq<Day>): (r: seq<seq<Cell>>)
    ensures |r| == |units| && forall k :: 0 <= k < |units| ==> r[k] == UnitLine(counts, units[k], days)
  {
    seq(|units|, k requires 0 <= k < |units| => UnitLine(counts, units[k], days))
  }

  /** One area's sheet. */
  function SheetOf(area: Area, units: seq<CatalogUnit>, counts: map<string, Tally>, days: seq<Day>): Sheet {
    Sheet(SheetName(area.name),
          [HeaderLine(days)] + UnitLines(counts, units, days))
  }

  /** Every area's sheet; `unitsByArea[area.id].forEach` throws for an area with no entry. */
  function Sheets(areas: seq<Area>, c: Catalog, counts: map<string, Tally>, days: seq<Day>): (r: Option<seq<Sheet>>)
    ensures r.None? <==> exists i :: 0 <= i < |areas| && areas[i].id !in c.unitsByArea
    ensures r.Some? ==> |r.value| == |areas| && forall i :: 0 <= i < |areas| ==>
      r.value[i] == SheetOf(areas[i], c.unitsByArea[areas[i].id], counts, days)
    decreases |areas|
  {
    if |areas| == 0 then Some([])
    else if areas[0].id !in c.unitsByArea then None
    else
      match Sheets(areas[1..], c, counts, days)
      case None => None
      case Some(rest) =>
        assert forall i :: 1 <= i < |areas| ==> areas[1..][i - 1] == areas[i];
        Some([SheetOf(areas[0], c.unitsByArea[areas[0].id], counts, days)] + rest)
  }

  /** The export once the month map has been read with `queryYm` and the grid computed. */
  function ExportWith(db: Db, queryYm: string, days: seq<Day>, c: Catalog): (r: Option<seq<Sheet>>)
    ensures r.None? <==> exists i :: 0 <= i < |c.areas| && c.areas[i].id !in c.unitsByArea
    ensures r.Some? ==> |r.value| == |c.areas|
    ensures r.Some? ==> forall i :: 0 <= i < |c.areas| ==>
      && r.value[i].name == SheetName(c.areas[i].name)
      && |r.value[i].rows| == |c.unitsByArea[c.areas[i].id]| + 1
      && HeaderRow(r.value[i].rows[0], days)
      && (forall k :: 0 <= k < |c.unitsByArea[c.areas[i].id]| ==>
            UnitRowShows(r.value[i].rows[k + 1], c.unitsByArea[c.areas[i].id][k], days,
                         Shown(CountsForMonth(db.counts, queryYm), c.unitsByArea[c.areas[i].id][k].id)))
  {
    var counts := CountsForMonth(db.counts, queryYm);
    var r := Sheets(c.areas, c, counts, days);
    if r.Some? then
      AllSheetsShaped(c, counts, days);
      r
    else r
  }

  lemma AllSheetsShaped(c: Catalog, counts: map<string, Tally>, days: seq<Day>)
    ensures forall i :: 0 <= i < |c.areas| && c.areas[i].id in c.unitsByArea ==>
      SheetShape(SheetOf(c.areas[i], c.unitsByArea[c.areas[i].id], counts, days), c.unitsByArea[c.areas[i].id], counts, days)
  {
    forall i | 0 <= i < |c.areas| && c.areas[i].id in c.unitsByArea
      ensures SheetShape(SheetOf(c.areas[i], c.unitsByArea[c.areas[i].id], counts, days), c.unitsByArea[c.areas[i].id], counts, days)
    {
      SheetOfShaped(c.areas[i], c.unitsByArea[c.areas[i].id], counts, days);
    }
  }

  /** Every sheet has the header row and one row per unit showing its month counts. */
  lemma SheetOfShaped(area: Area, units: seq<CatalogUnit>, counts: map<string, Tally>, days: seq<Day>)
    ensures SheetShape(SheetOf(area, units, counts, days), units, counts, days)
  {
    SheetHeaderShaped(area, units, counts, days);
    forall k | 0 <= k < |units|
      ensures UnitRowShows(SheetOf(area, units, counts, days).rows[k + 1], units[k], days, Shown(counts, units[k].id))
    {
      SheetRowShaped(area, units, counts, days, k);
    }
  }

  lemma SheetHeaderShaped(area: Area, units: seq<CatalogUnit>, counts: map<string, Tally>, days: seq<Day>)
    ensures |SheetOf(area, units, counts, days).rows| == |units| + 1
    ensures HeaderRow(SheetOf(area, units, counts, days).rows[0], days)
  {
    HeaderLineShaped(days);
  }

  lemma SheetRowShaped(area: Area, units: seq<CatalogUnit>, counts: map<string, Tally>, days: seq<Day>, k: int)
    requires 0 <= k < |units|
    ensures UnitRowShows(SheetOf(area, units, counts, days).rows[k + 1], units[k], days, Shown(counts, units[k].id))
  {
    var lines := UnitLines(counts, units, days);
    assert SheetOf(area, units, counts, days).rows[k + 1] == lines[k];
    UnitLineShaped(counts, units[k], days);
  }

  /** The layout of one sheet. */
  predicate SheetShape(s: Sheet, units: seq<CatalogUnit>, counts: map<string, Tally>, days: seq<Day>) {
    && |s.rows| == |units| + 1
    && HeaderRow(s.rows[0], days)
    && (forall k :: 0 <= k < |units| ==> UnitRowShows(s.rows[k + 1], units[k], days, Shown(counts, units[k].id)))
  }

  /** `GET /admin/export` as written: the month map is read with the requested month text itself. */
  function ExportAsWritten(db: Db, ym: string, c: Catalog): (r: Option<seq<Sheet>>)
    ensures r.None? <==> exists i :: 0 <= i < |c.areas| && c.areas[i].id !in c.unitsByArea
    ensures r.Some? ==> |r.value| == |c.areas|
    ensures r.Some? ==> forall i :: 0 <= i < |c.areas| ==>
      && r.value[i].name == SheetName(c.areas[i].name)
      && |r.value[i].rows| == |c.unitsByArea[c.areas[i].id]| + 1
      && HeaderRow(r.value[i].rows[0], DaysOfMonthText(ym))
      && (forall k :: 0 <= k < |c.unitsByArea[c.areas[i].id]| ==>
            UnitRowShows(r.value[i].rows[k + 1], c.unitsByArea[c.areas[i].id][k], DaysOfMonthText(ym),
                         Shown(CountsForMonth(db.counts, ym), c.unitsByArea[c.areas[i].id][k].id)))
  {
    ExportWith(db, ym, DaysOfMonthText(ym), c)
  }

  /** On a canonical month text ("2024-03", not "2024-3") the export as written is the corrected one. */
  lemma ExportAsWrittenOnCanonical(db: Db, ym: string, c: Catalog)
    requires CanonicalMonth(ym) == ym
    ensures ExportAsWritten(db, ym, c) == Export(db, ym, c)
  {
  }

  /**
   * `GET /admin/export` with the month map read under the canonical month text: every
   * unit cell shows the stored count of that unit on that day, 0 where there is none.
   */
  function Export(db: Db, ym: string, c: Catalog): (r: Option<seq<Sheet>>)
    ensures r.None? <==> exists i :: 0 <= i < |c.areas| && c.areas[i].id !in c.unitsByArea
    ensures r.Some? ==> |r.value| == |c.areas|
    ensures r.Some? ==> forall i :: 0 <= i < |c.areas| ==>
      && r.value[i].name == SheetName(c.areas[i].name)
      && |r.value[i].rows| == |c.unitsByArea[c.areas[i].id]| + 1
      && HeaderRow(r.value[i].rows[0], DaysOfMonthText(ym))
    ensures UniqueCounts(db.counts) && r.Some? ==> forall i, k ::
      0 <= i < |c.areas| && 0 <= k < |c.unitsByArea[c.areas[i].id]| ==>
        UnitRowShows(r.value[i].rows[k + 1], c.unitsByArea[c.areas[i].id][k], DaysOfMonthText(ym),
                     StoredOf(db.counts, c.unitsByArea[c.areas[i].id][k].id))
  {
    var r := ExportWith(db, CanonicalMonth(ym), DaysOfMonthText(ym), c);
    if r.Some? && UniqueCounts(db.counts) then
      ExportShowsStored(db, ym, c);
      r
    else r
  }

  lemma ExportShowsStored(db: Db, ym: string, c: Catalog)
    requires UniqueCounts(db.counts)
    ensures var r := ExportWith(db, CanonicalMonth(ym), DaysOfMonthText(ym), c);
      r.Some? ==> forall i, k :: 0 <= i < |c.areas| && 0 <= k < |c.unitsByArea[c.areas[i].id]| ==>
        UnitRowShows(r.value[i].rows[k + 1], c.unitsByArea[c.areas[i].id][k], DaysOfMonthText(ym),
                     StoredOf(db.counts, c.unitsByArea[c.areas[i].id][k].id))
  {
    var days := DaysOfMonthText(ym);
    var canon := CanonicalMonth(ym);
    var counts := CountsForMonth(db.counts, canon);
    var r := ExportWith(db, canon, days, c);
    if r.Some? {
      forall i, k | 0 <= i < |c.areas| && 0 <= k < |c.unitsByArea[c.areas[i].id]|
        ensures UnitRowShows(r.value[i].rows[k + 1], c.unitsByArea[c.areas[i].id][k], days,
                             StoredOf(db.counts, c.unitsByArea[c.areas[i].id][k].id))
      {
        var u := c.unitsByArea[c.areas[i].id][k];
        ShownIsStored(db.counts, ym, u.id);
        ShowsTransfer(r.value[i].rows[k + 1], u, days, Shown(counts, u.id), StoredOf(db.counts, u.id));
      }
    }
  }

  /** On the days of `ym`, the canonical month map shows the stored counts. */
  lemma ShownIsStored(rows: seq<CountRow>, ym: string, unitId: int)
    requires UniqueCounts(rows)
    ensures forall j :: 0 <= j < |DaysOfMonthText(ym)| ==>
      Shown(CountsForMonth(rows, CanonicalMonth(ym)), unitId)(DaysOfMonthText(ym)[j].iso)
        == Stored(rows, unitId, DaysOfMonthText(ym)[j].iso)
  {
    var days := DaysOfMonthText(ym);
    DayKeysCanonical(ym);
    forall j | 0 <= j < |days|
      ensures Shown(CountsForMonth(rows, CanonicalMonth(ym)), unitId)(days[j].iso) == Stored(rows, unitId, days[j].iso)
    {
      CountsForMonthAgrees(rows, CanonicalMonth(ym), unitId, days[j].iso);
    }
  }

  lemma ShowsTransfer(row: seq<Cell>, u: CatalogUnit, days: seq<Day>, f: string -> Tally, g: string -> Tally)
    requires UnitRowShows(row, u, days, f)
    requires forall j :: 0 <= j < |days| ==> f(days[j].iso) == g(days[j].iso)
    ensures UnitRowShows(row, u, days, g)
  {
  }

  /**
   * Exporting "2024-3" lays out March 2024 but reads the month map for dates starting
   * "2024-3-", so the stored manual count 7 of 5 March shows as 0 (column 9 of the unit's
   * row); the corrected export shows 7.
   */
  lemma ExportAsWrittenShowsZero()
    ensures var date := "2024-03-05";
      var db := Db([], 1, map[], [CountRow(1001, date, Some(7), Some(2))], {});
      var c := Catalog([Area(1, "Norte")], map[1 := [CatalogUnit(1001, "Comisaría 1")]]);
      && CellIs(ExportAsWritten(db, "2024-3", c), Number(0))
      && CellIs(Export(db, "2024-3", c), Number(7))
  {
    var date := "2024-03-05";
    var db := Db([], 1, map[], [CountRow(1001, date, Some(7), Some(2))], {});
    var c := Catalog([Area(1, "Norte")], map[1 := [CatalogUnit(1001, "Comisaría 1")]]);
    AsWrittenCell(db, c, "2024-3", date);
    CorrectedCell(db, c, "2024-3", date);
  }

  /** The first sheet's first unit row shows `cell` in column 9, the manual count of the fifth day. */
  predicate CellIs(r: Option<seq<Sheet>>, cell: Cell) {
    r.Some? && |r.value| > 0 && |r.value[0].rows| > 1 && |r.value[0].rows[1]| > 9 && r.value[0].rows[1][9] == cell
  }

  lemma AsWrittenCell(db: Db, c: Catalog, ym: string, date: string)
    requires ym == "2024-3" && date == "2024-03-05"
    requires db.counts == [CountRow(1001, date, Some(7), Some(2))]
    requires c.areas == [Area(1, "Norte")] && c.unitsByArea == map[1 := [CatalogUnit(1001, "Comisaría 1")]]
    ensures CellIs(ExportAsWritten(db, ym, c), Number(0))
  {
    MarchFifth();
    RawMonthMissesKey(ym, date);
    var days := DaysOfMonthText(ym);
    var counts := CountsForMonth(db.counts, ym);
    assert !InMonth(db.counts[0], ym);
    assert MonthKey(1001, date) !in counts;
    var r := ExportWith(db, ym, days, c);
    assert c.unitsByArea[c.areas[0].id][0] == CatalogUnit(1001, "Comisaría 1");
    assert UnitRowShows(r.value[0].rows[0 + 1], CatalogUnit(1001, "Comisaría 1"), days, Shown(counts, 1001));
    assert r.value[0].rows[1][1 + 2 * 4] == Number(Shown(counts, 1001)(days[4].iso).manual);
  }

  lemma CorrectedCell(db: Db, c: Catalog, ym: string, date: string)
    requires ym == "2024-3" && date == "2024-03-05"
    requires db.counts == [CountRow(1001, date, Some(7), Some(2))]
    requires c.areas == [Area(1, "Norte")] && c.unitsByArea == map[1 := [CatalogUnit(1001, "Comisaría 1")]]
    ensures CellIs(Export(db, ym, c), Number(7))
  {
    assert |DaysOfMonthText(ym)| > 4 && DaysOfMonthText(ym)[4].iso == date by {
      MarchFifth();
    }
    assert Stored(db.counts, 1001, date).manual == 7 by {
      FirstIndexAt(db.counts, KeyIs(1001, date), 0);
    }
    assert UniqueCounts(db.counts);
    OneAreaExports(db, ym, c);
    CellFromStored(db, ym, c, date, 7);
  }

  lemma OneAreaExports(db: Db, ym: string, c: Catalog)
    requires c.areas == [Area(1, "Norte")] && c.unitsByArea == map[1 := [CatalogUnit(1001, "Comisaría 1")]]
    ensures Export(db, ym, c).Some?
  {
  }

  /** The corrected export's first cell of day five is the stored manual count of the first unit. */
  lemma CellFromStored(db: Db, ym: string, c: Catalog, date: string, v: int)
    requires UniqueCounts(db.counts) && Export(db, ym, c).Some?
    requires |c.areas| > 0 && |c.unitsByArea[c.areas[0].id]| > 0
    requires |DaysOfMonthText(ym)| > 4 && DaysOfMonthText(ym)[4].iso == date
    requires Stored(db.counts, c.unitsByArea[c.areas[0].id][0].id, date).manual == v
    ensures CellIs(Export(db, ym, c), Number(v))
  {
    ManualCell(db, ym, c, 0, 0, 4);
    ManualAtIsCell(Export(db, ym, c), Number(v));
  }

  lemma ManualAtIsCell(r: Option<seq<Sheet>>, cell: Cell)
    requires r.Some? && |r.value| > 0 && |r.value[0].rows| > 1 && ManualAt(r.value[0].rows[1], 4, cell)
    ensures CellIs(r, cell)
  {
  }

  /** The manual cell of unit `k` of area `i` on day `j` of the corrected export. */
  lemma ManualCell(db: Db, ym: string, c: Catalog, i: int, k: int, j: int)
    requires UniqueCounts(db.counts) && Export(db, ym, c).Some?
    requires 0 <= i < |c.areas| && 0 <= k < |c.unitsByArea[c.areas[i].id]| && 0 <= j < |DaysOfMonthText(ym)|
    ensures ManualAt(Export(db, ym, c).value[i].rows[k + 1], j,
      Number(Stored(db.counts, c.unitsByArea[c.areas[i].id][k].id, DaysOfMonthText(ym)[j].iso).manual))
  {
    var days := DaysOfMonthText(ym);
    var u := c.unitsByArea[c.areas[i].id][k];
    var row := Export(db, ym, c).value[i].rows[k + 1];
    assert UnitRowShows(row, u, days, StoredOf(db.counts, u.id));
    RowCell(row, u, days, StoredOf(db.counts, u.id), j);
  }

  /** Column `1 + 2 * j` of a unit row, the manual count of day `j`, is `cell`. */
  predicate ManualAt(row: seq<Cell>, j: int, cell: Cell) {
    0 <= 1 + 2 * j < |row| && row[1 + 2 * j] == cell
  }

  lemma RowCell(row: seq<Cell>, u: CatalogUnit, days: seq<Day>, f: string -> Tally, j: int)
    requires UnitRowShows(row, u, days, f) && 0 <= j < |days|
    ensures ManualAt(row, j, Number(f(days[j].iso).manual))
  {
  }
}
