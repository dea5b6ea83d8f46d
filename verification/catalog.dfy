/**
 * The static area/unit catalog the application is deployed with (`areas` and
 * `unitsByArea`). Its contents are not part of this model; every operation takes it
 * as a parameter.
 */
module Catalog {

  datatype Area = Area(id: int, name: string)

  datatype CatalogUnit = CatalogUnit(id: int, name: string)

  /** `areas` in display order, and the units listed under each area id. */
  datatype Catalog = Catalog(areas: seq<Area>, unitsByArea: map<int, seq<CatalogUnit>>)

  /** The virtual editor scope "POLICIA RURAL": it edits every other unit of its area. */
  const RuralUnit: int := 4000

  /** The area the rural editor covers. */
  const RuralArea: int := 4

  /** `unitsByArea[areaId] || []`. */
  function AreaUnits(c: Catalog, areaId: int): seq<CatalogUnit> {
    if areaId in c.unitsByArea then c.unitsByArea[areaId] else []
  }

  /** The units a rural save over `units` reaches: those listed, except the rural editor itself. */
  predicate Covers(units: seq<CatalogUnit>, unitId: int) {
    unitId != RuralUnit && exists k :: 0 <= k < |units| && units[k].id == unitId
  }

  /** The units the rural editor saves for: those listed under its area, except itself. */
  predicate RuralScope(c: Catalog, unitId: int) {
    Covers(AreaUnits(c, RuralArea), unitId)
  }
}
