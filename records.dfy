/**
 * The two input tables, already typed (the CSV reader and its schema
 * inference are not part of this model).
 */
module Records {
  import opened Wrappers
  import opened Relational

  /** One row of the offense-code table: columns CODE and NAME. */
  datatype CodeRow = CodeRow(code: int, name: Option<string>)

  /**
   * One row of the incident log. The columns the report reads are named;
   * every other column of the file is kept in `otherColumns`, because
   * `distinct()` compares whole rows.
   */
  datatype Incident = Incident(
    offenseCode: int,
    district: Option<string>,
    year: int,
    month: int,
    lat: Option<real>,
    lng: Option<real>,
    otherColumns: seq<Option<string>>)

  function DistrictOf(x: Incident): Option<string> {
    x.district
  }

  function LatOf(x: Incident): Option<real> {
    x.lat
  }

  function LngOf(x: Incident): Option<real> {
    x.lng
  }

  /** The DISTRICT column of a table of incidents. */
  function Districts(rows: seq<Incident>): (r: seq<Option<string>>)
    ensures |r| == |rows|
    ensures forall i :: 0 <= i < |rows| ==> r[i] == rows[i].district
  {
    Project(rows, DistrictOf)
  }
}
