/**
 * District totals: over the distinct incident rows, per DISTRICT, the
 * number of rows and the mean of the non-NULL Lat and Long values.
 */
module DistrictTotals {
  import opened Wrappers
  import opened Relational
  import opened Records

  /** A row of the `crimes_total` view. */
  datatype TotalsRow = TotalsRow(district: Option<string>, crimesTotal: nat, lat: Option<real>, lng: Option<real>)

  function Sum(xs: seq<real>): real {
    if |xs| == 0 then 0.0 else Sum(xs[..|xs| - 1]) + xs[|xs| - 1]
  }

  /** The non-NULL values of a column, in order. */
  function Present(xs: seq<Option<real>>): (r: seq<real>)
    ensures |r| <= |xs|
    ensures forall v :: v in r <==> Some(v) in xs
  {
    if |xs| == 0 then []
    else
      var front := Present(xs[..|xs| - 1]);
      assert xs == xs[..|xs| - 1] + [xs[|xs| - 1]];
      match xs[|xs| - 1]
      case None => front
      case Some(v) => front + [v]
  }

  /**
   * `avg` of a nullable column: the sum of the non-NULL values over their
   * number, or NULL when every value is NULL.
   */
  function Mean(xs: seq<Option<real>>): (r: Option<real>)
    ensures r.None? <==> forall i :: 0 <= i < |xs| ==> xs[i].None?
  {
    var vs := Present(xs);
    if |vs| == 0 then None
    else
      assert Some(vs[0]) in xs;
      Some(Sum(vs) / (|vs| as real))
  }

  lemma DivLowerBound(s: real, n: real, lo: real)
    requires n > 0.0 && lo * n <= s
    ensures lo <= s / n
  {
    var q := s / n;
    assert q * n == s;
    if q < lo {
      assert q * n < lo * n;
    }
  }

  lemma DivUpperBound(s: real, n: real, hi: real)
    requires n > 0.0 && s <= hi * n
    ensures s / n <= hi
  {
    var q := s / n;
    assert q * n == s;
    if q > hi {
      assert q * n > hi * n;
    }
  }

  lemma {:induction false} SumWithinBounds(vs: seq<real>, lo: real, hi: real)
    requires forall v :: v in vs ==> lo <= v <= hi
    ensures lo * (|vs| as real) <= Sum(vs) <= hi * (|vs| as real)
  {
    if |vs| > 0 {
      var front := vs[..|vs| - 1];
      assert forall v :: v in front ==> v in vs;
      SumWithinBounds(front, lo, hi);
      assert vs[|vs| - 1] in vs;
      assert Sum(vs) == Sum(front) + vs[|vs| - 1];
      var n := |front| as real;
      assert lo * (n + 1.0) == lo * n + lo;
      assert hi * (n + 1.0) == hi * n + hi;
    }
  }

  /** A mean lies between any lower and upper bound of the non-NULL values it averages. */
  lemma MeanWithinBounds(xs: seq<Option<real>>, lo: real, hi: real)
    requires forall i :: 0 <= i < |xs| && xs[i].Some? ==> lo <= xs[i].value <= hi
    ensures Mean(xs).Some? ==> lo <= Mean(xs).value <= hi
  {
    var vs := Present(xs);
    if |vs| > 0 {
      PresentWithinBounds(xs, lo, hi);
      AverageWithinBounds(vs, lo, hi);
    }
  }

  /** The average of non-empty values lies between their bounds. */
  lemma AverageWithinBounds(vs: seq<real>, lo: real, hi: real)
    requires |vs| > 0
    requires forall v :: v in vs ==> lo <= v <= hi
    ensures lo <= Sum(vs) / (|vs| as real) <= hi
  {
    SumWithinBounds(vs, lo, hi);
    DivLowerBound(Sum(vs), |vs| as real, lo);
    DivUpperBound(Sum(vs), |vs| as real, hi);
  }

  /** `avg` of Lat values 10, NULL and 30 is 20: the NULL is neither summed nor counted. */
  lemma MeanSkipsNull()
    ensures Mean([Some(10.0), None, Some(30.0)]) == Some(20.0)
  {
    var xs: seq<Option<real>> := [Some(10.0), None, Some(30.0)];
    var none: seq<Option<real>> := [];
    var vs: seq<real> := [10.0, 30.0];
    var empty: seq<real> := [];
    assert Present(xs) == vs by {
      assert xs[..2] == [Some(10.0), None] && xs[..2][..1] == [Some(10.0)] && xs[..2][..1][..0] == none;
    }
    assert Sum(vs) == 40.0 by {
      assert vs[..1] == [10.0] && vs[..1][..0] == empty;
    }
    assert Mean(xs) == Some(Sum(vs) / 2.0);
  }

  /** Bounds on the non-NULL values of a column hold for every value `Present` keeps. */
  lemma PresentWithinBounds(xs: seq<Option<real>>, lo: real, hi: real)
    requires forall i :: 0 <= i < |xs| && xs[i].Some? ==> lo <= xs[i].value <= hi
    ensures forall v :: v in Present(xs) ==> lo <= v <= hi
  {
    forall v | v in Present(xs) ensures lo <= v <= hi {
      var i :| 0 <= i < |xs| && xs[i] == Some(v);
    }
  }

  /** A coordinate column (`LatOf` or `LngOf`) of the rows of district `d`, in order. */
  function ColumnIn(rows: seq<Incident>, d: Option<string>, column: Incident -> Option<real>): seq<Option<real>> {
    if |rows| == 0 then []
    else (if rows[0].district == d then [column(rows[0])] else []) + ColumnIn(rows[1..], d, column)
  }

  /** The column holds the values of exactly the rows of district `d`. */
  lemma {:induction false} ColumnInValues(rows: seq<Incident>, d: Option<string>, column: Incident -> Option<real>)
    ensures forall v :: v in ColumnIn(rows, d, column) ==> exists x :: x in rows && x.district == d && column(x) == v
    ensures forall x :: x in rows && x.district == d ==> column(x) in ColumnIn(rows, d, column)
  {
    if |rows| > 0 {
      assert rows == [rows[0]] + rows[1..];
      ColumnInValues(rows[1..], d, column);
    }
  }

  /**
   * Over duplicate-free rows, the column holds one entry per row of district `d`:
   * a value occurs as often as there are rows of `d` carrying it.
   */
  lemma {:induction false} ColumnInCounts(rows: seq<Incident>, d: Option<string>, column: Incident -> Option<real>, v: Option<real>)
    requires NoDuplicates(rows)
    ensures multiset(ColumnIn(rows, d, column))[v] == |set x | x in rows && x.district == d && column(x) == v|
  {
    if |rows| == 0 {
      assert (set x | x in rows && x.district == d && column(x) == v) == {};
    } else {
      assert NoDuplicates(rows[1..]);
      ColumnInCounts(rows[1..], d, column, v);
      RowsWithValueStep(rows, d, column, v);
    }
  }

  /** Splitting the first row off a duplicate-free table splits the count of rows carrying `v`. */
  lemma RowsWithValueStep(rows: seq<Incident>, d: Option<string>, column: Incident -> Option<real>, v: Option<real>)
    requires NoDuplicates(rows) && |rows| > 0
    ensures |set x | x in rows && x.district == d && column(x) == v|
         == (if rows[0].district == d && column(rows[0]) == v then 1 else 0)
          + |set x | x in rows[1..] && x.district == d && column(x) == v|
  {
    var keep := (x: Incident) => x.district == d && column(x) == v;
    FirstRowCount(rows, keep);
    assert keep(rows[0]) == (rows[0].district == d && column(rows[0]) == v);
    assert Where(rows, keep) == (set x | x in rows && x.district == d && column(x) == v);
    assert Where(rows[1..], keep) == (set x | x in rows[1..] && x.district == d && column(x) == v);
  }

  /** The mean of a column of district `d` is NULL exactly when every row of `d` has NULL there. */
  lemma NullMean(rows: seq<Incident>, d: Option<string>, column: Incident -> Option<real>)
    ensures Mean(ColumnIn(rows, d, column)).None? <==> forall x :: x in rows && x.district == d ==> column(x).None?
  {
    var xs := ColumnIn(rows, d, column);
    ColumnInValues(rows, d, column);
    if forall x :: x in rows && x.district == d ==> column(x).None? {
      forall i | 0 <= i < |xs| ensures xs[i].None? {
        assert xs[i] in xs;
      }
    }
  }

  /** The DISTRICT column of the `crimes_total` view. */
  function TotalsDistricts(rows: seq<TotalsRow>): (r: seq<Option<string>>)
    ensures |r| == |rows|
    ensures forall i :: 0 <= i < |rows| ==> r[i] == rows[i].district
  {
    Project(rows, (x: TotalsRow) => x.district)
  }

  /** The row of `crimes_total` for district `d`, over duplicate-free `rows`. */
  function TotalsRowOf(rows: seq<Incident>, d: Option<string>): (r: TotalsRow)
    ensures r.district == d && r.crimesTotal == multiset(Districts(rows))[d]
    ensures NoDuplicates(rows) ==> r.crimesTotal == |Matching(rows, DistrictOf, d)|
  {
    assert NoDuplicates(rows) ==> multiset(Districts(rows))[d] == |Matching(rows, DistrictOf, d)| by {
      if NoDuplicates(rows) {
        CountMatching(rows, DistrictOf, d);
      }
    }
    TotalsRow(d, multiset(Districts(rows))[d], Mean(ColumnIn(rows, d, LatOf)), Mean(ColumnIn(rows, d, LngOf)))
  }

  /**
   * `crimes.distinct().groupBy(DISTRICT).agg(count, avg(Lat), avg(Long))`.
   * Groups appear in order of first appearance; a NULL district is a group
   * of its own.
   */
  function Totals(crimes: seq<Incident>): (r: seq<TotalsRow>)
    ensures NoDuplicates(TotalsDistricts(r))
    ensures forall d :: d in TotalsDistricts(r) <==> d in Districts(crimes)
    ensures forall i :: 0 <= i < |r| ==> 1 <= r[i].crimesTotal == multiset(Districts(Distinct(crimes)))[r[i].district]
  {
    var rows := Distinct(crimes);
    var keys := Distinct(Districts(rows));
    ProjectDistinct(crimes, DistrictOf);
    var r := seq(|keys|, i requires 0 <= i < |keys| => TotalsRowOf(rows, keys[i]));
    assert forall i :: 0 <= i < |r| ==> r[i].district == keys[i] && keys[i] in Districts(rows);
    assert TotalsDistricts(r) == keys;
    r
  }

  /** The Lat (Long) mean of a district is NULL exactly when no row of the district has a Lat (Long). */
  lemma TotalsRowCoordinates(rows: seq<Incident>, d: Option<string>)
    ensures TotalsRowOf(rows, d).lat.None? <==> forall x :: x in rows && x.district == d ==> x.lat.None?
    ensures TotalsRowOf(rows, d).lng.None? <==> forall x :: x in rows && x.district == d ==> x.lng.None?
  {
    NullMean(rows, d, LatOf);
    NullMean(rows, d, LngOf);
  }

  /** Each district of the incident log has its row, and every row is the row of its district. */
  lemma TotalsRowFor(crimes: seq<Incident>, d: Option<string>)
    ensures d in Districts(crimes) ==> TotalsRowOf(Distinct(crimes), d) in Totals(crimes)
    ensures forall t :: t in Totals(crimes) ==> t == TotalsRowOf(Distinct(crimes), t.district)
  {
    var keys := Distinct(Districts(Distinct(crimes)));
    ProjectDistinct(crimes, DistrictOf);
    if d in Districts(crimes) {
      var i :| 0 <= i < |keys| && keys[i] == d;
      assert Totals(crimes)[i] == TotalsRowOf(Distinct(crimes), d);
    }
  }

  /** Totals are computed over distinct rows: deduplicating first changes nothing. */
  lemma TotalsOfDistinct(crimes: seq<Incident>)
    ensures Totals(Distinct(crimes)) == Totals(crimes)
  {
    DistinctIdempotent(crimes);
  }

  /** Appending a copy of a row that is already present leaves every total unchanged. */
  lemma TotalsIgnoreCopies(crimes: seq<Incident>, x: Incident)
    requires x in crimes
    ensures Totals(crimes + [x]) == Totals(crimes)
  {
    DistinctAbsorbsCopy(crimes, x);
  }

  /**
   * `crimes_total` of a district is the number of different incident rows
   * that carry that district.
   */
  lemma CrimesTotalCountsDistinctRows(crimes: seq<Incident>, t: TotalsRow)
    requires t in Totals(crimes)
    ensures t.crimesTotal == |Matching(crimes, DistrictOf, t.district)|
  {
    var i :| 0 <= i < |Totals(crimes)| && Totals(crimes)[i] == t;
    var rows := Distinct(crimes);
    CountMatching(rows, DistrictOf, t.district);
    assert Matching(rows, DistrictOf, t.district) == Matching(crimes, DistrictOf, t.district);
  }
}
