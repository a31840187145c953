/**
 * Report assembly: `crimes_total LEFT JOIN crimes_median LEFT JOIN
 * frequent_crimes` on DISTRICT, keeping only rows whose district is not
 * NULL.
 */
module Report {
  import opened Wrappers
  import opened Relational
  import opened Records
  import opened DistrictTotals
  import opened MonthlyMedian
  import opened FrequentCrimes

  /** A row of the written report. */
  datatype ReportRow = ReportRow(
    district: string,
    crimesTotal: nat,
    crimesMonthly: Option<int>,
    lat: Option<real>,
    lng: Option<real>,
    frequentCrimeTypes: Option<string>)

  /** `crimes_monthly` of the median rows whose DISTRICT equals `d`. */
  function MedianMatches(medians: seq<MedianRow>, d: string): (r: seq<int>)
    ensures forall v :: v in r <==> MedianRow(Some(d), v) in medians
  {
    if |medians| == 0 then []
    else (if medians[0].district == Some(d) then [medians[0].crimesMonthly] else []) + MedianMatches(medians[1..], d)
  }

  /** `frequent_crime_types` of the frequent-crime rows whose DISTRICT equals `d`. */
  function FrequentMatches(frequent: seq<FrequentRow>, d: string): (r: seq<string>)
    ensures forall v :: v in r <==> FrequentRow(Some(d), v) in frequent
  {
    if |frequent| == 0 then []
    else (if frequent[0].district == Some(d) then [frequent[0].frequentCrimeTypes] else []) + FrequentMatches(frequent[1..], d)
  }

  /** The right-hand side of a LEFT JOIN: every match, or one NULL when nothing matches. */
  function OrNull<T>(matches: seq<T>): (r: seq<Option<T>>)
    ensures |matches| == 0 ==> r == [None]
    ensures |matches| > 0 ==> |r| == |matches| && forall i :: 0 <= i < |r| ==> r[i] == Some(matches[i])
  {
    if |matches| == 0 then [None] else seq(|matches|, i requires 0 <= i < |matches| => Some(matches[i]))
  }

  /** One report row per (median, frequent) pair joined to totals row `t` of district `d`. */
  function Combine(t: TotalsRow, d: string, ms: seq<Option<int>>, fs: seq<Option<string>>): (r: seq<ReportRow>)
    ensures |r| == |ms| * |fs|
    ensures forall row :: row in r ==>
              && row.district == d && row.crimesTotal == t.crimesTotal
              && row.lat == t.lat && row.lng == t.lng
              && row.crimesMonthly in ms && row.frequentCrimeTypes in fs
  {
    if |ms| == 0 then []
    else
      var here := seq(|fs|, i requires 0 <= i < |fs| => ReportRow(d, t.crimesTotal, ms[0], t.lat, t.lng, fs[i]));
      here + Combine(t, d, ms[1..], fs)
  }

  /** Every (median, frequent) pair of the two LEFT JOINs gives its own report row. */
  lemma {:induction false} CombineHasEveryPair(t: TotalsRow, d: string, ms: seq<Option<int>>, fs: seq<Option<string>>, m: Option<int>, f: Option<string>)
    requires m in ms && f in fs
    ensures ReportRow(d, t.crimesTotal, m, t.lat, t.lng, f) in Combine(t, d, ms, fs)
  {
    var row := ReportRow(d, t.crimesTotal, m, t.lat, t.lng, f);
    var here := seq(|fs|, i requires 0 <= i < |fs| => ReportRow(d, t.crimesTotal, ms[0], t.lat, t.lng, fs[i]));
    assert Combine(t, d, ms, fs) == here + Combine(t, d, ms[1..], fs);
    if m == ms[0] {
      var i :| 0 <= i < |fs| && fs[i] == f;
      assert here[i] == row;
    } else {
      assert m in ms[1..];
      CombineHasEveryPair(t, d, ms[1..], fs, m, f);
    }
  }

  /** The joined rows of totals row `t`; none when its district is NULL. */
  function RowsFor(t: TotalsRow, medians: seq<MedianRow>, frequent: seq<FrequentRow>): (r: seq<ReportRow>)
    ensures t.district.None? ==> r == []
    ensures t.district.Some? ==> |r| >= 1
  {
    match t.district
    case None => []
    case Some(d) => Combine(t, d, OrNull(MedianMatches(medians, d)), OrNull(FrequentMatches(frequent, d)))
  }

  /** The report: the joined rows of every totals row whose district is not NULL. */
  function Assemble(totals: seq<TotalsRow>, medians: seq<MedianRow>, frequent: seq<FrequentRow>): (r: seq<ReportRow>)
    ensures forall row :: row in r ==> Some(row.district) in TotalsDistricts(totals)
    ensures forall t :: t in totals && t.district.Some? ==> exists row :: row in r && row.district == t.district.value
  {
    if |totals| == 0 then []
    else
      var here := RowsFor(totals[0], medians, frequent);
      var rest := Assemble(totals[1..], medians, frequent);
      assert TotalsDistricts(totals) == [totals[0].district] + TotalsDistricts(totals[1..]);
      assert totals[0].district.Some? ==> here[0] in here;
      here + rest
  }

  /** The DISTRICT column of the report. */
  function ReportDistricts(rows: seq<ReportRow>): (r: seq<string>)
    ensures |r| == |rows|
    ensures forall i :: 0 <= i < |rows| ==> r[i] == rows[i].district
  {
    Project(rows, (x: ReportRow) => x.district)
  }

  /** The non-NULL districts of a DISTRICT column, in order. */
  function NonNull(ds: seq<Option<string>>): (r: seq<string>)
    ensures forall d :: d in r <==> Some(d) in ds
  {
    if |ds| == 0 then []
    else
      assert ds == [ds[0]] + ds[1..];
      (if ds[0].Some? then [ds[0].value] else []) + NonNull(ds[1..])
  }

  /** The value a LEFT JOIN on unique keys attaches to district `d`, or NULL. */
  function MedianFor(medians: seq<MedianRow>, d: string): Option<int> {
    var ms := MedianMatches(medians, d);
    if |ms| == 0 then None else Some(ms[0])
  }

  function FrequentFor(frequent: seq<FrequentRow>, d: string): Option<string> {
    var fs := FrequentMatches(frequent, d);
    if |fs| == 0 then None else Some(fs[0])
  }

  lemma {:induction false} MedianMatchesAbsent(medians: seq<MedianRow>, d: string)
    requires Some(d) !in MedianDistricts(medians)
    ensures MedianMatches(medians, d) == []
  {
    if |medians| > 0 {
      assert MedianDistricts(medians[1..]) == MedianDistricts(medians)[1..];
      MedianMatchesAbsent(medians[1..], d);
    }
  }

  lemma {:induction false} MedianMatchesUnique(medians: seq<MedianRow>, d: string)
    requires NoDuplicates(MedianDistricts(medians))
    ensures |MedianMatches(medians, d)| <= 1
  {
    if |medians| > 0 {
      var rest := medians[1..];
      assert MedianDistricts(rest) == MedianDistricts(medians)[1..];
      if medians[0].district == Some(d) {
        MedianMatchesAbsent(rest, d);
      } else {
        MedianMatchesUnique(rest, d);
      }
    }
  }

  lemma {:induction false} FrequentMatchesAbsent(frequent: seq<FrequentRow>, d: string)
    requires Some(d) !in FrequentDistricts(frequent)
    ensures FrequentMatches(frequent, d) == []
  {
    if |frequent| > 0 {
      assert FrequentDistricts(frequent[1..]) == FrequentDistricts(frequent)[1..];
      FrequentMatchesAbsent(frequent[1..], d);
    }
  }

  lemma {:induction false} FrequentMatchesUnique(frequent: seq<FrequentRow>, d: string)
    requires NoDuplicates(FrequentDistricts(frequent))
    ensures |FrequentMatches(frequent, d)| <= 1
  {
    if |frequent| > 0 {
      var rest := frequent[1..];
      assert FrequentDistricts(rest) == FrequentDistricts(frequent)[1..];
      if frequent[0].district == Some(d) {
        FrequentMatchesAbsent(rest, d);
      } else {
        FrequentMatchesUnique(rest, d);
      }
    }
  }

  /** The single report row of totals row `t` of district `d` when the joined tables have unique keys. */
  function JoinedRow(t: TotalsRow, d: string, medians: seq<MedianRow>, frequent: seq<FrequentRow>): ReportRow {
    ReportRow(d, t.crimesTotal, MedianFor(medians, d), t.lat, t.lng, FrequentFor(frequent, d))
  }

  /** With unique keys on the right, a totals row of a non-NULL district gives exactly one report row. */
  lemma RowsForUniqueKeys(t: TotalsRow, medians: seq<MedianRow>, frequent: seq<FrequentRow>)
    requires NoDuplicates(MedianDistricts(medians))
    requires NoDuplicates(FrequentDistricts(frequent))
    ensures t.district.Some? ==> RowsFor(t, medians, frequent) == [JoinedRow(t, t.district.value, medians, frequent)]
  {
    if t.district.Some? {
      MedianMatchesUnique(medians, t.district.value);
      FrequentMatchesUnique(frequent, t.district.value);
    }
  }

  /**
   * When each district has at most one median row and one frequent-crime
   * row, the report holds exactly one row per non-NULL district of the
   * totals, in their order.
   */
  lemma {:induction false} AssembleDistricts(totals: seq<TotalsRow>, medians: seq<MedianRow>, frequent: seq<FrequentRow>)
    requires NoDuplicates(MedianDistricts(medians))
    requires NoDuplicates(FrequentDistricts(frequent))
    ensures ReportDistricts(Assemble(totals, medians, frequent)) == NonNull(TotalsDistricts(totals))
  {
    if |totals| > 0 {
      var t := totals[0];
      var rest := totals[1..];
      AssembleDistricts(rest, medians, frequent);
      NonNullFirst(totals);
      var here := RowsFor(t, medians, frequent);
      RowsForDistricts(t, medians, frequent);
      ReportDistrictsConcat(here, Assemble(rest, medians, frequent));
    }
  }

  /** The DISTRICT column of the joined rows of one totals row. */
  lemma RowsForDistricts(t: TotalsRow, medians: seq<MedianRow>, frequent: seq<FrequentRow>)
    requires NoDuplicates(MedianDistricts(medians))
    requires NoDuplicates(FrequentDistricts(frequent))
    ensures ReportDistricts(RowsFor(t, medians, frequent)) == (if t.district.Some? then [t.district.value] else [])
  {
    RowsForUniqueKeys(t, medians, frequent);
  }

  lemma NonNullFirst(totals: seq<TotalsRow>)
    requires |totals| > 0
    ensures NonNull(TotalsDistricts(totals))
         == (if totals[0].district.Some? then [totals[0].district.value] else []) + NonNull(TotalsDistricts(totals[1..]))
  {
    assert TotalsDistricts(totals)[1..] == TotalsDistricts(totals[1..]);
  }

  lemma ReportDistrictsConcat(a: seq<ReportRow>, b: seq<ReportRow>)
    ensures ReportDistricts(a + b) == ReportDistricts(a) + ReportDistricts(b)
  {
  }

  /**
   * When each district has at most one median row and one frequent-crime
   * row, every report row carries its totals row's values, the matching
   * median and labels, and NULL where the district has no match.
   */
  lemma {:induction false} AssembleRows(totals: seq<TotalsRow>, medians: seq<MedianRow>, frequent: seq<FrequentRow>)
    requires NoDuplicates(MedianDistricts(medians))
    requires NoDuplicates(FrequentDistricts(frequent))
    ensures forall row :: row in Assemble(totals, medians, frequent) ==>
              exists t :: t in totals && t.district == Some(row.district) && row == JoinedRow(t, row.district, medians, frequent)
  {
    if |totals| > 0 {
      var t := totals[0];
      var rest := totals[1..];
      AssembleRows(rest, medians, frequent);
      RowsForUniqueKeys(t, medians, frequent);
      var all := Assemble(totals, medians, frequent);
      assert all == RowsFor(t, medians, frequent) + Assemble(rest, medians, frequent);
      forall row | row in all
        ensures exists u :: u in totals && u.district == Some(row.district) && row == JoinedRow(u, row.district, medians, frequent)
      {
        if row in Assemble(rest, medians, frequent) {
          var u :| u in rest && u.district == Some(row.district) && row == JoinedRow(u, row.district, medians, frequent);
          assert u in totals;
        } else {
          assert t in totals;
        }
      }
    }
  }

  /** A duplicate-free DISTRICT column stays duplicate-free without its NULL. */
  lemma {:induction false} NonNullNoDuplicates(ds: seq<Option<string>>)
    requires NoDuplicates(ds)
    ensures NoDuplicates(NonNull(ds))
  {
    if |ds| > 0 {
      assert NoDuplicates(ds[1..]);
      NonNullNoDuplicates(ds[1..]);
      assert ds[0] !in ds[1..];
    }
  }

  /** A LEFT JOIN on unique keys finds the one row of the district. */
  lemma MedianForMatch(medians: seq<MedianRow>, d: string, v: int)
    requires NoDuplicates(MedianDistricts(medians))
    requires MedianRow(Some(d), v) in medians
    ensures MedianFor(medians, d) == Some(v)
  {
    MedianMatchesUnique(medians, d);
    assert v in MedianMatches(medians, d);
  }

  lemma FrequentForMatch(frequent: seq<FrequentRow>, d: string, v: string)
    requires NoDuplicates(FrequentDistricts(frequent))
    requires FrequentRow(Some(d), v) in frequent
    ensures FrequentFor(frequent, d) == Some(v)
  {
    FrequentMatchesUnique(frequent, d);
    assert v in FrequentMatches(frequent, d);
  }

  // ---------------------------------------------------------------------
  // The whole job

  /** The report the job writes, from the typed incident and code tables. */
  function Pipeline(crimes: seq<Incident>, codes: seq<CodeRow>): (r: seq<ReportRow>)
    ensures forall row :: row in r ==> Some(row.district) in Districts(crimes)
  {
    Assemble(Totals(crimes), Medians(crimes), Frequent(crimes, codes))
  }

  /**
   * The report has exactly one row per non-NULL district of the incident
   * log, and no other rows.
   */
  lemma PipelineOneRowPerDistrict(crimes: seq<Incident>, codes: seq<CodeRow>)
    ensures NoDuplicates(ReportDistricts(Pipeline(crimes, codes)))
    ensures forall d :: d in ReportDistricts(Pipeline(crimes, codes)) <==> Some(d) in Districts(crimes)
  {
    AssembleDistricts(Totals(crimes), Medians(crimes), Frequent(crimes, codes));
    NonNullNoDuplicates(TotalsDistricts(Totals(crimes)));
  }

  /**
   * Every report row is the district's totals, its median monthly count
   * and its joined labels: the median and the labels are never NULL in the
   * written report, since the three views have the same districts.
   */
  lemma PipelineRow(crimes: seq<Incident>, codes: seq<CodeRow>, row: ReportRow)
    requires row in Pipeline(crimes, codes)
    ensures Some(row.district) in Districts(crimes)
    ensures row.crimesTotal == |Matching(crimes, DistrictOf, Some(row.district))|
    ensures row.lat == Mean(ColumnIn(Distinct(crimes), Some(row.district), LatOf))
    ensures row.lng == Mean(ColumnIn(Distinct(crimes), Some(row.district), LngOf))
    ensures |MonthlyCounts(crimes, Some(row.district))| > 0
    ensures row.crimesMonthly == Some(LowerMedian(MonthlyCounts(crimes, Some(row.district))))
    ensures row.frequentCrimeTypes == Some(JoinLabels(TopLabels(crimes, codes, Some(row.district))))
  {
    var totals, medians, frequent := Totals(crimes), Medians(crimes), Frequent(crimes, codes);
    var d := row.district;
    AssembleRows(totals, medians, frequent);
    var t :| t in totals && t.district == Some(d) && row == JoinedRow(t, d, medians, frequent);
    assert Some(d) in TotalsDistricts(totals);
    TotalsRowFor(crimes, Some(d));
    CrimesTotalCountsDistinctRows(crimes, t);
    MonthlyDistrictsOf(crimes);
    MedianRowOf(crimes, Some(d));
    MedianForMatch(medians, d, LowerMedian(MonthlyCounts(crimes, Some(d))));
    FrequentRowOf(crimes, codes, Some(d));
    FrequentForMatch(frequent, d, JoinLabels(TopLabels(crimes, codes, Some(d))));
  }
}
