/**
 * A worked example of the whole job: two offense codes, and three incidents
 * of district A, two of which are copies of one row. The lemmas take the
 * tables as parameters equal to the example, so that the stages are reasoned
 * about through their contracts rather than unfolded.
 */
module Scenarios {
  import opened Wrappers
  import opened Relational
  import opened Records
  import opened Codes
  import opened DistrictTotals
  import opened MonthlyMedian
  import opened FrequentCrimes
  import opened Report

  const LarcenyCode := CodeRow(100, Some("Larceny - Theft"))
  const AssaultCode := CodeRow(200, Some("Assault - Simple"))
  const CodeTable := [LarcenyCode, AssaultCode]
  const Larceny := Incident(100, Some("A"), 2017, 1, None, None, [])
  const Assault := Incident(200, Some("A"), 2017, 2, None, None, [])
  const Log := [Larceny, Larceny, Assault]

  const LarcenyInA := Labelled(Some("A"), Some("Larceny"))
  const AssaultInA := Labelled(Some("A"), Some("Assault"))
  const LarcenyGroup := CrimeGroup(Some("Larceny"), 2)
  const AssaultGroup := CrimeGroup(Some("Assault"), 1)

  /** The example tables. */
  predicate Example(crimes: seq<Incident>, codes: seq<CodeRow>) {
    crimes == Log && codes == CodeTable
  }

  lemma ListOfTwo<T>(s: seq<T>)
    requires |s| == 2
    ensures s == [s[0], s[1]]
  {
  }

  lemma ListOfThree<T>(s: seq<T>)
    requires |s| == 3
    ensures s == [s[0], s[1], s[2]]
  {
  }

  // ---------------------------------------------------------------------
  // Crime types

  /** A name whose first `n` characters hold no blank has no separator starting before `n`. */
  lemma NoSeparatorBefore(name: string, n: nat)
    requires n <= |name|
    requires forall i :: 0 <= i < n ==> name[i] != ' '
    ensures forall i :: 0 <= i < n ==> !SeparatorAt(name, i)
  {
    forall i | 0 <= i < n ensures !SeparatorAt(name, i) {
      if i + |Separator| <= |name| {
        assert name[i..i + |Separator|][0] == name[i];
      }
    }
  }

  lemma LarcenyType()
    ensures CrimeTypeOf("Larceny - Theft") == "Larceny"
  {
    var name := "Larceny - Theft";
    NoSeparatorBefore(name, 7);
    assert name[7..10] == Separator;
    CrimeTypeUnique(name, "Larceny");
  }

  lemma AssaultType()
    ensures CrimeTypeOf("Assault - Simple") == "Assault"
  {
    var name := "Assault - Simple";
    NoSeparatorBefore(name, 7);
    assert name[7..10] == Separator;
    CrimeTypeUnique(name, "Assault");
  }

  // ---------------------------------------------------------------------
  // The ranker

  /** An incident joins to the crime type of the only code row with its offense code. */
  lemma JoinedByCode(crimes: seq<Incident>, codes: seq<CodeRow>, i: nat, row: CodeRow)
    requires i < |crimes| && row in codes && crimes[i].offenseCode == row.code
    requires forall r :: r in codes && r.code == row.code ==> r == row
    ensures Labels(crimes, codes)[i] == Labelled(crimes[i].district, CrimeType(row.name))
  {
    var oc := Normalize(codes);
    assert row.code in CodesOf(codes) by {
      var k :| 0 <= k < |codes| && codes[k] == row;
      assert CodesOf(codes)[k] == row.code;
    }
    var j :| 0 <= j < |oc| && NormalizedCodesOf(oc)[j] == row.code;
    NormalizeKeepsFirstRow(codes, oc[j]);
    JoinedCrimeType(crimes, codes, i);
  }

  /** Each code of the example table has one row. */
  lemma ExampleCodes(codes: seq<CodeRow>)
    requires codes == CodeTable
    ensures LarcenyCode in codes && AssaultCode in codes
    ensures forall r :: r in codes && r.code == LarcenyCode.code ==> r == LarcenyCode
    ensures forall r :: r in codes && r.code == AssaultCode.code ==> r == AssaultCode
  {
  }

  /** A three-element sequence is given by its three elements. */
  lemma ListOfThreeValues<T>(s: seq<T>, a: T, b: T, c: T)
    requires |s| == 3 && s[0] == a && s[1] == b && s[2] == c
    ensures s == [a, b, c]
  {
  }

  /** The left join of the raw log: the copied Larceny incident is joined twice. */
  lemma JoinedLog(crimes: seq<Incident>, codes: seq<CodeRow>)
    requires Example(crimes, codes)
    ensures Labels(crimes, codes) == [LarcenyInA, LarcenyInA, AssaultInA]
  {
    ExampleCodes(codes);
    LarcenyType();
    AssaultType();
    JoinedByCode(crimes, codes, 0, LarcenyCode);
    JoinedByCode(crimes, codes, 1, LarcenyCode);
    JoinedByCode(crimes, codes, 2, AssaultCode);
    ListOfThreeValues(Labels(crimes, codes), LarcenyInA, LarcenyInA, AssaultInA);
  }

  /** Among three values drawn from two, two are equal. */
  lemma Pigeonhole<T>(x: T, y: T, z: T, t1: T, t2: T)
    requires x == t1 || x == t2
    requires y == t1 || y == t2
    requires z == t1 || z == t2
    ensures x == y || x == z || y == z
  {
  }

  /** Groups of distinct crime types drawn from two types are at most two. */
  lemma AtMostTwoTypes(groups: seq<CrimeGroup>, t1: Option<string>, t2: Option<string>)
    requires NoDuplicates(TypesOf(groups))
    requires forall g :: g in groups ==> g.crimeType == t1 || g.crimeType == t2
    ensures |groups| <= 2
  {
    if |groups| > 2 {
      var types := TypesOf(groups);
      Pigeonhole(types[0], types[1], types[2], t1, t2);
    }
  }

  /** Groups of distinct crime types that hold two given groups and nothing else are those two. */
  lemma TwoGroups(groups: seq<CrimeGroup>, g1: CrimeGroup, g2: CrimeGroup)
    requires NoDuplicates(TypesOf(groups))
    requires g1 in groups && g2 in groups && g1.crimeType != g2.crimeType
    requires forall g :: g in groups ==> g == g1 || g == g2
    ensures multiset(groups) == multiset{g1, g2}
  {
    var i :| 0 <= i < |groups| && groups[i] == g1;
    var j :| 0 <= j < |groups| && groups[j] == g2;
    assert i != j;
    AtMostTwoTypes(groups, g1.crimeType, g2.crimeType);
    ListOfTwo(groups);
  }

  /** Two groups of which the second does not rank before the first are numbered in that order. */
  lemma RankOfTwo(groups: seq<CrimeGroup>, g1: CrimeGroup, g2: CrimeGroup)
    requires multiset(groups) == multiset{g1, g2}
    requires !RanksBefore(g2, g1)
    ensures Rank(groups) == [g1, g2]
  {
    var ranked := Rank(groups);
    assert |ranked| == |multiset(ranked)| == 2;
    ListOfTwo(ranked);
    assert ranked[0] in multiset(ranked) && ranked[1] in multiset(ranked);
    assert RanksBefore(ranked[0], ranked[1]);
    assert ranked[0] == g1;
    assert multiset{ranked[1]} == multiset(ranked) - multiset{g1};
  }

  /** How often each joined row occurs in the joined log. */
  lemma CountsOfJoined(joined: seq<Labelled>)
    requires joined == [LarcenyInA, LarcenyInA, AssaultInA]
    ensures multiset(joined)[LarcenyInA] == 2 && multiset(joined)[AssaultInA] == 1
    ensures forall l :: multiset(joined)[l] >= 1 ==> l == LarcenyInA || l == AssaultInA
  {
    assert multiset(joined) == multiset{LarcenyInA, LarcenyInA, AssaultInA};
  }

  /**
   * When the joined rows of district A carry exactly two crime types, the
   * district has the two groups of those types with their counts.
   */
  lemma GroupsOfTwo(crimes: seq<Incident>, codes: seq<CodeRow>, g1: CrimeGroup, g2: CrimeGroup)
    requires g1.crimeType != g2.crimeType
    requires 1 <= g1.count == multiset(Labels(crimes, codes))[Labelled(Some("A"), g1.crimeType)]
    requires 1 <= g2.count == multiset(Labels(crimes, codes))[Labelled(Some("A"), g2.crimeType)]
    requires forall l :: multiset(Labels(crimes, codes))[l] >= 1 ==>
               l == Labelled(Some("A"), g1.crimeType) || l == Labelled(Some("A"), g2.crimeType)
    ensures multiset(Groups(crimes, codes, Some("A"))) == multiset{g1, g2}
  {
    var groups := Groups(crimes, codes, Some("A"));
    assert g1 in groups && g2 in groups;
    forall g | g in groups ensures g == g1 || g == g2 {
      assert multiset(Labels(crimes, codes))[Labelled(Some("A"), g.crimeType)] >= 1;
    }
    TwoGroups(groups, g1, g2);
  }

  /** District A has two groups; the copied Larceny incident counts twice. */
  lemma GroupsOfA(crimes: seq<Incident>, codes: seq<CodeRow>)
    requires Labels(crimes, codes) == [LarcenyInA, LarcenyInA, AssaultInA]
    ensures multiset(Groups(crimes, codes, Some("A"))) == multiset{LarcenyGroup, AssaultGroup}
  {
    CountsOfJoined(Labels(crimes, codes));
    GroupsOfTwo(crimes, codes, LarcenyGroup, AssaultGroup);
  }

  /** Of two groups, both keep a number, the one that ranks first first. */
  lemma KeptOfTwo(groups: seq<CrimeGroup>, g1: CrimeGroup, g2: CrimeGroup)
    requires multiset(groups) == multiset{g1, g2}
    requires !RanksBefore(g2, g1)
    ensures Kept(groups) == [g1, g2]
  {
    RankOfTwo(groups, g1, g2);
    assert |groups| == |multiset(groups)| == 2;
  }

  /** Two labelled groups leave their two labels, in order. */
  lemma LabelsOfTwo(g1: CrimeGroup, g2: CrimeGroup, a: string, b: string)
    requires g1.crimeType == Some(a) && g2.crimeType == Some(b)
    ensures LabelsOf([g1, g2]) == [a, b]
  {
    assert [g1, g2][1..] == [g2];
  }

  /** Two labels are joined with one comma between them. */
  lemma JoinTwoLabels(a: string, b: string)
    ensures JoinLabels([a, b]) == a + "," + b
  {
    assert [a, b][1..] == [b];
  }

  lemma LarcenyCommaAssault()
    ensures "Larceny" + "," + "Assault" == "Larceny,Assault"
  {
  }

  /** The labels of district A: Larceny first, on the count of its copied incident. */
  lemma TopLabelsOfA(crimes: seq<Incident>, codes: seq<CodeRow>)
    requires multiset(Groups(crimes, codes, Some("A"))) == multiset{LarcenyGroup, AssaultGroup}
    ensures JoinLabels(TopLabels(crimes, codes, Some("A"))) == "Larceny,Assault"
  {
    KeptOfTwo(Groups(crimes, codes, Some("A")), LarcenyGroup, AssaultGroup);
    LabelsOfTwo(LarcenyGroup, AssaultGroup, "Larceny", "Assault");
    JoinTwoLabels("Larceny", "Assault");
    LarcenyCommaAssault();
  }

  // ---------------------------------------------------------------------
  // The ranker over deduplicated rows, for contrast

  const LarcenyOnce := CrimeGroup(Some("Larceny"), 1)
  const AssaultOnce := CrimeGroup(Some("Assault"), 1)

  /** `distinct()` of a row, its copy and another row keeps the two rows. */
  lemma DistinctOfCopy<T(!new)>(x: T, y: T)
    requires x != y
    ensures Distinct([x, x, y]) == [x, y]
  {
    assert [x, x, y][..2] == [x, x];
    assert [x, x][..1] == [x];
    DistinctOfNoDuplicates([x]);
  }

  /** The join of the deduplicated log. */
  lemma JoinedDistinctLog(crimes: seq<Incident>, codes: seq<CodeRow>)
    requires crimes == [Larceny, Assault] && codes == CodeTable
    ensures Labels(crimes, codes) == [LarcenyInA, AssaultInA]
  {
    ExampleCodes(codes);
    LarcenyType();
    AssaultType();
    JoinedByCode(crimes, codes, 0, LarcenyCode);
    JoinedByCode(crimes, codes, 1, AssaultCode);
    ListOfTwo(Labels(crimes, codes));
  }

  /** Between equal counts, Assault is numbered before Larceny. */
  lemma AssaultBeforeLarceny()
    ensures !RanksBefore(LarcenyOnce, AssaultOnce)
  {
    assert "Larceny"[0] == 'L' && "Assault"[0] == 'A';
  }

  lemma AssaultCommaLarceny()
    ensures "Assault" + "," + "Larceny" == "Assault,Larceny"
  {
  }

  /**
   * Had the ranker read the deduplicated rows, as the totals and the median
   * do, both crime types of district A would count once and the tie-break
   * would put Assault before Larceny.
   */
  lemma DeduplicatedRankerTies(crimes: seq<Incident>, codes: seq<CodeRow>)
    requires Example(crimes, codes)
    ensures JoinLabels(TopLabels(Distinct(crimes), codes, Some("A"))) == "Assault,Larceny"
  {
    var rows := Distinct(crimes);
    DistinctOfCopy(Larceny, Assault);
    JoinedDistinctLog(rows, codes);
    var joined := Labels(rows, codes);
    assert multiset(joined) == multiset{LarcenyInA, AssaultInA};
    GroupsOfTwo(rows, codes, AssaultOnce, LarcenyOnce);
    AssaultBeforeLarceny();
    KeptOfTwo(Groups(rows, codes, Some("A")), AssaultOnce, LarcenyOnce);
    LabelsOfTwo(AssaultOnce, LarcenyOnce, "Assault", "Larceny");
    JoinTwoLabels("Assault", "Larceny");
    AssaultCommaLarceny();
  }

  // ---------------------------------------------------------------------
  // Totals and median

  /** Every incident of the log is in district A. */
  lemma DistrictsOfLog(crimes: seq<Incident>)
    requires crimes == Log
    ensures Some("A") in Districts(crimes)
    ensures forall d :: Some(d) in Districts(crimes) ==> d == "A"
  {
    var ds := Districts(crimes);
    assert ds[0] == Some("A") && ds[1] == Some("A") && ds[2] == Some("A");
    ListOfThree(ds);
  }

  /** District A holds two different incident rows. */
  lemma TotalOfA(crimes: seq<Incident>)
    requires crimes == Log
    ensures |Matching(crimes, DistrictOf, Some("A"))| == 2
  {
    assert Matching(crimes, DistrictOf, Some("A")) == {Larceny, Assault};
  }

  /** Each month of the log holds one distinct incident. */
  lemma OneIncidentPerMonth(crimes: seq<Incident>, m: MonthlyCount)
    requires crimes == Log
    requires m in MonthlyTotals(crimes)
    ensures m.crimesTotal == 1
  {
    MonthlyCountCountsDistinctRows(crimes, m);
    assert m.key in KeysOf(MonthlyTotals(crimes));
    var i :| 0 <= i < |crimes| && MonthKeyOf(crimes[i]) == m.key;
    assert Matching(crimes, MonthKeyOf, m.key) == {crimes[i]};
  }

  /** District A has monthly counts, and each of them is one. */
  lemma MonthlyCountsOfA(crimes: seq<Incident>)
    requires crimes == Log
    ensures |MonthlyCounts(crimes, Some("A"))| > 0
    ensures forall c :: c in MonthlyCounts(crimes, Some("A")) ==> c == 1
  {
    var monthly := MonthlyTotals(crimes);
    assert Some("A") in MonthlyDistricts(monthly) by {
      MonthlyDistrictsOf(crimes);
      DistrictsOfLog(crimes);
    }
    forall c | c in MonthlyCounts(crimes, Some("A")) ensures c == 1 {
      var m :| m in monthly && m.key.district == Some("A") && m.crimesTotal == c;
      OneIncidentPerMonth(crimes, m);
    }
  }

  /** The median month of district A holds one distinct incident. */
  lemma MedianOfA(crimes: seq<Incident>)
    requires crimes == Log
    ensures |MonthlyCounts(crimes, Some("A"))| > 0
    ensures LowerMedian(MonthlyCounts(crimes, Some("A"))) == 1
  {
    MonthlyCountsOfA(crimes);
  }

  /** The log has no coordinates, so the means of district A are NULL. */
  lemma MeansOfA(crimes: seq<Incident>)
    requires crimes == Log
    ensures Mean(ColumnIn(Distinct(crimes), Some("A"), LatOf)).None?
    ensures Mean(ColumnIn(Distinct(crimes), Some("A"), LngOf)).None?
  {
    assert forall x :: x in Distinct(crimes) ==> x == Larceny || x == Assault;
    NullMean(Distinct(crimes), Some("A"), LatOf);
    NullMean(Distinct(crimes), Some("A"), LngOf);
  }

  // ---------------------------------------------------------------------
  // The report

  /** A list without duplicates whose every element is `a`, and which holds `a`, is `[a]`. */
  lemma OnlyValue(ds: seq<string>, a: string)
    requires NoDuplicates(ds) && a in ds
    requires forall d :: d in ds ==> d == a
    ensures ds == [a]
  {
    if |ds| > 1 {
      FirstTwoEqual(ds, a);
    }
  }

  /** In a list whose every element is `a`, the first two elements are equal. */
  lemma FirstTwoEqual(ds: seq<string>, a: string)
    requires |ds| > 1
    requires forall d :: d in ds ==> d == a
    ensures ds[0] == ds[1]
  {
    assert ds[0] in ds && ds[1] in ds;
  }

  /** A log whose only district is A gives a report with one row, for A. */
  lemma ReportHasOneRow(crimes: seq<Incident>, codes: seq<CodeRow>)
    requires Some("A") in Districts(crimes)
    requires forall d :: Some(d) in Districts(crimes) ==> d == "A"
    ensures |Pipeline(crimes, codes)| == 1
    ensures Pipeline(crimes, codes)[0].district == "A"
  {
    var ds := ReportDistricts(Pipeline(crimes, codes));
    PipelineOneRowPerDistrict(crimes, codes);
    OnlyValue(ds, "A");
  }

  /**
   * The report for the example: one row for district A with two distinct
   * incidents, a median of one incident per month, no coordinates, and
   * Larceny ranked before Assault because its copied incident counts twice
   * in the ranker.
   */
  lemma ReportOfExample(crimes: seq<Incident>, codes: seq<CodeRow>)
    requires Example(crimes, codes)
    ensures Pipeline(crimes, codes) == [ReportRow("A", 2, Some(1), None, None, Some("Larceny,Assault"))]
  {
    var report := Pipeline(crimes, codes);
    DistrictsOfLog(crimes);
    ReportHasOneRow(crimes, codes);
    var row := report[0];
    assert row in report;
    PipelineRow(crimes, codes, row);
    TotalOfA(crimes);
    MedianOfA(crimes);
    MeansOfA(crimes);
    JoinedLog(crimes, codes);
    GroupsOfA(crimes, codes);
    TopLabelsOfA(crimes, codes);
    assert row == ReportRow("A", 2, Some(1), None, None, Some("Larceny,Assault"));
    ListOfOne(report);
  }

  lemma ListOfOne<T>(s: seq<T>)
    requires |s| == 1
    ensures s == [s[0]]
  {
  }
}
