/**
 * Monthly median: count the distinct incident rows per (DISTRICT, YEAR,
 * MONTH), then take the 50th percentile of those monthly counts per
 * DISTRICT. The percentile is the exact lower median.
 */
module MonthlyMedian {
  import opened Wrappers
  import opened Relational
  import opened Records

  /** The key of a monthly group. */
  datatype MonthKey = MonthKey(district: Option<string>, year: int, month: int)

  /** A row of the per-month table: a (DISTRICT, YEAR, MONTH) group and its count. */
  datatype MonthlyCount = MonthlyCount(key: MonthKey, crimesTotal: nat)

  /** A row of the `crimes_median` view. */
  datatype MedianRow = MedianRow(district: Option<string>, crimesMonthly: int)

  function MonthKeyOf(x: Incident): MonthKey {
    MonthKey(x.district, x.year, x.month)
  }

  /** How many elements of `xs` satisfy `p`. */
  function CountIf(xs: seq<int>, p: int -> bool): (n: nat)
    ensures n <= |xs|
  {
    if |xs| == 0 then 0 else CountIf(xs[..|xs| - 1], p) + (if p(xs[|xs| - 1]) then 1 else 0)
  }

  lemma {:induction false} CountIfConcat(a: seq<int>, b: seq<int>, p: int -> bool)
    ensures CountIf(a + b, p) == CountIf(a, p) + CountIf(b, p)
  {
    if |b| == 0 {
      assert a + b == a;
    } else {
      CountIfConcat(a, b[..|b| - 1], p);
      assert (a + b)[..|a + b| - 1] == a + b[..|b| - 1];
    }
  }

  /** Counting does not depend on the order of the elements. */
  lemma {:induction false} CountIfPermutation(a: seq<int>, b: seq<int>, p: int -> bool)
    requires multiset(a) == multiset(b)
    ensures CountIf(a, p) == CountIf(b, p)
  {
    if |a| > 0 {
      var x := a[|a| - 1];
      var front := a[..|a| - 1];
      assert a == front + [x];
      assert x in multiset(b);
      var i :| 0 <= i < |b| && b[i] == x;
      var rest := RemoveAt(b, i);
      assert multiset(front) == multiset(rest);
      CountIfPermutation(front, rest, p);
      CountIfRemoveAt(b, i, p);
    }
  }

  /** `b` without its element at `i`, which accounts for one copy of that element. */
  function RemoveAt(b: seq<int>, i: nat): (r: seq<int>)
    requires i < |b|
    ensures |r| == |b| - 1
    ensures multiset(r) == multiset(b) - multiset{b[i]}
  {
    assert b == b[..i] + [b[i]] + b[i + 1..];
    b[..i] + b[i + 1..]
  }

  /** Removing one element lowers the count by one exactly when that element satisfies `p`. */
  lemma CountIfRemoveAt(b: seq<int>, i: nat, p: int -> bool)
    requires i < |b|
    ensures CountIf(b, p) == CountIf(RemoveAt(b, i), p) + (if p(b[i]) then 1 else 0)
  {
    SplitAt(b, i);
    CountIfSplit(b, b[..i], b[i], b[i + 1..], p);
  }

  lemma SplitAt(b: seq<int>, i: nat)
    requires i < |b|
    ensures b == b[..i] + [b[i]] + b[i + 1..]
  {
  }

  /** Taking one element out lowers the count by one exactly when that element satisfies `p`. */
  lemma CountIfSplit(s: seq<int>, before: seq<int>, x: int, after: seq<int>, p: int -> bool)
    requires s == before + [x] + after
    ensures CountIf(s, p) == CountIf(before + after, p) + (if p(x) then 1 else 0)
  {
    CountIfConcat(before, after, p);
    CountIfConcat(before, [x], p);
    CountIfConcat(before + [x], after, p);
    assert [x][..0] == [];
  }

  /** How many of `xs` are strictly below `v`. */
  function CountBelow(xs: seq<int>, v: int): nat {
    CountIf(xs, x => x < v)
  }

  /** How many of `xs` are at most `v`. */
  function CountAtMost(xs: seq<int>, v: int): nat {
    CountIf(xs, x => x <= v)
  }

  predicate Ascending(xs: seq<int>) {
    forall i, j :: 0 <= i < j < |xs| ==> xs[i] <= xs[j]
  }

  /** Places `x` before the first element that is not smaller. */
  function InsertAscending(x: int, sorted: seq<int>): (r: seq<int>)
    ensures multiset(r) == multiset(sorted) + multiset{x}
  {
    if |sorted| == 0 || x <= sorted[0] then [x] + sorted
    else
      assert sorted == [sorted[0]] + sorted[1..];
      [sorted[0]] + InsertAscending(x, sorted[1..])
  }

  lemma {:induction false} InsertAscendingKeepsOrder(x: int, sorted: seq<int>)
    requires Ascending(sorted)
    ensures Ascending(InsertAscending(x, sorted))
  {
    if |sorted| > 0 && x > sorted[0] {
      var tail := sorted[1..];
      InsertAscendingKeepsOrder(x, tail);
      var rest := InsertAscending(x, tail);
      InsertAscendingBounded(x, tail, sorted[0]);
      var r := InsertAscending(x, sorted);
      assert r == [sorted[0]] + rest;
      forall i, j | 0 <= i < j < |r| ensures r[i] <= r[j] {
        assert r[j] == rest[j - 1];
        if i > 0 {
          assert r[i] == rest[i - 1];
        }
      }
    }
  }

  /** A lower bound of `x` and of every element stays a lower bound after inserting. */
  lemma InsertAscendingBounded(x: int, sorted: seq<int>, lo: int)
    requires lo <= x
    requires forall i :: 0 <= i < |sorted| ==> lo <= sorted[i]
    ensures forall i :: 0 <= i < |InsertAscending(x, sorted)| ==> lo <= InsertAscending(x, sorted)[i]
  {
    var r := InsertAscending(x, sorted);
    forall i | 0 <= i < |r| ensures lo <= r[i] {
      assert r[i] in multiset(r);
      assert r[i] == x || r[i] in multiset(sorted);
    }
  }

  /** `xs` in ascending order, by insertion. */
  function SortAscending(xs: seq<int>): (r: seq<int>)
    ensures Ascending(r)
    ensures multiset(r) == multiset(xs)
  {
    if |xs| == 0 then []
    else
      assert xs == [xs[0]] + xs[1..];
      InsertAscendingKeepsOrder(xs[0], SortAscending(xs[1..]));
      InsertAscending(xs[0], SortAscending(xs[1..]))
  }

  /** In an ascending sequence, at most `k` elements are below the one at `k`. */
  lemma AscendingCountBelow(s: seq<int>, k: nat)
    requires Ascending(s) && k < |s|
    ensures CountBelow(s, s[k]) <= k
  {
    var v := s[k];
    var before, from := s[..k], s[k..];
    assert s == before + from;
    CountIfConcat(before, from, x => x < v);
    NoneBelow(from, v);
  }

  /** In an ascending sequence, at least `k + 1` elements are at most the one at `k`. */
  lemma AscendingCountAtMost(s: seq<int>, k: nat)
    requires Ascending(s) && k < |s|
    ensures CountAtMost(s, s[k]) >= k + 1
  {
    var v := s[k];
    var upTo, after := s[..k + 1], s[k + 1..];
    assert s == upTo + after;
    CountIfConcat(upTo, after, x => x <= v);
    AllAtMost(upTo, v);
  }

  lemma {:induction false} NoneBelow(s: seq<int>, v: int)
    requires forall i :: 0 <= i < |s| ==> v <= s[i]
    ensures CountBelow(s, v) == 0
  {
    if |s| > 0 {
      NoneBelow(s[..|s| - 1], v);
    }
  }

  lemma {:induction false} AllAtMost(s: seq<int>, v: int)
    requires forall i :: 0 <= i < |s| ==> s[i] <= v
    ensures CountAtMost(s, v) == |s|
  {
    if |s| > 0 {
      AllAtMost(s[..|s| - 1], v);
    }
  }

  /**
   * `percentile_approx(counts, 0.5)` on exact data: the smallest element
   * such that at least half of the elements are at most it, i.e. the
   * element at position (n - 1) / 2 of the ascending order.
   */
  function LowerMedian(xs: seq<int>): (r: int)
    requires |xs| > 0
    ensures r in xs
    ensures CountBelow(xs, r) <= (|xs| - 1) / 2 < CountAtMost(xs, r)
  {
    var s := SortAscending(xs);
    var k := (|xs| - 1) / 2;
    assert |s| == |multiset(s)| == |xs|;
    assert s[k] in multiset(xs);
    AscendingCountBelow(s, k);
    AscendingCountAtMost(s, k);
    CountIfPermutation(xs, s, x => x < s[k]);
    CountIfPermutation(xs, s, x => x <= s[k]);
    s[k]
  }

  /** Fewer values are at most `u` than below a larger `v`. */
  lemma {:induction false} CountAtMostBelowMonotone(xs: seq<int>, u: int, v: int)
    requires u < v
    ensures CountAtMost(xs, u) <= CountBelow(xs, v)
  {
    if |xs| > 0 {
      CountAtMostBelowMonotone(xs[..|xs| - 1], u, v);
    }
  }

  /**
   * The two rank conditions of `LowerMedian` single out its value: any
   * element meeting them is the lower median.
   */
  lemma LowerMedianUnique(xs: seq<int>, v: int)
    requires |xs| > 0
    requires CountBelow(xs, v) <= (|xs| - 1) / 2 < CountAtMost(xs, v)
    ensures LowerMedian(xs) == v
  {
    var r := LowerMedian(xs);
    if r < v {
      CountAtMostBelowMonotone(xs, r, v);
    } else if v < r {
      CountAtMostBelowMonotone(xs, v, r);
    }
  }

  /** The group-key column of the per-month table. */
  function KeysOf(monthly: seq<MonthlyCount>): (r: seq<MonthKey>)
    ensures |r| == |monthly|
    ensures forall i :: 0 <= i < |monthly| ==> r[i] == monthly[i].key
  {
    Project(monthly, (x: MonthlyCount) => x.key)
  }

  /**
   * `crimes.distinct().groupBy(DISTRICT, YEAR, MONTH).agg(count)`: one row
   * per month that has an incident, with the number of distinct rows in it.
   */
  function MonthlyTotals(crimes: seq<Incident>): (r: seq<MonthlyCount>)
    ensures NoDuplicates(KeysOf(r))
    ensures forall k :: k in KeysOf(r) <==> k in Project(crimes, MonthKeyOf)
    ensures forall i :: 0 <= i < |r| ==> r[i].crimesTotal >= 1
  {
    var keys := Project(Distinct(crimes), MonthKeyOf);
    var groups := Distinct(keys);
    ProjectDistinct(crimes, MonthKeyOf);
    var r := seq(|groups|, i requires 0 <= i < |groups| => MonthlyCount(groups[i], multiset(keys)[groups[i]]));
    assert KeysOf(r) == groups;
    assert forall i :: 0 <= i < |r| ==> r[i].crimesTotal >= 1 by {
      forall i | 0 <= i < |r| ensures r[i].crimesTotal >= 1 {
        assert groups[i] in keys;
      }
    }
    r
  }

  /** Each monthly count is the number of different incident rows of that month. */
  lemma MonthlyCountCountsDistinctRows(crimes: seq<Incident>, m: MonthlyCount)
    requires m in MonthlyTotals(crimes)
    ensures m.crimesTotal == |Matching(crimes, MonthKeyOf, m.key)|
  {
    var rows := Distinct(crimes);
    var i :| 0 <= i < |MonthlyTotals(crimes)| && MonthlyTotals(crimes)[i] == m;
    CountMatching(rows, MonthKeyOf, m.key);
    assert Matching(rows, MonthKeyOf, m.key) == Matching(crimes, MonthKeyOf, m.key);
  }

  /** The DISTRICT column of the per-month table. */
  function MonthlyDistricts(monthly: seq<MonthlyCount>): (r: seq<Option<string>>)
    ensures |r| == |monthly|
    ensures forall i :: 0 <= i < |monthly| ==> r[i] == monthly[i].key.district
  {
    Project(monthly, (x: MonthlyCount) => x.key.district)
  }

  /** The monthly counts of district `d`, in table order. */
  function CountsOf(monthly: seq<MonthlyCount>, d: Option<string>): (r: seq<int>)
    ensures |r| > 0 <==> d in MonthlyDistricts(monthly)
    ensures forall c :: c in r ==> exists m :: m in monthly && m.key.district == d && m.crimesTotal == c
  {
    if |monthly| == 0 then []
    else
      assert MonthlyDistricts(monthly) == [monthly[0].key.district] + MonthlyDistricts(monthly[1..]);
      (if monthly[0].key.district == d then [monthly[0].crimesTotal] else []) + CountsOf(monthly[1..], d)
  }

  /** The monthly counts of district `d` over an incident table. */
  function MonthlyCounts(crimes: seq<Incident>, d: Option<string>): seq<int> {
    CountsOf(MonthlyTotals(crimes), d)
  }

  /**
   * Over a duplicate-free per-month table, a district's list holds one count per
   * month: a count occurs as often as there are months of `d` with that count.
   */
  lemma {:induction false} CountsOfPerMonth(monthly: seq<MonthlyCount>, d: Option<string>, c: int)
    requires NoDuplicates(monthly)
    ensures multiset(CountsOf(monthly, d))[c] == |set m | m in monthly && m.key.district == d && m.crimesTotal == c|
  {
    if |monthly| == 0 {
      assert (set m | m in monthly && m.key.district == d && m.crimesTotal == c) == {};
    } else {
      assert NoDuplicates(monthly[1..]);
      CountsOfPerMonth(monthly[1..], d, c);
      MonthsWithCountStep(monthly, d, c);
    }
  }

  /** Splitting the first month off a duplicate-free table splits the number of months with count `c`. */
  lemma MonthsWithCountStep(monthly: seq<MonthlyCount>, d: Option<string>, c: int)
    requires NoDuplicates(monthly) && |monthly| > 0
    ensures |set m | m in monthly && m.key.district == d && m.crimesTotal == c|
         == (if monthly[0].key.district == d && monthly[0].crimesTotal == c then 1 else 0)
          + |set m | m in monthly[1..] && m.key.district == d && m.crimesTotal == c|
  {
    var keep := (m: MonthlyCount) => m.key.district == d && m.crimesTotal == c;
    FirstRowCount(monthly, keep);
    assert keep(monthly[0]) == (monthly[0].key.district == d && monthly[0].crimesTotal == c);
    assert Where(monthly, keep) == (set m | m in monthly && m.key.district == d && m.crimesTotal == c);
    assert Where(monthly[1..], keep) == (set m | m in monthly[1..] && m.key.district == d && m.crimesTotal == c);
  }

  /**
   * The counts a district's median is taken over are those of all its months,
   * each once: a count occurs as often as there are (year, month) rows of `d` with it.
   */
  lemma MonthlyCountsPerMonth(crimes: seq<Incident>, d: Option<string>, c: int)
    ensures multiset(MonthlyCounts(crimes, d))[c]
         == |set m | m in MonthlyTotals(crimes) && m.key.district == d && m.crimesTotal == c|
  {
    var monthly := MonthlyTotals(crimes);
    assert NoDuplicates(monthly) by {
      forall i, j | 0 <= i < j < |monthly| ensures monthly[i] != monthly[j] {
        assert KeysOf(monthly)[i] != KeysOf(monthly)[j];
      }
    }
    CountsOfPerMonth(monthly, d, c);
  }

  /** The DISTRICT column of the `crimes_median` view. */
  function MedianDistricts(rows: seq<MedianRow>): (r: seq<Option<string>>)
    ensures |r| == |rows|
    ensures forall i :: 0 <= i < |rows| ==> r[i] == rows[i].district
  {
    Project(rows, (x: MedianRow) => x.district)
  }

  /** The districts of the per-month table are the districts of the incident log. */
  lemma MonthlyDistrictsOf(crimes: seq<Incident>)
    ensures forall d :: d in MonthlyDistricts(MonthlyTotals(crimes)) <==> d in Districts(crimes)
  {
    var monthly := MonthlyTotals(crimes);
    forall d ensures d in MonthlyDistricts(monthly) <==> d in Districts(crimes) {
      if d in MonthlyDistricts(monthly) {
        var i :| 0 <= i < |monthly| && monthly[i].key.district == d;
        assert monthly[i].key in KeysOf(monthly);
        var j :| 0 <= j < |crimes| && MonthKeyOf(crimes[j]) == monthly[i].key;
        assert Districts(crimes)[j] == d;
      }
      if d in Districts(crimes) {
        var j :| 0 <= j < |crimes| && crimes[j].district == d;
        assert MonthKeyOf(crimes[j]) in Project(crimes, MonthKeyOf);
        var i :| 0 <= i < |monthly| && KeysOf(monthly)[i] == MonthKeyOf(crimes[j]);
        assert MonthlyDistricts(monthly)[i] == d;
      }
    }
  }

  /**
   * `... .groupBy(DISTRICT).agg(percentile_approx(crimes_total, 0.5))`:
   * one row per district, in order of first appearance.
   */
  function Medians(crimes: seq<Incident>): (r: seq<MedianRow>)
    ensures NoDuplicates(MedianDistricts(r))
    ensures forall d :: d in MedianDistricts(r) <==> d in Districts(crimes)
  {
    var monthly := MonthlyTotals(crimes);
    var ds := Distinct(MonthlyDistricts(monthly));
    MonthlyDistrictsOf(crimes);
    var r := seq(|ds|, i requires 0 <= i < |ds| => MedianRow(ds[i], LowerMedian(CountsOf(monthly, ds[i]))));
    assert MedianDistricts(r) == ds;
    r
  }

  /**
   * The median of a district is the lower median of its monthly counts,
   * and so one of them.
   */
  lemma MedianIsMonthlyCount(crimes: seq<Incident>, row: MedianRow)
    requires row in Medians(crimes)
    ensures |MonthlyCounts(crimes, row.district)| > 0
    ensures row.crimesMonthly in MonthlyCounts(crimes, row.district)
    ensures row.crimesMonthly == LowerMedian(MonthlyCounts(crimes, row.district))
  {
    var i :| 0 <= i < |Medians(crimes)| && Medians(crimes)[i] == row;
  }

  /** Monthly medians are over distinct rows: a copied row changes nothing. */
  lemma MediansIgnoreCopies(crimes: seq<Incident>, x: Incident)
    requires x in crimes
    ensures Medians(crimes + [x]) == Medians(crimes)
  {
    DistinctAbsorbsCopy(crimes, x);
    ProjectDistinct(crimes + [x], MonthKeyOf);
    ProjectDistinct(crimes, MonthKeyOf);
  }

  /** Medians are computed over distinct rows: deduplicating first changes nothing. */
  lemma MediansOfDistinct(crimes: seq<Incident>)
    ensures Medians(Distinct(crimes)) == Medians(crimes)
  {
    DistinctIdempotent(crimes);
    ProjectDistinct(Distinct(crimes), MonthKeyOf);
    ProjectDistinct(crimes, MonthKeyOf);
  }

  /** Every district with a monthly count has its median row. */
  lemma MedianRowOf(crimes: seq<Incident>, d: Option<string>)
    requires |MonthlyCounts(crimes, d)| > 0
    ensures MedianRow(d, LowerMedian(MonthlyCounts(crimes, d))) in Medians(crimes)
  {
    var monthly := MonthlyTotals(crimes);
    var ds := Distinct(MonthlyDistricts(monthly));
    var i :| 0 <= i < |ds| && ds[i] == d;
    assert Medians(crimes)[i] == MedianRow(d, LowerMedian(CountsOf(monthly, d)));
  }

  /** A district whose months hold 2, 5 and 9 distinct incidents has median 5. */
  lemma MedianOfTwoFiveNine(crimes: seq<Incident>, d: Option<string>)
    requires multiset(MonthlyCounts(crimes, d)) == multiset{2, 5, 9}
    ensures MedianRow(d, 5) in Medians(crimes)
  {
    var cs := MonthlyCounts(crimes, d);
    var sorted := [2, 5, 9];
    assert multiset(sorted) == multiset(cs);
    CountIfPermutation(cs, sorted, x => x < 5);
    CountIfPermutation(cs, sorted, x => x <= 5);
    assert CountBelow(sorted, 5) == 1;
    assert CountAtMost(sorted, 5) == 2;
    assert |cs| == |multiset(cs)| == 3;
    LowerMedianUnique(cs, 5);
    MedianRowOf(crimes, d);
  }
}
