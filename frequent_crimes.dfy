/**
 * Top-3 crime types: left-join the raw incident rows to the normalised
 * offense codes, count per (DISTRICT, CRIME_TYPE), number the groups of each
 * district by descending count, keep numbers 1 to 3 and join their labels
 * with ",".
 */
module FrequentCrimes {
  import opened Wrappers
  import opened Relational
  import opened Records
  import opened Codes

  /** (DISTRICT, CRIME_TYPE) of one incident row after the left join. */
  datatype Labelled = Labelled(district: Option<string>, crimeType: Option<string>)

  /** A (DISTRICT, CRIME_TYPE) group of one district, with its COUNT(*). */
  datatype CrimeGroup = CrimeGroup(crimeType: Option<string>, count: nat)

  /** A row of the `frequent_crimes` view. */
  datatype FrequentRow = FrequentRow(district: Option<string>, frequentCrimeTypes: string)

  // ---------------------------------------------------------------------
  // The left join

  /**
   * The CRIME_TYPE the left join attaches to an offense code: that of the
   * code row with this code, or NULL when no row has it.
   */
  function CrimeTypeFor(offenseCodes: seq<NormalizedCode>, c: int): (r: Option<string>)
    ensures (forall x :: x in offenseCodes ==> x.code != c) ==> r.None?
    ensures r.Some? ==> exists x :: x in offenseCodes && x.code == c && x.crimeType == r
  {
    if |offenseCodes| == 0 then None
    else if offenseCodes[0].code == c then offenseCodes[0].crimeType
    else CrimeTypeFor(offenseCodes[1..], c)
  }

  /** Over a table with one row per code, the join picks the crime type of that row. */
  lemma {:induction false} CrimeTypeForMatch(offenseCodes: seq<NormalizedCode>, x: NormalizedCode)
    requires NoDuplicates(NormalizedCodesOf(offenseCodes))
    requires x in offenseCodes
    ensures CrimeTypeFor(offenseCodes, x.code) == x.crimeType
  {
    if offenseCodes[0] != x {
      assert NormalizedCodesOf(offenseCodes[1..]) == NormalizedCodesOf(offenseCodes)[1..];
      var j :| 0 <= j < |offenseCodes| && offenseCodes[j] == x;
      assert offenseCodes[0].code != x.code by {
        assert NormalizedCodesOf(offenseCodes)[0] != NormalizedCodesOf(offenseCodes)[j];
      }
      CrimeTypeForMatch(offenseCodes[1..], x);
    }
  }

  /**
   * `crimes LEFT JOIN offense_codes ON crimes.OFFENSE_CODE = offense_codes.code`,
   * reduced to the two columns that are grouped on. The codes are unique,
   * so every incident row gives exactly one joined row.
   */
  function Join(crimes: seq<Incident>, offenseCodes: seq<NormalizedCode>): (r: seq<Labelled>)
    ensures |r| == |crimes|
    ensures forall i :: 0 <= i < |crimes| ==>
              r[i] == Labelled(crimes[i].district, CrimeTypeFor(offenseCodes, crimes[i].offenseCode))
  {
    Project(crimes, (x: Incident) => Labelled(x.district, CrimeTypeFor(offenseCodes, x.offenseCode)))
  }

  /** The joined rows of the raw incident log, over the normalised code table. */
  function Labels(crimes: seq<Incident>, codes: seq<CodeRow>): (r: seq<Labelled>)
    ensures |r| == |crimes|
    ensures forall i :: 0 <= i < |crimes| ==> r[i].district == crimes[i].district
  {
    Join(crimes, Normalize(codes))
  }

  /**
   * An incident whose offense code has no row in the code table joins to a
   * NULL crime type; one whose code has a row joins to that row's crime type.
   */
  lemma JoinedCrimeType(crimes: seq<Incident>, codes: seq<CodeRow>, i: nat)
    requires i < |crimes|
    ensures crimes[i].offenseCode !in CodesOf(codes) ==> Labels(crimes, codes)[i].crimeType.None?
    ensures forall x :: x in Normalize(codes) && x.code == crimes[i].offenseCode ==>
              Labels(crimes, codes)[i].crimeType == CrimeType(x.name)
  {
    var oc := Normalize(codes);
    forall x | x in oc && x.code == crimes[i].offenseCode
      ensures Labels(crimes, codes)[i].crimeType == CrimeType(x.name)
    {
      CrimeTypeForMatch(oc, x);
    }
    if crimes[i].offenseCode !in CodesOf(codes) {
      forall x | x in oc ensures x.code != crimes[i].offenseCode {
        var j :| 0 <= j < |oc| && oc[j] == x;
        assert NormalizedCodesOf(oc)[j] == x.code;
      }
    }
  }

  // ---------------------------------------------------------------------
  // GROUP BY DISTRICT, CRIME_TYPE

  /** The crime types of a list of groups. */
  function TypesOf(groups: seq<CrimeGroup>): (r: seq<Option<string>>)
    ensures |r| == |groups|
    ensures forall i :: 0 <= i < |groups| ==> r[i] == groups[i].crimeType
  {
    seq(|groups|, i requires 0 <= i < |groups| => groups[i].crimeType)
  }

  /** The groups of district `d` among the group keys `keys`, counted over `joined`. */
  function GroupsIn(keys: seq<Labelled>, joined: seq<Labelled>, d: Option<string>): (r: seq<CrimeGroup>)
    ensures forall g :: g in r <==> Labelled(d, g.crimeType) in keys && g.count == multiset(joined)[Labelled(d, g.crimeType)]
    ensures NoDuplicates(keys) ==> NoDuplicates(TypesOf(r))
  {
    if |keys| == 0 then []
    else
      var rest := GroupsIn(keys[1..], joined, d);
      assert keys == [keys[0]] + keys[1..];
      assert NoDuplicates(keys) ==> NoDuplicates(keys[1..]) && keys[0] !in keys[1..];
      if keys[0].district == d then
        var g := CrimeGroup(keys[0].crimeType, multiset(joined)[keys[0]]);
        assert TypesOf([g] + rest) == [g.crimeType] + TypesOf(rest);
        [g] + rest
      else rest
  }

  /**
   * The (DISTRICT, CRIME_TYPE) groups of district `d`: each crime type
   * that occurs in the district once, with the number of RAW incident rows
   * that carry it (the `crimes` view is not deduplicated).
   */
  function Groups(crimes: seq<Incident>, codes: seq<CodeRow>, d: Option<string>): (r: seq<CrimeGroup>)
    ensures NoDuplicates(TypesOf(r))
    ensures forall g :: g in r <==> 1 <= g.count == multiset(Labels(crimes, codes))[Labelled(d, g.crimeType)]
  {
    var joined := Labels(crimes, codes);
    GroupsIn(Distinct(joined), joined, d)
  }

  /** A copy of an incident row counts again here, unlike in the totals and the median. */
  lemma CopyCountsAgain(crimes: seq<Incident>, codes: seq<CodeRow>, x: Incident)
    ensures var k := Labelled(x.district, CrimeTypeFor(Normalize(codes), x.offenseCode));
            multiset(Labels(crimes + [x], codes))[k] == multiset(Labels(crimes, codes))[k] + 1
  {
    assert Labels(crimes + [x], codes) == Labels(crimes, codes) + Labels([x], codes);
  }

  // ---------------------------------------------------------------------
  // ROW_NUMBER() OVER (PARTITION BY DISTRICT ORDER BY COUNT(*) DESC)

  /** Lexicographic order on labels. */
  predicate StringLe(a: string, b: string) {
    |a| == 0 || (|b| > 0 && (a[0] < b[0] || (a[0] == b[0] && StringLe(a[1..], b[1..]))))
  }

  lemma {:induction false} StringLeTotal(a: string, b: string)
    ensures StringLe(a, b) || StringLe(b, a)
  {
    if |a| > 0 && |b| > 0 && a[0] == b[0] {
      StringLeTotal(a[1..], b[1..]);
    }
  }

  lemma {:induction false} StringLeTransitive(a: string, b: string, c: string)
    requires StringLe(a, b) && StringLe(b, c)
    ensures StringLe(a, c)
  {
    if |a| > 0 && |b| > 0 && |c| > 0 && a[0] == b[0] == c[0] {
      StringLeTransitive(a[1..], b[1..], c[1..]);
    }
  }

  /** The tie-break on crime types: NULL first, then labels in lexicographic order. */
  predicate CrimeTypeLe(a: Option<string>, b: Option<string>) {
    a.None? || (b.Some? && StringLe(a.value, b.value))
  }

  /**
   * `g` is numbered before `h`: a larger count first, and between equal
   * counts the smaller crime type (the engine leaves that order open).
   */
  predicate RanksBefore(g: CrimeGroup, h: CrimeGroup)
    ensures g.count > h.count ==> RanksBefore(g, h)
    ensures RanksBefore(g, h) ==> g.count >= h.count
  {
    g.count > h.count || (g.count == h.count && CrimeTypeLe(g.crimeType, h.crimeType))
  }

  lemma {:induction false} StringLeAntisymmetric(a: string, b: string)
    requires StringLe(a, b) && StringLe(b, a)
    ensures a == b
  {
    if |a| > 0 && |b| > 0 {
      StringLeAntisymmetric(a[1..], b[1..]);
      assert a == [a[0]] + a[1..] && b == [b[0]] + b[1..];
    }
  }

  /** Two groups that each rank before the other have the same count and crime type. */
  lemma RanksBeforeAntisymmetric(g: CrimeGroup, h: CrimeGroup)
    requires RanksBefore(g, h) && RanksBefore(h, g)
    ensures g == h
  {
    if g.crimeType.Some? && h.crimeType.Some? {
      StringLeAntisymmetric(g.crimeType.value, h.crimeType.value);
    }
  }

  lemma RanksBeforeTotal(g: CrimeGroup, h: CrimeGroup)
    ensures RanksBefore(g, h) || RanksBefore(h, g)
  {
    if g.count == h.count && g.crimeType.Some? && h.crimeType.Some? {
      StringLeTotal(g.crimeType.value, h.crimeType.value);
    }
  }

  lemma RanksBeforeTransitive(f: CrimeGroup, g: CrimeGroup, h: CrimeGroup)
    requires RanksBefore(f, g) && RanksBefore(g, h)
    ensures RanksBefore(f, h)
  {
    if f.count == g.count == h.count && f.crimeType.Some? && g.crimeType.Some? && h.crimeType.Some? {
      StringLeTransitive(f.crimeType.value, g.crimeType.value, h.crimeType.value);
    }
  }

  /** Numbered in order: every group ranks before all later ones. */
  predicate Ranked(groups: seq<CrimeGroup>) {
    forall i, j :: 0 <= i < j < |groups| ==> RanksBefore(groups[i], groups[j])
  }

  /** Places `g` before the first group it ranks before. */
  function InsertRanked(g: CrimeGroup, ranked: seq<CrimeGroup>): (r: seq<CrimeGroup>)
    ensures multiset(r) == multiset(ranked) + multiset{g}
  {
    if |ranked| == 0 || RanksBefore(g, ranked[0]) then [g] + ranked
    else
      assert ranked == [ranked[0]] + ranked[1..];
      [ranked[0]] + InsertRanked(g, ranked[1..])
  }

  lemma {:induction false} InsertRankedKeepsOrder(g: CrimeGroup, ranked: seq<CrimeGroup>)
    requires Ranked(ranked)
    ensures Ranked(InsertRanked(g, ranked))
  {
    var r := InsertRanked(g, ranked);
    if |ranked| > 0 && RanksBefore(g, ranked[0]) {
      forall j | 1 <= j < |r| ensures RanksBefore(r[0], r[j]) {
        assert r[j] == ranked[j - 1];
        if j > 1 {
          RanksBeforeTransitive(g, ranked[0], ranked[j - 1]);
        }
      }
    } else if |ranked| > 0 {
      var rest := InsertRanked(g, ranked[1..]);
      InsertRankedKeepsOrder(g, ranked[1..]);
      RanksBeforeTotal(g, ranked[0]);
      InsertRankedOutranked(g, ranked[1..], ranked[0]);
      assert r == [ranked[0]] + rest;
      forall i, j | 0 <= i < j < |r| ensures RanksBefore(r[i], r[j]) {
        assert r[j] == rest[j - 1];
        if i > 0 {
          assert r[i] == rest[i - 1];
        }
      }
    }
  }

  /** A group that ranks before `g` and before every group still does after inserting `g`. */
  lemma InsertRankedOutranked(g: CrimeGroup, ranked: seq<CrimeGroup>, first: CrimeGroup)
    requires RanksBefore(first, g)
    requires forall i :: 0 <= i < |ranked| ==> RanksBefore(first, ranked[i])
    ensures forall i :: 0 <= i < |InsertRanked(g, ranked)| ==> RanksBefore(first, InsertRanked(g, ranked)[i])
  {
    var r := InsertRanked(g, ranked);
    forall i | 0 <= i < |r| ensures RanksBefore(first, r[i]) {
      assert r[i] in multiset(r);
      if r[i] != g {
        assert r[i] in multiset(ranked);
        var j :| 0 <= j < |ranked| && ranked[j] == r[i];
      }
    }
  }

  /** The groups of a district in numbering order. */
  function Rank(groups: seq<CrimeGroup>): (r: seq<CrimeGroup>)
    ensures Ranked(r)
    ensures multiset(r) == multiset(groups)
  {
    if |groups| == 0 then []
    else
      assert groups == [groups[0]] + groups[1..];
      InsertRankedKeepsOrder(groups[0], Rank(groups[1..]));
      InsertRanked(groups[0], Rank(groups[1..]))
  }

  /** How many groups `WHERE rank <= 3` keeps. */
  function KeptCount(groups: seq<CrimeGroup>): nat {
    if |groups| < 3 then |groups| else 3
  }

  /** The groups numbered 1 to 3. */
  function Kept(groups: seq<CrimeGroup>): (r: seq<CrimeGroup>)
    ensures |r| <= 3
    ensures Ranked(r)
  {
    Rank(groups)[..KeptCount(groups)]
  }

  /** The groups numbered 4 and on. */
  function Dropped(groups: seq<CrimeGroup>): seq<CrimeGroup> {
    var ranked := Rank(groups);
    assert |ranked| == |multiset(ranked)| == |groups|;
    ranked[KeptCount(groups)..]
  }

  /**
   * The ranking keeps the three groups with the largest counts: no dropped
   * group has a larger count than a kept one, kept and dropped together are
   * the district's groups, and fewer than three are kept only when the
   * district has fewer than three.
   */
  lemma KeptOutrankDropped(groups: seq<CrimeGroup>)
    ensures multiset(Kept(groups)) + multiset(Dropped(groups)) == multiset(groups)
    ensures |Kept(groups)| == if |groups| < 3 then |groups| else 3
    ensures forall g, h :: g in Kept(groups) && h in Dropped(groups) ==> g.count >= h.count
  {
    var ranked := Rank(groups);
    var k := KeptCount(groups);
    assert |ranked| == |multiset(ranked)| == |groups|;
    assert ranked == ranked[..k] + ranked[k..];
    forall g, h | g in Kept(groups) && h in Dropped(groups) ensures g.count >= h.count {
      var i :| 0 <= i < k && ranked[i] == g;
      var j :| 0 <= j < |ranked| - k && ranked[k..][j] == h;
      assert RanksBefore(ranked[i], ranked[k + j]);
    }
  }

  /**
   * A crime type that keeps its number has a group whose count is at least
   * that of the group of any crime type that loses its number.
   */
  lemma KeptTypeOutranks(groups: seq<CrimeGroup>, t: Option<string>, u: Option<string>) returns (g: CrimeGroup, h: CrimeGroup)
    requires t in TypesOf(Kept(groups))
    requires u in TypesOf(groups) && u !in TypesOf(Kept(groups))
    ensures g in groups && g.crimeType == t
    ensures h in groups && h.crimeType == u
    ensures g.count >= h.count
  {
    var kept := Kept(groups);
    KeptOutrankDropped(groups);
    var i :| 0 <= i < |kept| && kept[i].crimeType == t;
    var j :| 0 <= j < |groups| && groups[j].crimeType == u;
    g, h := kept[i], groups[j];
    assert h !in kept;
    assert h in multiset(groups);
    assert h in multiset(Dropped(groups));
    assert g in multiset(kept);
    assert g in multiset(groups);
    assert g in groups;
  }

  // ---------------------------------------------------------------------
  // CONCAT_WS(',', collect_list(CRIME_TYPE))

  /** `collect_list`: the non-NULL crime types of the kept groups, in numbering order. */
  function LabelsOf(kept: seq<CrimeGroup>): (r: seq<string>)
    ensures |r| <= |kept|
  {
    if |kept| == 0 then []
    else
      match kept[0].crimeType
      case None => LabelsOf(kept[1..])
      case Some(l) => [l] + LabelsOf(kept[1..])
  }

  /** The labels are exactly the non-NULL crime types of the kept groups. */
  lemma {:induction false} LabelsOfTypes(kept: seq<CrimeGroup>)
    ensures forall l :: l in LabelsOf(kept) <==> Some(l) in TypesOf(kept)
  {
    if |kept| > 0 {
      assert TypesOf(kept) == [kept[0].crimeType] + TypesOf(kept[1..]);
      LabelsOfTypes(kept[1..]);
    }
  }

  /** One step of `collect_list`: the first group's label, if any, then the rest. */
  lemma LabelsOfStep(kept: seq<CrimeGroup>)
    requires |kept| > 0
    ensures kept[0].crimeType.None? ==> LabelsOf(kept) == LabelsOf(kept[1..])
    ensures kept[0].crimeType.Some? ==> LabelsOf(kept) == [kept[0].crimeType.value] + LabelsOf(kept[1..])
  {
  }

  /** Where a label that does not come from the first group sits among the labels of the rest. */
  lemma LabelShift(kept: seq<CrimeGroup>, i: nat) returns (k: nat)
    requires 0 < |kept| && i < |LabelsOf(kept)|
    requires kept[0].crimeType.None? || i > 0
    ensures k == if kept[0].crimeType.None? then i else i - 1
    ensures k < |LabelsOf(kept[1..])| && LabelsOf(kept)[i] == LabelsOf(kept[1..])[k]
  {
    LabelsOfStep(kept);
    if kept[0].crimeType.None? {
      k := i;
    } else {
      k := i - 1;
      assert LabelsOf(kept)[i] == LabelsOf(kept[1..])[i - 1];
    }
  }

  /** Each label comes from a kept group at or after its own position. */
  lemma {:induction false} LabelSource(kept: seq<CrimeGroup>, i: nat) returns (p: nat)
    requires i < |LabelsOf(kept)|
    ensures i <= p < |kept| && kept[p].crimeType == Some(LabelsOf(kept)[i])
    decreases |kept|, 1
  {
    LabelsOfStep(kept);
    if kept[0].crimeType.Some? && i == 0 {
      p := 0;
    } else {
      p := LabelSourceInRest(kept, i);
    }
  }

  /** A label that does not come from the first group comes from the rest. */
  lemma {:induction false} LabelSourceInRest(kept: seq<CrimeGroup>, i: nat) returns (p: nat)
    requires 0 < |kept| && i < |LabelsOf(kept)|
    requires kept[0].crimeType.None? || i > 0
    ensures i <= p < |kept| && kept[p].crimeType == Some(LabelsOf(kept)[i])
    decreases |kept|, 0
  {
    var rest := kept[1..];
    var k := LabelShift(kept, i);
    var p' := LabelSource(rest, k);
    assert rest[p'] == kept[p' + 1];
    p := p' + 1;
  }

  /** `collect_list` keeps the numbering order: later labels come from later groups. */
  lemma {:induction false} LabelsOfInOrder(kept: seq<CrimeGroup>, i: nat, j: nat) returns (p: nat, q: nat)
    requires i < j < |LabelsOf(kept)|
    ensures p < q < |kept|
    ensures kept[p].crimeType == Some(LabelsOf(kept)[i]) && kept[q].crimeType == Some(LabelsOf(kept)[j])
    decreases |kept|, 1
  {
    LabelsOfStep(kept);
    if kept[0].crimeType.Some? && i == 0 {
      p := 0;
      q := LabelSourceInRest(kept, j);
    } else {
      p, q := LabelsOfInOrderInRest(kept, i, j);
    }
  }

  /** Two labels that do not come from the first group keep their order in the rest. */
  lemma {:induction false} LabelsOfInOrderInRest(kept: seq<CrimeGroup>, i: nat, j: nat) returns (p: nat, q: nat)
    requires 0 < |kept| && i < j < |LabelsOf(kept)|
    requires kept[0].crimeType.None? || i > 0
    ensures p < q < |kept|
    ensures kept[p].crimeType == Some(LabelsOf(kept)[i]) && kept[q].crimeType == Some(LabelsOf(kept)[j])
    decreases |kept|, 0
  {
    var rest := kept[1..];
    var i' := LabelShift(kept, i);
    var j' := LabelShift(kept, j);
    var p', q' := LabelsOfInOrder(rest, i', j');
    assert rest[p'] == kept[p' + 1] && rest[q'] == kept[q' + 1];
    p, q := p' + 1, q' + 1;
  }

  /** A NULL crime type takes a number but leaves no label behind. */
  lemma {:induction false} NullTakesSlotWithoutLabel(kept: seq<CrimeGroup>)
    ensures None in TypesOf(kept) ==> |LabelsOf(kept)| < |kept|
    ensures None !in TypesOf(kept) ==> |LabelsOf(kept)| == |kept|
  {
    if |kept| > 0 {
      assert TypesOf(kept) == [kept[0].crimeType] + TypesOf(kept[1..]);
      NullTakesSlotWithoutLabel(kept[1..]);
    }
  }

  /** The total length of a list of labels. */
  function LabelsLength(labels: seq<string>): nat {
    if |labels| == 0 then 0 else |labels[0]| + LabelsLength(labels[1..])
  }

  /**
   * `CONCAT_WS(',', labels)`: the labels in order with one comma between
   * consecutive ones, so the first label starts the string.
   */
  function JoinLabels(labels: seq<string>): (r: string)
    ensures |labels| == 0 ==> r == ""
    ensures |labels| > 0 ==> labels[0] <= r && |r| == LabelsLength(labels) + |labels| - 1
  {
    if |labels| == 0 then ""
    else if |labels| == 1 then labels[0]
    else labels[0] + "," + JoinLabels(labels[1..])
  }

  /** Cuts a string at every comma. */
  function SplitAtCommas(s: string): (r: seq<string>)
    ensures |r| >= 1
  {
    if |s| == 0 then [""]
    else
      var rest := SplitAtCommas(s[1..]);
      if s[0] == ',' then [""] + rest else [[s[0]] + rest[0]] + rest[1..]
  }

  lemma {:induction false} SplitPrefix(a: string, b: string)
    requires ',' !in a
    ensures SplitAtCommas(a + b) == [a + SplitAtCommas(b)[0]] + SplitAtCommas(b)[1..]
  {
    if |a| > 0 {
      SplitPrefix(a[1..], b);
      assert (a + b)[1..] == a[1..] + b;
      assert a[0] in a;
      assert [a[0]] + (a[1..] + SplitAtCommas(b)[0]) == a + SplitAtCommas(b)[0];
    } else {
      var parts := SplitAtCommas(b);
      assert a + b == b;
      assert a + parts[0] == parts[0];
      assert parts == [parts[0]] + parts[1..];
    }
  }

  /**
   * Joining labels that hold no comma can be undone: cutting the result at
   * its commas gives the labels back.
   */
  lemma {:induction false} SplitJoinLabels(labels: seq<string>)
    requires |labels| > 0
    requires forall l :: l in labels ==> ',' !in l
    ensures SplitAtCommas(JoinLabels(labels)) == labels
  {
    if |labels| == 1 {
      SplitPrefix(labels[0], "");
      assert labels[0] + "" == labels[0];
    } else {
      SplitJoinLabels(labels[1..]);
      var tail := "," + JoinLabels(labels[1..]);
      assert JoinLabels(labels) == labels[0] + tail;
      SplitPrefix(labels[0], tail);
      assert tail[1..] == JoinLabels(labels[1..]);
      assert SplitAtCommas(tail) == [""] + labels[1..];
      assert labels[0] + "" == labels[0];
    }
  }

  // ---------------------------------------------------------------------
  // The `frequent_crimes` view

  /** The labels of district `d`, in numbering order. */
  function TopLabels(crimes: seq<Incident>, codes: seq<CodeRow>, d: Option<string>): (r: seq<string>)
    ensures |r| <= 3
    ensures forall l :: l in r ==> Labelled(d, Some(l)) in Labels(crimes, codes)
  {
    var groups := Groups(crimes, codes, d);
    var kept := Kept(groups);
    LabelsOfTypes(kept);
    assert forall l :: l in LabelsOf(kept) ==> Labelled(d, Some(l)) in Labels(crimes, codes) by {
      forall l | l in LabelsOf(kept) ensures Labelled(d, Some(l)) in Labels(crimes, codes) {
        var k :| 0 <= k < |kept| && TypesOf(kept)[k] == Some(l);
        KeptAreGroups(groups, kept[k]);
        assert Labelled(d, Some(l)) in multiset(Labels(crimes, codes));
      }
    }
    LabelsOf(kept)
  }

  /** The DISTRICT column of the `frequent_crimes` view. */
  function FrequentDistricts(rows: seq<FrequentRow>): (r: seq<Option<string>>)
    ensures |r| == |rows|
    ensures forall i :: 0 <= i < |rows| ==> r[i] == rows[i].district
  {
    Project(rows, (x: FrequentRow) => x.district)
  }

  /** One row per district of the raw incident log, with its joined labels. */
  function Frequent(crimes: seq<Incident>, codes: seq<CodeRow>): (r: seq<FrequentRow>)
    ensures NoDuplicates(FrequentDistricts(r))
    ensures forall d :: d in FrequentDistricts(r) <==> d in Districts(crimes)
  {
    var ds := Distinct(Districts(crimes));
    var r := seq(|ds|, i requires 0 <= i < |ds| => FrequentRow(ds[i], JoinLabels(TopLabels(crimes, codes, ds[i]))));
    assert FrequentDistricts(r) == ds;
    r
  }

  /** Every row of the view is the district's joined labels, and every district has its row. */
  lemma FrequentRowOf(crimes: seq<Incident>, codes: seq<CodeRow>, d: Option<string>)
    ensures d in Districts(crimes) <==> FrequentRow(d, JoinLabels(TopLabels(crimes, codes, d))) in Frequent(crimes, codes)
    ensures forall row :: row in Frequent(crimes, codes) ==> row.frequentCrimeTypes == JoinLabels(TopLabels(crimes, codes, row.district))
  {
    var ds := Distinct(Districts(crimes));
    if d in Districts(crimes) {
      var i :| 0 <= i < |ds| && ds[i] == d;
      assert Frequent(crimes, codes)[i] == FrequentRow(d, JoinLabels(TopLabels(crimes, codes, d)));
    }
    if FrequentRow(d, JoinLabels(TopLabels(crimes, codes, d))) in Frequent(crimes, codes) {
      assert d in FrequentDistricts(Frequent(crimes, codes));
    }
  }

  /** The number of raw incident rows of district `d` that join to crime type `t`. */
  function RawCount(crimes: seq<Incident>, codes: seq<CodeRow>, d: Option<string>, t: Option<string>): nat {
    multiset(Labels(crimes, codes))[Labelled(d, t)]
  }

  /**
   * Every crime type that keeps a number in district `d` occurs in at least
   * as many raw incident rows of `d` as any crime type of `d` that loses its
   * number, and at most three keep one.
   */
  lemma MostFrequentKept(crimes: seq<Incident>, codes: seq<CodeRow>, d: Option<string>, t: Option<string>, u: Option<string>)
    requires t in TypesOf(Kept(Groups(crimes, codes, d)))
    requires u in TypesOf(Groups(crimes, codes, d)) && u !in TypesOf(Kept(Groups(crimes, codes, d)))
    ensures RawCount(crimes, codes, d, t) >= RawCount(crimes, codes, d, u) >= 1
  {
    var g, h := KeptTypeOutranks(Groups(crimes, codes, d), t, u);
  }

  /**
   * The labels of a district: at most three; exactly three when the
   * district has three crime types or more and none of the kept ones is
   * NULL; each one a non-NULL crime type of a kept group.
   */
  lemma TopLabelsCount(crimes: seq<Incident>, codes: seq<CodeRow>, d: Option<string>)
    ensures |TopLabels(crimes, codes, d)| <= 3
    ensures |Groups(crimes, codes, d)| >= 3 && None !in TypesOf(Kept(Groups(crimes, codes, d))) ==> |TopLabels(crimes, codes, d)| == 3
    ensures None in TypesOf(Kept(Groups(crimes, codes, d))) ==> |TopLabels(crimes, codes, d)| < |Kept(Groups(crimes, codes, d))|
    ensures forall l :: l in TopLabels(crimes, codes, d) ==> Some(l) in TypesOf(Kept(Groups(crimes, codes, d)))
  {
    var groups := Groups(crimes, codes, d);
    KeptOutrankDropped(groups);
    NullTakesSlotWithoutLabel(Kept(groups));
    LabelsOfTypes(Kept(groups));
  }

  /**
   * The labels are listed by descending frequency: an earlier label occurs
   * in at least as many raw incident rows of the district as a later one.
   */
  lemma TopLabelsByCount(crimes: seq<Incident>, codes: seq<CodeRow>, d: Option<string>, i: nat, j: nat)
    requires i < j < |TopLabels(crimes, codes, d)|
    ensures RawCount(crimes, codes, d, Some(TopLabels(crimes, codes, d)[i])) >= RawCount(crimes, codes, d, Some(TopLabels(crimes, codes, d)[j]))
  {
    var groups := Groups(crimes, codes, d);
    var kept := Kept(groups);
    var p, q := LabelsOfInOrder(kept, i, j);
    assert RanksBefore(kept[p], kept[q]);
    KeptAreGroups(groups, kept[p]);
    KeptAreGroups(groups, kept[q]);
  }

  /** Every kept group is one of the district's groups. */
  lemma KeptAreGroups(groups: seq<CrimeGroup>, g: CrimeGroup)
    requires g in Kept(groups)
    ensures g in groups
  {
    var ranked := Rank(groups);
    assert g in ranked;
    assert g in multiset(ranked);
  }
}
