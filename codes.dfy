/**
 * Offense-code normaliser: sort the code table by CODE, keep one row per
 * code, and derive CRIME_TYPE as the part of NAME before the first " - ".
 */
module Codes {
  import opened Wrappers
  import opened Records
  import opened Relational

  /** A row of the normalised `offense_codes` table. */
  datatype NormalizedCode = NormalizedCode(code: int, name: Option<string>, crimeType: Option<string>)

  /** The separator that `split(NAME, ' - ')` cuts at. */
  const Separator: string := " - "

  /** The separator starts at position `i` of `s`. */
  predicate SeparatorAt(s: string, i: nat) {
    i + |Separator| <= |s| && s[i..i + |Separator|] == Separator
  }

  /**
   * `split(name, ' - ')[0]`: the longest prefix of `name` in which no
   * separator starts; it ends where the first separator starts, or at the
   * end of `name` when there is none.
   */
  function CrimeTypeOf(name: string): (r: string)
    ensures r <= name
    ensures forall i :: 0 <= i < |r| ==> !SeparatorAt(name, i)
    ensures |r| == |name| || SeparatorAt(name, |r|)
  {
    if |name| == 0 || SeparatorAt(name, 0) then []
    else
      var rest := CrimeTypeOf(name[1..]);
      assert forall i :: 1 <= i <= |name| ==> (SeparatorAt(name, i) <==> SeparatorAt(name[1..], i - 1)) by {
        forall i | 1 <= i <= |name|
          ensures SeparatorAt(name, i) <==> SeparatorAt(name[1..], i - 1)
        {
          if i + |Separator| <= |name| {
            assert name[i..i + |Separator|] == name[1..][i - 1..i - 1 + |Separator|];
          }
        }
      }
      [name[0]] + rest
  }

  /** The crime type is the whole name exactly when the name holds no separator. */
  lemma CrimeTypeWholeName(name: string)
    ensures CrimeTypeOf(name) == name <==> forall i :: 0 <= i < |name| ==> !SeparatorAt(name, i)
  {
  }

  /** The three conditions of `CrimeTypeOf` single out one prefix. */
  lemma CrimeTypeUnique(name: string, p: string)
    requires p <= name
    requires forall i :: 0 <= i < |p| ==> !SeparatorAt(name, i)
    requires |p| == |name| || SeparatorAt(name, |p|)
    ensures CrimeTypeOf(name) == p
  {
  }

  /** CRIME_TYPE of a code row; a NULL name gives a NULL crime type. */
  function CrimeType(name: Option<string>): (r: Option<string>)
    ensures r.Some? <==> name.Some?
    ensures r.Some? ==> r.value <= name.value
  {
    match name
    case None => None
    case Some(n) => Some(CrimeTypeOf(n))
  }

  /** The CODE column. */
  function CodesOf(rows: seq<CodeRow>): (r: seq<int>)
    ensures |r| == |rows|
    ensures forall i :: 0 <= i < |rows| ==> r[i] == rows[i].code
  {
    Project(rows, (x: CodeRow) => x.code)
  }

  /** Ascending by CODE. */
  predicate SortedByCode(rows: seq<CodeRow>) {
    forall i, j :: 0 <= i < j < |rows| ==> rows[i].code <= rows[j].code
  }

  /** Places `row` before the first row whose code is not smaller. */
  function InsertByCode(row: CodeRow, sorted: seq<CodeRow>): (r: seq<CodeRow>)
    ensures multiset(r) == multiset(sorted) + multiset{row}
  {
    if |sorted| == 0 || row.code <= sorted[0].code then [row] + sorted
    else
      assert sorted == [sorted[0]] + sorted[1..];
      [sorted[0]] + InsertByCode(row, sorted[1..])
  }

  lemma {:induction false} InsertByCodeKeepsOrder(row: CodeRow, sorted: seq<CodeRow>)
    requires SortedByCode(sorted)
    ensures SortedByCode(InsertByCode(row, sorted))
  {
    if |sorted| > 0 && row.code > sorted[0].code {
      var tail := sorted[1..];
      InsertByCodeKeepsOrder(row, tail);
      var rest := InsertByCode(row, tail);
      InsertByCodeBounded(row, tail, sorted[0].code);
      var r := InsertByCode(row, sorted);
      assert r == [sorted[0]] + rest;
      forall i, j | 0 <= i < j < |r| ensures r[i].code <= r[j].code {
        assert r[j] == rest[j - 1];
        if i > 0 {
          assert r[i] == rest[i - 1];
        }
      }
    }
  }

  /** A lower bound of the new row's code and of every code stays a lower bound after inserting. */
  lemma InsertByCodeBounded(row: CodeRow, sorted: seq<CodeRow>, lo: int)
    requires lo <= row.code
    requires forall i :: 0 <= i < |sorted| ==> lo <= sorted[i].code
    ensures forall i :: 0 <= i < |InsertByCode(row, sorted)| ==> lo <= InsertByCode(row, sorted)[i].code
  {
    var r := InsertByCode(row, sorted);
    forall i | 0 <= i < |r| ensures lo <= r[i].code {
      assert r[i] in multiset(r);
      assert r[i] == row || r[i] in multiset(sorted);
    }
  }

  /** `orderBy(CODE.asc())`, as a stable insertion sort. */
  function SortByCode(rows: seq<CodeRow>): (r: seq<CodeRow>)
    ensures SortedByCode(r)
    ensures multiset(r) == multiset(rows)
  {
    if |rows| == 0 then []
    else
      assert rows == [rows[0]] + rows[1..];
      InsertByCodeKeepsOrder(rows[0], SortByCode(rows[1..]));
      InsertByCode(rows[0], SortByCode(rows[1..]))
  }

  /** The rows of `rows` whose CODE is `c`, in order. */
  function WithCode(rows: seq<CodeRow>, c: int): (r: seq<CodeRow>)
    ensures forall x :: x in r <==> x in rows && x.code == c
  {
    if |rows| == 0 then []
    else if rows[0].code == c then [rows[0]] + WithCode(rows[1..], c)
    else WithCode(rows[1..], c)
  }

  /** Inserting never reorders rows of equal code: the new row lands before those with its code. */
  lemma {:induction false} WithCodeInsert(row: CodeRow, sorted: seq<CodeRow>, c: int)
    requires SortedByCode(sorted)
    ensures WithCode(InsertByCode(row, sorted), c)
         == (if row.code == c then [row] else []) + WithCode(sorted, c)
  {
    if |sorted| == 0 || row.code <= sorted[0].code {
      assert ([row] + sorted)[1..] == sorted;
    } else {
      WithCodeInsert(row, sorted[1..], c);
      var rest := InsertByCode(row, sorted[1..]);
      assert ([sorted[0]] + rest)[1..] == rest;
      if sorted[0].code == c {
        assert row.code != c;
      }
    }
  }

  /** The sort is stable: the rows of any one code keep their input order. */
  lemma {:induction false} SortByCodeStable(rows: seq<CodeRow>, c: int)
    ensures WithCode(SortByCode(rows), c) == WithCode(rows, c)
  {
    if |rows| > 0 {
      SortByCodeStable(rows[1..], c);
      WithCodeInsert(rows[0], SortByCode(rows[1..]), c);
    }
  }

  /** A code the table does not hold selects no row. */
  lemma {:induction false} WithCodeAbsent(rows: seq<CodeRow>, c: int)
    requires c !in CodesOf(rows)
    ensures WithCode(rows, c) == []
  {
    if |rows| > 0 {
      assert CodesOf(rows[1..]) == CodesOf(rows)[1..];
      WithCodeAbsent(rows[1..], c);
    }
  }

  /** Filtering by code distributes over concatenation. */
  lemma {:induction false} WithCodeConcat(a: seq<CodeRow>, b: seq<CodeRow>, c: int)
    ensures WithCode(a + b, c) == WithCode(a, c) + WithCode(b, c)
  {
    if |a| == 0 {
      assert a + b == b;
    } else {
      WithCodeConcat(a[1..], b, c);
      assert (a + b)[0] == a[0];
      assert (a + b)[1..] == a[1..] + b;
    }
  }

  /**
   * `dropDuplicates(['CODE'])`: one row per code, in order.
   * (The engine does not promise which row survives; the model keeps the
   * first, see `DropDuplicateCodesKeepsFirst`.)
   */
  function DropDuplicateCodes(rows: seq<CodeRow>): (r: seq<CodeRow>)
    ensures NoDuplicates(CodesOf(r))
    ensures forall c :: c in CodesOf(r) <==> c in CodesOf(rows)
    ensures forall x :: x in r ==> x in rows
  {
    if |rows| == 0 then []
    else
      var prefix := DropDuplicateCodes(rows[..|rows| - 1]);
      var last := rows[|rows| - 1];
      assert rows == rows[..|rows| - 1] + [last];
      assert CodesOf(rows) == CodesOf(rows[..|rows| - 1]) + [last.code];
      if last.code in CodesOf(prefix) then prefix
      else
        assert CodesOf(prefix + [last]) == CodesOf(prefix) + [last.code];
        prefix + [last]
  }

  /** The row that survives for a code is the first row of that code. */
  lemma {:induction false} DropDuplicateCodesKeepsFirst(rows: seq<CodeRow>, x: CodeRow)
    requires x in DropDuplicateCodes(rows)
    ensures WithCode(rows, x.code) != [] && x == WithCode(rows, x.code)[0]
  {
    var front := rows[..|rows| - 1];
    var last := rows[|rows| - 1];
    var prefix := DropDuplicateCodes(front);
    assert rows == front + [last];
    WithCodeConcat(front, [last], x.code);
    if x in prefix {
      DropDuplicateCodesKeepsFirst(front, x);
    } else {
      assert x == last;
      assert x.code !in CodesOf(prefix);
      WithCodeAbsent(front, x.code);
    }
  }

  /** Dropping rows from a table sorted by code leaves it sorted. */
  lemma {:induction false} DropDuplicateCodesSorted(rows: seq<CodeRow>)
    requires SortedByCode(rows)
    ensures SortedByCode(DropDuplicateCodes(rows))
  {
    if |rows| > 0 {
      var front := rows[..|rows| - 1];
      DropDuplicateCodesSorted(front);
      var prefix := DropDuplicateCodes(front);
      assert forall y :: y in prefix ==> y.code <= rows[|rows| - 1].code by {
        forall y | y in prefix ensures y.code <= rows[|rows| - 1].code {
          assert y in front;
        }
      }
    }
  }

  /** The CODE column of the normalised table. */
  function NormalizedCodesOf(rows: seq<NormalizedCode>): (r: seq<int>)
    ensures |r| == |rows|
    ensures forall i :: 0 <= i < |rows| ==> r[i] == rows[i].code
  {
    Project(rows, (x: NormalizedCode) => x.code)
  }

  /**
   * The `offense_codes` view: one row per code of the input, each with its
   * CRIME_TYPE.
   */
  function Normalize(codes: seq<CodeRow>): (r: seq<NormalizedCode>)
    ensures NoDuplicates(NormalizedCodesOf(r))
    ensures forall c :: c in NormalizedCodesOf(r) <==> c in CodesOf(codes)
    ensures forall x :: x in r ==> x.crimeType == CrimeType(x.name)
  {
    var sorted := SortByCode(codes);
    var kept := DropDuplicateCodes(sorted);
    assert forall c :: c in CodesOf(sorted) <==> c in CodesOf(codes) by {
      forall c ensures c in CodesOf(sorted) <==> c in CodesOf(codes) {
        if c in CodesOf(sorted) {
          var i :| 0 <= i < |sorted| && sorted[i].code == c;
          assert sorted[i] in multiset(codes);
        }
        if c in CodesOf(codes) {
          var i :| 0 <= i < |codes| && codes[i].code == c;
          assert codes[i] in multiset(sorted);
        }
      }
    }
    var r := seq(|kept|, i requires 0 <= i < |kept| => NormalizedCode(kept[i].code, kept[i].name, CrimeType(kept[i].name)));
    assert NormalizedCodesOf(r) == CodesOf(kept);
    r
  }

  /** The row kept for a code is the first row the input table holds for that code. */
  lemma NormalizeKeepsFirstRow(codes: seq<CodeRow>, x: NormalizedCode)
    requires x in Normalize(codes)
    ensures CodeRow(x.code, x.name) in codes
    ensures CodeRow(x.code, x.name) == WithCode(codes, x.code)[0]
  {
    var sorted := SortByCode(codes);
    var kept := DropDuplicateCodes(sorted);
    var i :| 0 <= i < |kept| && Normalize(codes)[i] == x;
    assert kept[i] == CodeRow(x.code, x.name);
    assert kept[i] in kept;
    assert kept[i] in multiset(sorted);
    DropDuplicateCodesKeepsFirst(sorted, kept[i]);
    SortByCodeStable(codes, x.code);
  }

  /** The normalised table is strictly ascending by code. */
  lemma NormalizeAscending(codes: seq<CodeRow>)
    ensures forall i, j :: 0 <= i < j < |Normalize(codes)| ==> Normalize(codes)[i].code < Normalize(codes)[j].code
  {
    var sorted := SortByCode(codes);
    DropDuplicateCodesSorted(sorted);
    var r := Normalize(codes);
    assert NoDuplicates(NormalizedCodesOf(r));
  }
}
