/**
 * Relational building blocks shared by the stages of the report:
 * duplicate-free sequences and `SELECT DISTINCT`.
 */
module Relational {

  /** No value occurs twice in `s`. */
  predicate NoDuplicates<T(==)>(s: seq<T>) {
    forall i, j :: 0 <= i < j < |s| ==> s[i] != s[j]
  }

  /**
   * `DataFrame.distinct()`: every value of `s` once, at its first occurrence.
   * (The engine gives no order; the model keeps order of first appearance.)
   */
  function Distinct<T(==,!new)>(s: seq<T>): (r: seq<T>)
    ensures NoDuplicates(r)
    ensures forall x :: x in r <==> x in s
    ensures |r| <= |s|
  {
    if |s| == 0 then []
    else
      var prefix := Distinct(s[..|s| - 1]);
      var last := s[|s| - 1];
      assert forall x :: x in s <==> x in s[..|s| - 1] || x == last by {
        assert s == s[..|s| - 1] + [last];
      }
      if last in prefix then prefix else prefix + [last]
  }

  /** A sequence that is already duplicate-free is its own `distinct()`. */
  lemma {:induction false} DistinctOfNoDuplicates<T(!new)>(s: seq<T>)
    requires NoDuplicates(s)
    ensures Distinct(s) == s
  {
    if |s| > 0 {
      var prefix := s[..|s| - 1];
      assert NoDuplicates(prefix);
      DistinctOfNoDuplicates(prefix);
      assert s[|s| - 1] !in prefix;
      assert s == prefix + [s[|s| - 1]];
    }
  }

  /** `distinct()` is idempotent. */
  lemma DistinctIdempotent<T(!new)>(s: seq<T>)
    ensures Distinct(Distinct(s)) == Distinct(s)
  {
    DistinctOfNoDuplicates(Distinct(s));
  }

  /** Appending a copy of a row that is already present leaves `distinct()` unchanged. */
  lemma DistinctAbsorbsCopy<T(!new)>(s: seq<T>, x: T)
    requires x in s
    ensures Distinct(s + [x]) == Distinct(s)
  {
    assert (s + [x])[..|s|] == s;
  }

  /** One column of a table: `key` applied to every row. */
  function Project<T, K>(rows: seq<T>, key: T -> K): (r: seq<K>)
    ensures |r| == |rows|
    ensures forall i :: 0 <= i < |rows| ==> r[i] == key(rows[i])
  {
    seq(|rows|, i requires 0 <= i < |rows| => key(rows[i]))
  }

  /** The rows whose `key` is `k`, as a set. */
  function Matching<T(!new), K(==)>(rows: seq<T>, key: T -> K, k: K): set<T> {
    set x | x in rows && key(x) == k
  }

  /**
   * `count(*)` of a group over a duplicate-free table: the number of rows
   * with key `k` equals the number of entries `k` in the key column.
   */
  lemma {:induction false} CountMatching<T(!new), K>(rows: seq<T>, key: T -> K, k: K)
    requires NoDuplicates(rows)
    ensures |Matching(rows, key, k)| == multiset(Project(rows, key))[k]
  {
    if |rows| > 0 {
      var front := rows[..|rows| - 1];
      var last := rows[|rows| - 1];
      assert rows == front + [last];
      assert NoDuplicates(front);
      CountMatching(front, key, k);
      assert Project(rows, key) == Project(front, key) + [key(last)];
      assert last !in front;
      if key(last) == k {
        assert Matching(rows, key, k) == Matching(front, key, k) + {last};
      } else {
        assert Matching(rows, key, k) == Matching(front, key, k);
      }
    }
  }

  /** The rows satisfying `keep`, as a set. */
  function Where<T(!new)>(rows: seq<T>, keep: T -> bool): set<T> {
    set x | x in rows && keep(x)
  }

  /**
   * Over a duplicate-free table, the number of rows satisfying `keep` is that
   * of the first row plus that of the rest.
   */
  lemma FirstRowCount<T(!new)>(rows: seq<T>, keep: T -> bool)
    requires NoDuplicates(rows) && |rows| > 0
    ensures |Where(rows, keep)| == (if keep(rows[0]) then 1 else 0) + |Where(rows[1..], keep)|
  {
    var rest := rows[1..];
    assert rows == [rows[0]] + rest;
    assert rows[0] !in rest by {
      forall k | 0 <= k < |rest| ensures rest[k] != rows[0] {
        assert rest[k] == rows[k + 1];
      }
    }
    if keep(rows[0]) {
      assert Where(rows, keep) == Where(rest, keep) + {rows[0]};
    } else {
      assert Where(rows, keep) == Where(rest, keep);
    }
  }

  /** Rows that occur in a table occur in its `distinct()`, and the other way round. */
  lemma ProjectDistinct<T(!new), K>(rows: seq<T>, key: T -> K)
    ensures forall k :: k in Project(Distinct(rows), key) <==> k in Project(rows, key)
  {
    var d := Distinct(rows);
    forall k ensures k in Project(d, key) <==> k in Project(rows, key) {
      if k in Project(d, key) {
        var i :| 0 <= i < |d| && key(d[i]) == k;
        assert d[i] in rows;
        var j :| 0 <= j < |rows| && rows[j] == d[i];
      }
      if k in Project(rows, key) {
        var i :| 0 <= i < |rows| && key(rows[i]) == k;
        assert rows[i] in d;
        var j :| 0 <= j < |d| && d[j] == rows[i];
      }
    }
  }
}
