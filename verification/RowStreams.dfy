/** Sequences of rows: filtering by a predicate, picking by position, and limits. */
module RowStreams {
  import opened Common
  import opened Predicates
  import opened Ranges

  ghost predicate Matches(sql: Coercion, p: Option<ScanPredicate>, row: Row) {
    p.Some? ==> Eval(sql, row, p.value) == True
  }

  /** The rows on which the predicate is TRUE, in order; all rows without one. */
  ghost function Keep(sql: Coercion, p: Option<ScanPredicate>, rows: seq<Row>): seq<Row> {
    if rows == [] then []
    else
      var n := |rows| - 1;
      Keep(sql, p, rows[..n]) + if Matches(sql, p, rows[n]) then [rows[n]] else []
  }

  /** The rows at the positions `mask` selects, in order. */
  ghost function Pick(rows: seq<Row>, mask: nat -> bool): seq<Row> {
    if rows == [] then []
    else
      var n := |rows| - 1;
      Pick(rows[..n], mask) + if mask(n) then [rows[n]] else []
  }

  function Take<T>(limit: Option<nat>, s: seq<T>): seq<T> {
    if limit.Some? && limit.value < |s| then s[..limit.value] else s
  }

  lemma {:induction false} KeepAppend(sql: Coercion, p: Option<ScanPredicate>, a: seq<Row>, b: seq<Row>)
    ensures Keep(sql, p, a + b) == Keep(sql, p, a) + Keep(sql, p, b)
    decreases |b|
  {
    hide Matches;
    if b == [] {
      assert a + b == a;
    } else {
      var n := |b| - 1;
      KeepAppend(sql, p, a, b[..n]);
      assert (a + b)[..|a + b| - 1] == a + b[..n];
      assert (a + b)[|a + b| - 1] == b[n];
    }
  }

  /** Filtering afterwards undoes any earlier selection that kept every matching row. */
  lemma {:induction false} KeepPick(sql: Coercion, p: Option<ScanPredicate>, rows: seq<Row>, mask: nat -> bool)
    requires forall i: nat :: i < |rows| && Matches(sql, p, rows[i]) ==> mask(i)
    ensures Keep(sql, p, Pick(rows, mask)) == Keep(sql, p, rows)
    decreases |rows|
  {
    hide Matches;
    if rows != [] {
      var n := |rows| - 1;
      var init := rows[..n];
      assert forall i: nat :: i < |init| ==> init[i] == rows[i];
      KeepPick(sql, p, init, mask);
      KeepAppend(sql, p, Pick(init, mask), if mask(n) then [rows[n]] else []);
      assert [rows[n]][..0] == [];
      assert Keep(sql, p, []) == [];
      assert Keep(sql, p, [rows[n]]) == if Matches(sql, p, rows[n]) then [rows[n]] else [];
    }
  }

  /** A selection of exactly the matching rows is the filtered sequence. */
  lemma {:induction false} PickIsKeep(sql: Coercion, p: Option<ScanPredicate>, rows: seq<Row>, mask: nat -> bool)
    requires forall i: nat :: i < |rows| ==> (Matches(sql, p, rows[i]) <==> mask(i))
    ensures Pick(rows, mask) == Keep(sql, p, rows)
    decreases |rows|
  {
    hide Matches;
    if rows != [] {
      var n := |rows| - 1;
      var init := rows[..n];
      assert forall i: nat :: i < |init| ==> init[i] == rows[i];
      PickIsKeep(sql, p, init, mask);
    }
  }

  lemma {:induction false} KeepNone(sql: Coercion, p: Option<ScanPredicate>, rows: seq<Row>)
    requires forall i :: 0 <= i < |rows| ==> !Matches(sql, p, rows[i])
    ensures Keep(sql, p, rows) == []
    decreases |rows|
  {
    hide Matches;
    if rows != [] {
      var init := rows[..|rows| - 1];
      assert forall i :: 0 <= i < |init| ==> init[i] == rows[i];
      KeepNone(sql, p, init);
    }
  }

  lemma {:induction false} KeepAll(sql: Coercion, rows: seq<Row>)
    ensures Keep(sql, None, rows) == rows
    decreases |rows|
  {
    if rows != [] {
      KeepAll(sql, rows[..|rows| - 1]);
    }
  }

  lemma {:induction false} PickAll(rows: seq<Row>, mask: nat -> bool)
    requires forall i: nat :: i < |rows| ==> mask(i)
    ensures Pick(rows, mask) == rows
    decreases |rows|
  {
    if rows != [] { PickAll(rows[..|rows| - 1], mask); }
  }

  lemma {:induction false} KeepIdempotent(sql: Coercion, p: Option<ScanPredicate>, rows: seq<Row>)
    ensures Keep(sql, p, Keep(sql, p, rows)) == Keep(sql, p, rows)
    decreases |rows|
  {
    hide Matches;
    if rows != [] {
      var n := |rows| - 1;
      KeepIdempotent(sql, p, rows[..n]);
      KeepAppend(sql, p, Keep(sql, p, rows[..n]), if Matches(sql, p, rows[n]) then [rows[n]] else []);
      assert [rows[n]][..0] == [];
      assert Keep(sql, p, []) == [];
      assert Keep(sql, p, [rows[n]]) == if Matches(sql, p, rows[n]) then [rows[n]] else [];
    }
  }

  lemma {:induction false} KeepPrefix(sql: Coercion, p: Option<ScanPredicate>, rows: seq<Row>, n: nat)
    requires n <= |rows| && Keep(sql, p, rows) == rows
    ensures Keep(sql, p, rows[..n]) == rows[..n]
  {
    assert rows == rows[..n] + rows[n..];
    KeepAppend(sql, p, rows[..n], rows[n..]);
    KeepShrinks(sql, p, rows[..n]);
    KeepShrinks(sql, p, rows[n..]);
  }

  lemma {:induction false} KeepShrinks(sql: Coercion, p: Option<ScanPredicate>, rows: seq<Row>)
    ensures |Keep(sql, p, rows)| <= |rows|
    decreases |rows|
  {
    if rows != [] { KeepShrinks(sql, p, rows[..|rows| - 1]); }
  }

  /** A selection is no longer than the ranges it lies in. */
  lemma {:induction false} PickSize(rows: seq<Row>, mask: nat -> bool, ranges: seq<Range>)
    requires forall i: nat :: i < |rows| && mask(i) ==> In(ranges, i)
    ensures |Pick(rows, mask)| <= |RowsOf(ranges, |rows|)|
    decreases |rows|
  {
    hide In;
    if rows != [] {
      var n := |rows| - 1;
      PickSize(rows[..n], mask, ranges);
      var fewer, more := RowsOf(ranges, n), RowsOf(ranges, n + 1);
      assert fewer <= more;
      if mask(n) {
        assert more == fewer + {n};
      } else {
        SubsetSize(fewer, more);
      }
    }
  }

  lemma {:induction false} PickShrinks(rows: seq<Row>, mask: nat -> bool)
    ensures |Pick(rows, mask)| <= |rows|
    decreases |rows|
  {
    if rows != [] { PickShrinks(rows[..|rows| - 1], mask); }
  }

  // ---------------------------------------------------------------- agreement up to a limit

  /** The two sequences are the same as far as a consumer that stops at the limit can tell. */
  predicate Agree<T(==)>(limit: Option<nat>, a: seq<T>, b: seq<T>) { Take(limit, a) == Take(limit, b) }

  /** Agreement is preserved by appending pieces that agree up to what is left of the limit. */
  lemma AgreeAppend<T>(limit: Option<nat>, a: seq<T>, b: seq<T>, a': seq<T>, b': seq<T>)
    requires Agree(limit, a, b)
    requires limit.None? ==> a' == b'
    requires limit.Some? && |a| < limit.value ==> Agree(Some(limit.value - |a|), a', b')
    ensures Agree(limit, a + a', b + b')
  {
    if limit.Some? {
      var n := limit.value;
      if |a| < n {
        assert a == b;
        var rest := Some(n - |a|);
        assert Take(limit, a + a') == a + Take(rest, a');
        assert Take(limit, b + b') == b + Take(rest, b');
      } else {
        assert a[..n] == Take(limit, a) == Take(limit, b) == b[..n];
        assert (a + a')[..n] == a[..n] && (b + b')[..n] == b[..n];
      }
    }
  }

  /** Cutting a piece at a bound no smaller than what can still be consumed is invisible. */
  lemma AgreeTruncated<T>(limit: nat, cut: nat, s: seq<T>)
    requires limit <= cut || |s| <= cut
    ensures Agree(Some(limit), Take(Some(cut), s), s)
  {
    if cut < |s| && limit < |s| { assert s[..cut][..limit] == s[..limit]; }
  }
}
