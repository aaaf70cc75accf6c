/** Skipping whole row groups from their column statistics. */
module RowGroupPruning {
  import opened Common
  import opened Predicates
  import opened PageValues
  import opened ParquetFiles
  import opened PagePruning

  /** The statistics of a table column's only leaf, with its file type. */
  function ColumnStatistics(v: GroupView, column: nat): (r: Option<(Statistics, DataType)>)
    ensures r.Some? ==> ColumnLeaf(v.file, v.table, column).Some?
  {
    match ColumnLeaf(v.file, v.table, column)
    case None => None
    case Some((fileColumn, leaf)) =>
      if leaf in v.group.statistics then Some((v.group.statistics[leaf], v.file.schema[fileColumn].dataType)) else None
  }

  predicate ComparisonExcludesAll(stats: Statistics, t: DataType, op: ComparisonOp, value: PredicateValue) {
    match stats
    case BooleanStats(min, max, _) =>
      t.Boolean? && value.BooleanValue? && ExcludesInt(MapFlag(min), MapFlag(max), op, FlagRank(value.flag))
    case Int32Stats(min, max, _) =>
      || (t.Int32? && value.Int64Value? && InRange(value.i, I32_MIN, I32_MAX) && ExcludesInt(min, max, op, value.i))
      || (t.Date32? && value.Date32Value? && ExcludesInt(min, max, op, value.day))
    case Int64Stats(min, max, _) => t.Int64? && value.Int64Value? && ExcludesInt(min, max, op, value.i)
    case ByteArrayStats(min, max, minExact, maxExact, _) =>
      t.Utf8? && value.Utf8Value? && minExact && maxExact && ExcludesBytes(min, max, op, value.text)
    case OtherStats(_) => false
  }

  predicate CanPrune(v: GroupView, p: ScanPredicate) {
    match p
    case And(all) => exists q :: q in all && CanPrune(v, q)
    case Or(any) => forall q :: q in any ==> CanPrune(v, q)
    case Comparison(column, op, value) =>
      var found := ColumnStatistics(v, column);
      found.Some? && ComparisonExcludesAll(found.value.0, found.value.1, op, value)
    case IsNull(column) =>
      var found := ColumnStatistics(v, column);
      found.Some? && found.value.0.nullCount == Some(0)
    case IsNotNull(column) =>
      var found := ColumnStatistics(v, column);
      found.Some? && found.value.0.nullCount == Some(v.Rows())
  }

  lemma ExcludesAllSound(sql: Coercion, stats: Statistics, c: Cell, op: ComparisonOp, value: PredicateValue)
    requires ComparisonExcludesAll(stats, c.dataType, op, value) && CellWellTyped(c)
    requires c.value.Some? ==> StatisticsEnclose(stats, c.dataType, c.value.value)
    ensures EvalComparison(sql, c, op, value) == if c.value.Some? then False else Unknown
  {
    if c.value.Some? && stats.ByteArrayStats? {
      ExcludesBytesSound(stats.minBytes.value, stats.maxBytes.value, op, value.text, c.value.value.raw);
    }
  }

  /** The statistics have both bounds, byte bounds untruncated, and the literal is of the column's kind. */
  ghost predicate Decidable(stats: Statistics, t: DataType, op: ComparisonOp, value: PredicateValue) {
    match stats
    case BooleanStats(min, max, _) =>
      t.Boolean? && value.BooleanValue? && min.Some? && max.Some? && FlagRank(min.value) <= FlagRank(max.value)
    case Int32Stats(min, max, _) =>
      && IntBounds(t, min, max)
      && ((t.Int32? && value.Int64Value? && InRange(value.i, I32_MIN, I32_MAX)) || (t.Date32? && value.Date32Value?))
    case Int64Stats(min, max, _) => t.Int64? && value.Int64Value? && IntBounds(t, min, max)
    case ByteArrayStats(min, max, minExact, maxExact, _) =>
      t.Utf8? && value.Utf8Value? && minExact && maxExact && BytesBounds(t, min, max, op, value.text)
    case OtherStats(_) => false
  }

  /** On decidable statistics the test is exact: it excludes if and only if no enclosed value can match. */
  lemma ExcludesAllExact(sql: Coercion, stats: Statistics, t: DataType, op: ComparisonOp, value: PredicateValue)
    requires Decidable(stats, t, op, value)
    ensures ComparisonExcludesAll(stats, t, op, value)
            <==> forall d :: WellTyped(t, d) && StatisticsEnclose(stats, t, d) ==>
                   EvalComparison(sql, Cell(t, Some(d)), op, value) == False
  {
    if ComparisonExcludesAll(stats, t, op, value) {
      forall d | WellTyped(t, d) && StatisticsEnclose(stats, t, d)
        ensures EvalComparison(sql, Cell(t, Some(d)), op, value) == False
      {
        ExcludesAllSound(sql, stats, Cell(t, Some(d)), op, value);
      }
    } else {
      var d := EnclosedExample(stats, t, op, value);
      assert EvalComparison(sql, Cell(t, Some(d)), op, value) == True;
    }
  }

  lemma EnclosedExample(stats: Statistics, t: DataType, op: ComparisonOp, value: PredicateValue) returns (d: Datum)
    requires Decidable(stats, t, op, value) && !ComparisonExcludesAll(stats, t, op, value)
    ensures WellTyped(t, d) && StatisticsEnclose(stats, t, d)
    ensures ComparePair(t, d, value).Some? && OpHolds(op, ComparePair(t, d, value).value)
  {
    match stats {
      case BooleanStats(min, max, _) =>
        var x := IntExample(FlagRank(min.value), FlagRank(max.value), op, FlagRank(value.flag));
        d := Flag(x == 1);
      case Int32Stats(min, max, _) =>
        var x := IntExample(min.value, max.value, op, if t.Int32? then value.i else value.day);
        d := Whole(x);
      case Int64Stats(min, max, _) =>
        var x := IntExample(min.value, max.value, op, value.i);
        d := Whole(x);
      case ByteArrayStats(min, max, _, _, _) =>
        var x := BytesExample(min.value, max.value, op, value.text);
        d := Raw(x);
    }
  }

  /** A column found in the file is read from the file. */
  lemma ColumnCell(v: GroupView, column: nat, row: int)
    requires ViewValid(v) && 0 <= row < v.Rows() && ColumnLeaf(v.file, v.table, column).Some?
    ensures var (f, leaf) := ColumnLeaf(v.file, v.table, column).value;
            && CellAt(RowAt(v, row), column) == Cell(v.file.schema[f].dataType, FileCell(v.group, row, f))
            && CellWellTyped(CellAt(RowAt(v, row), column))
            && LeafValid(v.file, v.group, leaf, f)
  {
    TableRowWellTyped(v.file, v.table, v.fixed, v.group.rows[row]);
  }

  lemma LeafSound(sql: Coercion, v: GroupView, p: ScanPredicate, row: int)
    requires ViewValid(v) && 0 <= row < v.Rows() && CanPrune(v, p) && !p.And? && !p.Or?
    requires Trusted(v.file, v.table, p)
    ensures Eval(sql, RowAt(v, row), p) != True
  {
    ColumnCell(v, p.column, row);
    match p
    case Comparison(column, op, value) =>
      ExcludesAllSound(sql, ColumnStatistics(v, column).value.0, CellAt(RowAt(v, row), column), op, value);
    case IsNull(column) =>
      NullCountZero(v.group, ColumnLeaf(v.file, v.table, column).value.0, 0, v.Rows(), row);
    case IsNotNull(column) =>
      NullCountFull(v.group, ColumnLeaf(v.file, v.table, column).value.0, 0, v.Rows(), row);
  }

  /** A tree is pruned if and only if it is not TRUE even with every unpruned leaf TRUE. */
  lemma {:induction false} CanPruneExact(v: GroupView, p: ScanPredicate)
    ensures CanPrune(v, p) <==> !TrueUnder(q => !CanPrune(v, q), p)
    decreases p
  {
    match p {
      case And(all) => forall q | q in all ensures CanPrune(v, q) <==> !TrueUnder(q => !CanPrune(v, q), q) {
        CanPruneExact(v, q);
      }
      case Or(any) => forall q | q in any ensures CanPrune(v, q) <==> !TrueUnder(q => !CanPrune(v, q), q) {
        CanPruneExact(v, q);
      }
      case _ =>
    }
  }

  /** In a trusted tree, leaves that are pruned without being trusted do not occur. */
  lemma {:induction false} TrustedTruth(v: GroupView, p: ScanPredicate)
    requires Trusted(v.file, v.table, p)
    requires TrueUnder(q => !(CanPrune(v, q) && Trusted(v.file, v.table, q)), p)
    ensures TrueUnder(q => !CanPrune(v, q), p)
    decreases p
  {
    match p {
      case And(all) => forall q | q in all ensures TrueUnder(q => !CanPrune(v, q), q) { TrustedTruth(v, q); }
      case Or(any) =>
        var q :| q in any && TrueUnder(q => !(CanPrune(v, q) && Trusted(v.file, v.table, q)), q);
        TrustedTruth(v, q);
      case _ =>
    }
  }

  /** A pruned row group holds no row on which the predicate is TRUE. */
  lemma CanPruneSound(sql: Coercion, v: GroupView, p: ScanPredicate, row: int)
    requires ViewValid(v) && 0 <= row < v.Rows() && CanPrune(v, p) && Trusted(v.file, v.table, p)
    ensures Eval(sql, RowAt(v, row), p) != True
  {
    CanPruneExact(v, p);
    var truth := q => !(CanPrune(v, q) && Trusted(v.file, v.table, q));
    if Eval(sql, RowAt(v, row), p) == True {
      forall q | Eval(sql, RowAt(v, row), q) == True && !q.And? && !q.Or? ensures truth(q) {
        if CanPrune(v, q) && Trusted(v.file, v.table, q) { LeafSound(sql, v, q, row); }
      }
      TrueFromLeaves(sql, RowAt(v, row), p, truth);
      TrustedTruth(v, p);
    }
  }

  /**
   Trust is needed: whatever the schemas, a column with one leaf inside a struct can be present in a
   row group that `IS NOT NULL` prunes, because the leaf is null in every row.
   */
  lemma UntrustedPrunesMatches(sql: Coercion, file: ParquetFile, table: Schema, column: nat) returns (v: GroupView)
    requires !Trusted(file, table, IsNotNull(column))
    ensures v.file == file && v.table == table && v.Rows() == 1 && ViewValid(v)
    ensures CanPrune(v, IsNotNull(column)) && Eval(sql, RowAt(v, 0), IsNotNull(column)) == True
  {
    var (f, leaf) := ColumnLeaf(file, table, column).value;
    var row: FileRow := seq(|file.schema|, c => if c == f then Some(Flag(true)) else None);
    var g := RowGroup([row], map[leaf := OtherStats(Some(1))], map[], map[], map[]);
    v := GroupView(file, table, map[], g);
    assert NullRows(g, f, 0, 1) == {};
    forall other: nat | IsSoleLeaf(file.leafRoots, other) && file.leafRoots[other] < |file.schema|
      ensures LeafValid(file, g, other, file.leafRoots[other])
    {
    }
    assert FileRowValid(file, row);
  }

  /** The statistics of the column's only leaf, if there are any. */
  ghost predicate HasStatistics(v: GroupView, column: nat) {
    ColumnLeaf(v.file, v.table, column).Some? && ColumnLeaf(v.file, v.table, column).value.1 in v.group.statistics
  }

  /**
   What a leaf is pruned for, in terms of the statistics alone: `IS NULL` if and only if no null is
   counted, `IS NOT NULL` if and only if only nulls are, a decidable comparison if and only if no value
   within the bounds can match; without statistics nothing.
   */
  lemma LeafPrunesExact(sql: Coercion, v: GroupView, p: ScanPredicate)
    requires IsAtom(p)
    ensures !HasStatistics(v, p.column) ==> !CanPrune(v, p)
    ensures HasStatistics(v, p.column) ==>
              var (f, leaf) := ColumnLeaf(v.file, v.table, p.column).value;
              var stats, t := v.group.statistics[leaf], v.file.schema[f].dataType;
              && (p.IsNull? ==> (CanPrune(v, p) <==> stats.nullCount == Some(0)))
              && (p.IsNotNull? ==> (CanPrune(v, p) <==> stats.nullCount == Some(v.Rows())))
              && (p.Comparison? && Decidable(stats, t, p.op, p.value) ==>
                    (CanPrune(v, p) <==>
                       forall d :: WellTyped(t, d) && StatisticsEnclose(stats, t, d) ==>
                         EvalComparison(sql, Cell(t, Some(d)), p.op, p.value) == False))
  {
    hide ComparisonExcludesAll, Decidable, WellTyped, StatisticsEnclose, EvalComparison;
    if p.Comparison? && HasStatistics(v, p.column) {
      var (f, leaf) := ColumnLeaf(v.file, v.table, p.column).value;
      var stats, t := v.group.statistics[leaf], v.file.schema[f].dataType;
      if Decidable(stats, t, p.op, p.value) { ExcludesAllExact(sql, stats, t, p.op, p.value); }
    }
  }
}
