/** Row filters pushed into the Parquet reader, and when they are the whole predicate. */
module RowFilter {
  import opened Common
  import opened Predicates
  import opened ParquetFiles
  import opened PagePruning

  datatype LeafPredicate =
    | LeafComparison(fileColumn: nat, op: ComparisonOp, value: PredicateValue)
    | LeafNull(fileColumn: nat, negated: bool)

  datatype ColumnPredicate = ColumnPredicate(fileColumn: nat, leaves: seq<LeafPredicate>)

  // ---------------------------------------------------------------- collecting leaves

  /** The file column of the same name, if it also has the same type. */
  function ExactFileColumn(column: nat, file: Schema, table: Schema): (r: Option<nat>)
    ensures r.Some? ==>
              && column < |table| && r.value < |file| && file[r.value].dataType == table[column].dataType
              && IndexOf(file, table[column].name) == r
  {
    if column >= |table| then None
    else
      match IndexOf(file, table[column].name)
      case None => None
      case Some(f) => if file[f].dataType == table[column].dataType then Some(f) else None
  }

  predicate ComparisonTypeMatches(t: DataType, v: PredicateValue) {
    match t
    case Boolean => v.BooleanValue?
    case Int64 => v.Int64Value?
    case UInt64 => v.UInt64Value?
    case Date32 => v.Date32Value?
    case Timestamp(unit, zone) => unit.Microsecond? && zone.None? && v.TimestampMicros?
    case Decimal128(precision, scale) => v.DecimalValue? && v.precision == precision && v.scale == scale
    case _ => false
  }

  predicate FixedFilterType(t: DataType) {
    || t.Boolean? || t.Int64? || t.UInt64? || t.Date32? || t.Decimal128?
    || (t.Timestamp? && t.unit.Microsecond? && t.zone.None?)
  }

  /** The leaves of the conjunction that the reader can evaluate on this file; disjunctions have none. */
  function FileLeaves(p: ScanPredicate, file: Schema, table: Schema): (ls: seq<LeafPredicate>)
    ensures forall l :: l in ls ==> l.fileColumn < |file|
    decreases p, 1
  {
    match p
    case And(all) => FileLeavesOf(all, file, table)
    case Or(_) => []
    case Comparison(column, op, value) =>
      var f := ExactFileColumn(column, file, table);
      if f.Some? && ComparisonTypeMatches(file[f.value].dataType, value) then [LeafComparison(f.value, op, value)] else []
    case IsNull(column) => NullLeaves(column, false, file, table)
    case IsNotNull(column) => NullLeaves(column, true, file, table)
  }

  function NullLeaves(column: nat, negated: bool, file: Schema, table: Schema): (ls: seq<LeafPredicate>)
    ensures forall l :: l in ls ==> l.fileColumn < |file|
  {
    var f := ExactFileColumn(column, file, table);
    if f.Some? && FixedFilterType(file[f.value].dataType) then [LeafNull(f.value, negated)] else []
  }

  function FileLeavesOf(ps: seq<ScanPredicate>, file: Schema, table: Schema): (ls: seq<LeafPredicate>)
    ensures forall l :: l in ls ==> l.fileColumn < |file|
    decreases ps, 0
  {
    if ps == [] then [] else FileLeaves(ps[0], file, table) + FileLeavesOf(ps[1..], file, table)
  }

  lemma {:induction false} FileLeavesOfAppend(ps: seq<ScanPredicate>, p: ScanPredicate, file: Schema, table: Schema)
    ensures FileLeavesOf(ps + [p], file, table) == FileLeavesOf(ps, file, table) + FileLeaves(p, file, table)
    decreases |ps|
  {
    if ps == [] {
      assert ps + [p] == [p];
      assert [p][1..] == [];
      assert FileLeavesOf([], file, table) == [];
    } else {
      assert (ps + [p])[1..] == ps[1..] + [p];
      FileLeavesOfAppend(ps[1..], p, file, table);
    }
  }

  method CollectFileLeaves(p: ScanPredicate, file: Schema, table: Schema, collected: seq<LeafPredicate>)
    returns (output: seq<LeafPredicate>)
    ensures output == collected + FileLeaves(p, file, table)
    decreases p
  {
    output := collected;
    match p {
      case And(all) =>
        for n := 0 to |all|
          invariant output == collected + FileLeavesOf(all[..n], file, table)
        {
          output := CollectFileLeaves(all[n], file, table, output);
          FileLeavesOfAppend(all[..n], all[n], file, table);
          assert all[..n + 1] == all[..n] + [all[n]];
        }
        assert all[..|all|] == all;
      case Comparison(column, op, value) =>
        var f := ExactFileColumn(column, file, table);
        if f.None? { return; }
        if ComparisonTypeMatches(file[f.value].dataType, value) {
          output := output + [LeafComparison(f.value, op, value)];
        }
      case IsNull(column) =>
        var f := ExactFileColumn(column, file, table);
        if f.None? { return; }
        if FixedFilterType(file[f.value].dataType) { output := output + [LeafNull(f.value, false)]; }
      case IsNotNull(column) =>
        var f := ExactFileColumn(column, file, table);
        if f.None? { return; }
        if FixedFilterType(file[f.value].dataType) { output := output + [LeafNull(f.value, true)]; }
      case Or(_) =>
    }
  }

  // ---------------------------------------------------------------- evaluating leaves

  /** A leaf on one file row. */
  function EvalLeaf(sql: Coercion, schema: Schema, row: FileRow, leaf: LeafPredicate): Tri
    requires leaf.fileColumn < |schema| == |row|
  {
    match leaf
    case LeafComparison(f, op, value) => EvalComparison(sql, Cell(schema[f].dataType, row[f]), op, value)
    case LeafNull(f, negated) => Truth(if negated then row[f].Some? else row[f].None?)
  }

  /** The reader's conjunction of masks: unknown as soon as either side is. */
  function MaskAnd(a: Tri, b: Tri): Tri {
    if a == Unknown || b == Unknown then Unknown else if a == True && b == True then True else False
  }

  function ColumnMask(sql: Coercion, schema: Schema, row: FileRow, leaves: seq<LeafPredicate>): Tri
    requires leaves != [] && forall l :: l in leaves ==> l.fileColumn < |schema| == |row|
  {
    var last := leaves[|leaves| - 1];
    if |leaves| == 1 then EvalLeaf(sql, schema, row, last)
    else MaskAnd(ColumnMask(sql, schema, row, leaves[..|leaves| - 1]), EvalLeaf(sql, schema, row, last))
  }

  ghost predicate AllLeavesTrue(sql: Coercion, schema: Schema, row: FileRow, leaves: seq<LeafPredicate>)
    requires forall l :: l in leaves ==> l.fileColumn < |schema| == |row|
  {
    forall l :: l in leaves ==> EvalLeaf(sql, schema, row, l) == True
  }

  lemma {:induction false} ColumnMaskTrue(sql: Coercion, schema: Schema, row: FileRow, leaves: seq<LeafPredicate>)
    requires leaves != [] && forall l :: l in leaves ==> l.fileColumn < |schema| == |row|
    ensures ColumnMask(sql, schema, row, leaves) == True <==> AllLeavesTrue(sql, schema, row, leaves)
    decreases |leaves|
  {
    var init, last := leaves[..|leaves| - 1], leaves[|leaves| - 1];
    assert leaves == init + [last];
    assert forall l :: l in leaves <==> l in init || l == last;
    if init != [] { ColumnMaskTrue(sql, schema, row, init); }
  }

  // ---------------------------------------------------------------- grouping by column

  /** The leaves on one file column, in order. */
  ghost function OnColumn(leaves: seq<LeafPredicate>, fileColumn: nat): seq<LeafPredicate> {
    if leaves == [] then []
    else
      var n := |leaves| - 1;
      OnColumn(leaves[..n], fileColumn) + if leaves[n].fileColumn == fileColumn then [leaves[n]] else []
  }

  /** One column predicate per file column used, holding exactly its leaves in order. */
  ghost predicate Grouping(columns: seq<ColumnPredicate>, leaves: seq<LeafPredicate>) {
    && (forall i, j :: 0 <= i < j < |columns| ==> columns[i].fileColumn != columns[j].fileColumn)
    && (forall c :: c in columns ==> c.leaves != [] && c.leaves == OnColumn(leaves, c.fileColumn))
    && (forall l :: l in leaves ==> exists c :: c in columns && c.fileColumn == l.fileColumn)
  }

  lemma {:induction false} OnColumnMembers(leaves: seq<LeafPredicate>, fileColumn: nat)
    ensures forall l :: l in OnColumn(leaves, fileColumn) <==> l in leaves && l.fileColumn == fileColumn
    ensures (forall l :: l in leaves ==> l.fileColumn != fileColumn) ==> OnColumn(leaves, fileColumn) == []
  {
    if leaves != [] {
      var n := |leaves| - 1;
      OnColumnMembers(leaves[..n], fileColumn);
      assert leaves == leaves[..n] + [leaves[n]];
    }
  }

  lemma OnColumnAppend(leaves: seq<LeafPredicate>, leaf: LeafPredicate, fileColumn: nat)
    ensures OnColumn(leaves + [leaf], fileColumn)
            == OnColumn(leaves, fileColumn) + if leaf.fileColumn == fileColumn then [leaf] else []
  {
    assert (leaves + [leaf])[..|leaves|] == leaves;
  }

  method GroupByFileColumn(leaves: seq<LeafPredicate>) returns (columns: seq<ColumnPredicate>)
    ensures Grouping(columns, leaves)
    ensures columns == [] <==> leaves == []
  {
    hide OnColumn;
    columns := [];
    for n := 0 to |leaves|
      invariant Grouping(columns, leaves[..n])
      invariant columns == [] <==> n == 0
    {
      columns := AddLeaf(columns, leaves[n], leaves[..n]);
      assert leaves[..n + 1] == leaves[..n] + [leaves[n]];
    }
    assert leaves[..|leaves|] == leaves;
  }

  method AddLeaf(columns: seq<ColumnPredicate>, leaf: LeafPredicate, ghost leaves: seq<LeafPredicate>)
    returns (output: seq<ColumnPredicate>)
    requires Grouping(columns, leaves)
    ensures Grouping(output, leaves + [leaf]) && output != []
  {
    hide OnColumn;
    for k := 0 to |columns|
      invariant forall j :: 0 <= j < k ==> columns[j].fileColumn != leaf.fileColumn
    {
      if columns[k].fileColumn == leaf.fileColumn {
        output := columns[k := columns[k].(leaves := columns[k].leaves + [leaf])];
        GrownColumn(columns, output, k, leaf, leaves);
        return;
      }
    }
    output := columns + [ColumnPredicate(leaf.fileColumn, [leaf])];
    NewColumn(columns, output, leaf, leaves);
  }

  lemma GrownColumn(columns: seq<ColumnPredicate>, output: seq<ColumnPredicate>, k: nat, leaf: LeafPredicate,
                    leaves: seq<LeafPredicate>)
    requires Grouping(columns, leaves) && k < |columns| && columns[k].fileColumn == leaf.fileColumn
    requires output == columns[k := columns[k].(leaves := columns[k].leaves + [leaf])]
    ensures Grouping(output, leaves + [leaf])
  {
    hide OnColumn;
    forall c | c in output ensures c.leaves != [] && c.leaves == OnColumn(leaves + [leaf], c.fileColumn) {
      var j :| 0 <= j < |output| && output[j] == c;
      assert columns[j] in columns;
      OnColumnAppend(leaves, leaf, c.fileColumn);
    }
    forall l | l in leaves + [leaf] ensures exists c :: c in output && c.fileColumn == l.fileColumn {
      if l in leaves {
        var c :| c in columns && c.fileColumn == l.fileColumn;
        var j :| 0 <= j < |columns| && columns[j] == c;
        assert output[j] in output;
      } else {
        assert output[k] in output;
      }
    }
  }

  lemma NewColumn(columns: seq<ColumnPredicate>, output: seq<ColumnPredicate>, leaf: LeafPredicate,
                  leaves: seq<LeafPredicate>)
    requires Grouping(columns, leaves)
    requires forall j :: 0 <= j < |columns| ==> columns[j].fileColumn != leaf.fileColumn
    requires output == columns + [ColumnPredicate(leaf.fileColumn, [leaf])]
    ensures Grouping(output, leaves + [leaf])
  {
    hide OnColumn;
    var added := ColumnPredicate(leaf.fileColumn, [leaf]);
    OnColumnMembers(leaves, leaf.fileColumn);
    forall c | c in output ensures c.leaves != [] && c.leaves == OnColumn(leaves + [leaf], c.fileColumn) {
      OnColumnAppend(leaves, leaf, c.fileColumn);
    }
    forall l | l in leaves + [leaf] ensures exists c :: c in output && c.fileColumn == l.fileColumn {
      if l in leaves {
        var c :| c in columns && c.fileColumn == l.fileColumn;
        assert c in output;
      } else {
        assert added in output;
      }
    }
  }

  /** The row filter passes a row when every column's mask is TRUE. */
  ghost predicate FilterPasses(sql: Coercion, schema: Schema, row: FileRow, columns: seq<ColumnPredicate>)
    requires forall c :: c in columns ==> c.leaves != [] && forall l :: l in c.leaves ==> l.fileColumn < |schema| == |row|
  {
    forall c :: c in columns ==> ColumnMask(sql, schema, row, c.leaves) == True
  }

  /** Grouping by column changes nothing: a row passes exactly when all leaves are TRUE on it. */
  lemma FilterIsConjunction(sql: Coercion, schema: Schema, row: FileRow, columns: seq<ColumnPredicate>,
                            leaves: seq<LeafPredicate>)
    requires Grouping(columns, leaves)
    requires forall l :: l in leaves ==> l.fileColumn < |schema| == |row|
    ensures forall c :: c in columns ==> c.leaves != [] && forall l :: l in c.leaves ==> l.fileColumn < |schema| == |row|
    ensures FilterPasses(sql, schema, row, columns) <==> AllLeavesTrue(sql, schema, row, leaves)
  {
    hide EvalLeaf, ColumnMask, OnColumn;
    forall c | c in columns
      ensures c.leaves != [] && (forall l :: l in c.leaves ==> l.fileColumn < |schema| == |row|)
      ensures ColumnMask(sql, schema, row, c.leaves) == True <==> AllLeavesTrue(sql, schema, row, c.leaves)
    {
      OnColumnMembers(leaves, c.fileColumn);
      ColumnMaskTrue(sql, schema, row, c.leaves);
    }
    if AllLeavesTrue(sql, schema, row, leaves) {
      forall c | c in columns ensures AllLeavesTrue(sql, schema, row, c.leaves) {
        OnColumnMembers(leaves, c.fileColumn);
      }
    }
    if FilterPasses(sql, schema, row, columns) {
      forall l | l in leaves ensures EvalLeaf(sql, schema, row, l) == True {
        var c :| c in columns && c.fileColumn == l.fileColumn;
        OnColumnMembers(leaves, c.fileColumn);
        assert AllLeavesTrue(sql, schema, row, c.leaves);
      }
    }
  }

  // ---------------------------------------------------------------- implication and exactness

  lemma LeafCell(file: ParquetFile, table: Schema, fixed: map<nat, Cell>, row: FileRow, column: nat)
    requires |row| == |file.schema| && FixedAbsent(file, table, fixed) && ExactFileColumn(column, file.schema, table).Some?
    ensures var f := ExactFileColumn(column, file.schema, table).value;
            CellAt(TableRow(file, table, fixed, row), column) == Cell(file.schema[f].dataType, row[f])
  {
  }

  lemma OneLeaf(sql: Coercion, schema: Schema, row: FileRow, leaf: LeafPredicate)
    requires leaf.fileColumn < |schema| == |row|
    ensures AllLeavesTrue(sql, schema, row, [leaf]) <==> EvalLeaf(sql, schema, row, leaf) == True
  {
    assert leaf in [leaf];
  }

  /** A row on which the predicate is TRUE passes every collected leaf. */
  lemma {:induction false} LeavesAreImplied(sql: Coercion, file: ParquetFile, table: Schema, fixed: map<nat, Cell>,
                                            row: FileRow, p: ScanPredicate)
    requires |row| == |file.schema| && FixedAbsent(file, table, fixed)
    requires Eval(sql, TableRow(file, table, fixed, row), p) == True
    ensures AllLeavesTrue(sql, file.schema, row, FileLeaves(p, file.schema, table))
    decreases p, 1
  {
    match p {
      case And(all) => LeavesOfAreImplied(sql, file, table, fixed, row, all);
      case Or(_) =>
      case Comparison(column, _, _) =>
        if ExactFileColumn(column, file.schema, table).Some? { LeafCell(file, table, fixed, row, column); }
      case IsNull(column) =>
        if ExactFileColumn(column, file.schema, table).Some? { LeafCell(file, table, fixed, row, column); }
      case IsNotNull(column) =>
        if ExactFileColumn(column, file.schema, table).Some? { LeafCell(file, table, fixed, row, column); }
    }
  }

  lemma {:induction false} LeavesOfAreImplied(sql: Coercion, file: ParquetFile, table: Schema, fixed: map<nat, Cell>,
                                              row: FileRow, ps: seq<ScanPredicate>)
    requires |row| == |file.schema| && FixedAbsent(file, table, fixed)
    requires forall q :: q in ps ==> Eval(sql, TableRow(file, table, fixed, row), q) == True
    ensures AllLeavesTrue(sql, file.schema, row, FileLeavesOf(ps, file.schema, table))
    decreases ps, 0
  {
    if ps != [] {
      LeavesAreImplied(sql, file, table, fixed, row, ps[0]);
      LeavesOfAreImplied(sql, file, table, fixed, row, ps[1..]);
    }
  }

  /** The exact contract: only conjunctions of leaves on columns present with an identical, supported type. */
  predicate Supported(p: ScanPredicate, table: Schema, physical: Schema) {
    match p
    case Comparison(column, _, value) =>
      var t := ColumnType(column, table, physical);
      t.Some? && ValueMatches(t.value, value)
    case IsNull(column) => ColumnType(column, table, physical).Some? && ExactType(ColumnType(column, table, physical).value)
    case IsNotNull(column) => ColumnType(column, table, physical).Some? && ExactType(ColumnType(column, table, physical).value)
    case And(all) => all != [] && forall q :: q in all ==> Supported(q, table, physical)
    case Or(_) => false
  }

  function ColumnType(column: nat, table: Schema, physical: Schema): Option<DataType> {
    if column >= |table| then None
    else
      match IndexOf(physical, table[column].name)
      case None => None
      case Some(f) => if physical[f].dataType == table[column].dataType then Some(physical[f].dataType) else None
  }

  predicate ValueMatches(t: DataType, v: PredicateValue) {
    match v
    case BooleanValue(_) => t.Boolean?
    case Int64Value(_) => t.Int64?
    case UInt64Value(_) => t.UInt64?
    case Date32Value(_) => t.Date32?
    case TimestampMicros(_) => t == Timestamp(Microsecond, None)
    case DecimalValue(_, precision, scale) => t == Decimal128(precision, scale)
    case _ => false
  }

  predicate ExactType(t: DataType) {
    t.Boolean? || t.Int64? || t.UInt64? || t.Date32? || t == Timestamp(Microsecond, None) || t.Decimal128?
  }

  /** The column type a literal compares with exactly, if it has one. */
  function NaturalType(v: PredicateValue): Option<DataType> {
    match v
    case BooleanValue(_) => Some(Boolean)
    case Int64Value(_) => Some(Int64)
    case UInt64Value(_) => Some(UInt64)
    case Date32Value(_) => Some(Date32)
    case TimestampMicros(_) => Some(Timestamp(Microsecond, None))
    case DecimalValue(_, precision, scale) => Some(Decimal128(precision, scale))
    case _ => None
  }

  /** The file has the table's column under its name and with its type. */
  ghost predicate SameInFile(column: nat, table: Schema, physical: Schema, t: DataType) {
    column < |table| && table[column].dataType == t
    && exists f :: 0 <= f < |physical| && physical[f] == table[column]
                   && forall g :: 0 <= g < f ==> physical[g].name != table[column].name
  }

  /** No disjunction and no empty conjunction anywhere. */
  predicate IsConjunction(p: ScanPredicate) {
    match p
    case And(all) => all != [] && forall q :: q in all ==> IsConjunction(q)
    case Or(_) => false
    case _ => true
  }

  /** A comparison with a literal of the column's own type, or a null test of a type some literal has. */
  ghost predicate LeafSupported(p: ScanPredicate, table: Schema, physical: Schema) {
    match p
    case Comparison(column, _, value) =>
      NaturalType(value).Some? && SameInFile(column, table, physical, NaturalType(value).value)
    case IsNull(column) =>
      exists v :: NaturalType(v).Some? && SameInFile(column, table, physical, NaturalType(v).value)
    case IsNotNull(column) =>
      exists v :: NaturalType(v).Some? && SameInFile(column, table, physical, NaturalType(v).value)
    case _ => true
  }

  ghost predicate LeavesSupported(p: ScanPredicate, table: Schema, physical: Schema)
    decreases p
  {
    match p
    case And(all) => forall q :: q in all ==> LeavesSupported(q, table, physical)
    case _ => LeafSupported(p, table, physical)
  }

  lemma ColumnTypeExact(column: nat, table: Schema, physical: Schema, t: DataType)
    ensures ColumnType(column, table, physical) == Some(t) <==> SameInFile(column, table, physical, t)
  {
    if column < |table| {
      var at := IndexOf(physical, table[column].name);
      FirstIndex(physical, table[column].name);
      if SameInFile(column, table, physical, t) {
        var f :| 0 <= f < |physical| && physical[f] == table[column]
                 && forall g :: 0 <= g < f ==> physical[g].name != table[column].name;
        assert at == Some(f);
      }
    }
  }

  lemma {:induction false} FirstIndex(schema: Schema, name: string)
    ensures IndexOf(schema, name).Some? ==>
              forall g :: 0 <= g < IndexOf(schema, name).value ==> schema[g].name != name
  {
    if schema != [] && schema[0].name != name { FirstIndex(schema[1..], name); }
  }

  function SomeLiteral(t: DataType): PredicateValue {
    match t
    case Boolean => BooleanValue(true)
    case Int64 => Int64Value(0)
    case UInt64 => UInt64Value(0)
    case Date32 => Date32Value(0)
    case Decimal128(precision, scale) => DecimalValue(0, precision, scale)
    case _ => TimestampMicros(0)
  }

  lemma LeafSupportedExact(p: ScanPredicate, table: Schema, physical: Schema)
    requires !p.And? && !p.Or?
    ensures Supported(p, table, physical) <==> LeafSupported(p, table, physical)
  {
    hide ColumnType, SameInFile;
    var t := ColumnType(p.column, table, physical);
    forall u ensures t == Some(u) <==> SameInFile(p.column, table, physical, u) {
      ColumnTypeExact(p.column, table, physical, u);
    }
    if !p.Comparison? && t.Some? && ExactType(t.value) {
      assert NaturalType(SomeLiteral(t.value)) == Some(t.value);
    }
  }

  /** The same test on the file's column of that name. */
  ghost predicate IsLeafOf(c: ScanPredicate, l: LeafPredicate, file: Schema, table: Schema) {
    && IsAtom(c) && LeafSupported(c, table, file)
    && c.column < |table| && IndexOf(file, table[c.column].name) == Some(l.fileColumn)
    && match c
       case Comparison(_, op, value) => l == LeafComparison(l.fileColumn, op, value)
       case IsNull(_) => l == LeafNull(l.fileColumn, false)
       case IsNotNull(_) => l == LeafNull(l.fileColumn, true)
  }

  lemma AtomLeaves(c: ScanPredicate, l: LeafPredicate, file: Schema, table: Schema)
    requires IsAtom(c)
    ensures l in FileLeaves(c, file, table) <==> IsLeafOf(c, l, file, table)
  {
    hide SameInFile, LeafSupported;
    LeafSupportedExact(c, table, file);
  }

  /** The reader filters by exactly the supported leaves among the conjuncts. */
  lemma {:induction false} LeavesAreConjuncts(p: ScanPredicate, l: LeafPredicate, file: Schema, table: Schema)
    ensures l in FileLeaves(p, file, table) <==> exists c :: c in Conjuncts(p) && IsLeafOf(c, l, file, table)
    decreases p, 1
  {
    hide IsLeafOf;
    if p.And? {
      LeavesOfAreConjuncts(p.all, l, file, table);
    } else if p.Or? {
      DisjunctionHasNoLeaf(p, l, file, table);
    } else {
      AtomLeaves(p, l, file, table);
      assert p in Conjuncts(p);
    }
  }

  lemma DisjunctionHasNoLeaf(p: ScanPredicate, l: LeafPredicate, file: Schema, table: Schema)
    requires p.Or?
    ensures !IsLeafOf(p, l, file, table)
  {
  }

  lemma {:induction false} LeavesOfAreConjuncts(ps: seq<ScanPredicate>, l: LeafPredicate, file: Schema, table: Schema)
    ensures l in FileLeavesOf(ps, file, table) <==> exists c :: c in ConjunctsOf(ps) && IsLeafOf(c, l, file, table)
    decreases ps, 0
  {
    hide IsLeafOf;
    if ps != [] {
      LeavesAreConjuncts(ps[0], l, file, table);
      LeavesOfAreConjuncts(ps[1..], l, file, table);
    }
  }

  /** Exact filtering is supported for exactly the conjunctions of such leaves. */
  lemma {:induction false} SupportedExact(p: ScanPredicate, table: Schema, physical: Schema)
    ensures Supported(p, table, physical) <==> IsConjunction(p) && LeavesSupported(p, table, physical)
    decreases p
  {
    match p {
      case And(all) =>
        forall q | q in all
          ensures Supported(q, table, physical) <==> IsConjunction(q) && LeavesSupported(q, table, physical)
        {
          SupportedExact(q, table, physical);
        }
      case Or(_) =>
      case _ => LeafSupportedExact(p, table, physical);
    }
  }

  /** A supported predicate loses nothing: it is TRUE exactly on the rows where all leaves are. */
  lemma {:induction false} LeavesAreExact(sql: Coercion, file: ParquetFile, table: Schema, fixed: map<nat, Cell>,
                                          row: FileRow, p: ScanPredicate)
    requires |row| == |file.schema| && FixedAbsent(file, table, fixed) && Supported(p, table, file.schema)
    ensures FileLeaves(p, file.schema, table) != []
    ensures Eval(sql, TableRow(file, table, fixed, row), p) == True
            <==> AllLeavesTrue(sql, file.schema, row, FileLeaves(p, file.schema, table))
    decreases p, 1
  {
    match p {
      case And(all) => LeavesOfAreExact(sql, file, table, fixed, row, all);
      case Comparison(column, op, value) =>
        LeafCell(file, table, fixed, row, column);
        OneLeaf(sql, file.schema, row, LeafComparison(ExactFileColumn(column, file.schema, table).value, op, value));
      case IsNull(column) =>
        LeafCell(file, table, fixed, row, column);
        OneLeaf(sql, file.schema, row, LeafNull(ExactFileColumn(column, file.schema, table).value, false));
      case IsNotNull(column) =>
        LeafCell(file, table, fixed, row, column);
        OneLeaf(sql, file.schema, row, LeafNull(ExactFileColumn(column, file.schema, table).value, true));
    }
  }

  lemma {:induction false} LeavesOfAreExact(sql: Coercion, file: ParquetFile, table: Schema, fixed: map<nat, Cell>,
                                            row: FileRow, ps: seq<ScanPredicate>)
    requires |row| == |file.schema| && FixedAbsent(file, table, fixed)
    requires forall q :: q in ps ==> Supported(q, table, file.schema)
    ensures ps != [] ==> FileLeavesOf(ps, file.schema, table) != []
    ensures (forall q :: q in ps ==> Eval(sql, TableRow(file, table, fixed, row), q) == True)
            <==> AllLeavesTrue(sql, file.schema, row, FileLeavesOf(ps, file.schema, table))
    decreases ps, 0
  {
    hide Eval, EvalLeaf;
    if ps != [] {
      LeavesAreExact(sql, file, table, fixed, row, ps[0]);
      LeavesOfAreExact(sql, file, table, fixed, row, ps[1..]);
      assert forall q :: q in ps <==> q == ps[0] || q in ps[1..];
      var first, rest := FileLeaves(ps[0], file.schema, table), FileLeavesOf(ps[1..], file.schema, table);
      assert forall l :: l in first + rest <==> l in first || l in rest;
    }
  }

  // ---------------------------------------------------------------- construction

  datatype FilterError = MissingPredicate | NotSupported | CouldNotConstruct

  method TryNew(predicate_: Option<ScanPredicate>, file: Schema, table: Schema) returns (r: Option<seq<ColumnPredicate>>)
    ensures r.None? <==> predicate_.None? || FileLeaves(predicate_.value, file, table) == []
    ensures r.Some? ==> Grouping(r.value, FileLeaves(predicate_.value, file, table))
  {
    if predicate_.None? { return None; }
    var leaves := CollectFileLeaves(predicate_.value, file, table, []);
    assert leaves == FileLeaves(predicate_.value, file, table);
    var columns := GroupByFileColumn(leaves);
    return if columns == [] then None else Some(columns);
  }

  /** Exact construction fails only for a missing or unsupported predicate, never for want of leaves. */
  method TryNewExact(predicate_: Option<ScanPredicate>, file: Schema, table: Schema)
    returns (r: Result<seq<ColumnPredicate>, FilterError>)
    ensures r == Err(MissingPredicate) <==> predicate_.None?
    ensures r == Err(NotSupported) <==> predicate_.Some? && !Supported(predicate_.value, table, file)
    ensures r != Err(CouldNotConstruct)
    ensures r.Ok? ==> Grouping(r.value, FileLeaves(predicate_.value, file, table))
  {
    if predicate_.None? { return Err(MissingPredicate); }
    if !Supported(predicate_.value, table, file) { return Err(NotSupported); }
    SupportedHasLeaves(predicate_.value, file, table);
    var filter := TryNew(predicate_, file, table);
    return if filter.Some? then Ok(filter.value) else Err(CouldNotConstruct);
  }

  lemma SupportedHasLeaves(p: ScanPredicate, file: Schema, table: Schema)
    requires Supported(p, table, file)
    ensures FileLeaves(p, file, table) != []
  {
    var any := ParquetFile(file, [], []);
    LeavesAreExact((t, d, op, v) => Unknown, any, table, map[], seq(|file|, _ => None), p);
  }
}
