/**
 Planning a Parquet scan: the cascade of Hive, statistics, Bloom and page pruning, row filters and
 limits, and the proof that no answer changes.
 */
module ScanPlan {
  import opened Common
  import opened Predicates
  import opened ParquetFiles
  import opened Ranges
  import opened PagePruning
  import opened RowStreams
  import RowGroupPruning
  import Bloom
  import Hive
  import RowFilter

  datatype SchemaMode = Strict | UnionByName | SafeWidening

  /** `exact` makes the scan the owner of the filter: nothing above it filters again. */
  datatype Request = Request(predicate_: Option<ScanPredicate>, limit: Option<nat>, exact: bool)

  datatype Scan = Scan(
    files: seq<ParquetFile>,
    table: Schema,
    hive: Option<Hive.HivePartitions>,
    mode: SchemaMode,
    usePageIndex: bool,
    useBloom: bool,
    request: Request)

  datatype PlanError =
    | NeedsStrictMode
    | FilterFailed(reason: RowFilter.FilterError)
    | SchemaChanged
    | BloomCorrupt
    | PageIndexCorrupt(page: PageError)

  /** One unit of reading: a row group, the rows selected in it, the reader's filter and limit. */
  datatype Morsel = Morsel(
    file: nat,
    group: nat,
    selection: Option<seq<Range>>,
    filter: Option<seq<RowFilter.ColumnPredicate>>,
    rowLimit: Option<nat>)

  // ---------------------------------------------------------------- views and validity

  predicate IsPartitionColumn(h: Hive.HivePartitions, file: nat, column: nat) {
    && h.physicalColumns <= column < h.physicalColumns + |h.columns|
    && file < |h.files| && column - h.physicalColumns < |h.files[file]|
  }

  /** The partition values of a file, by table column. */
  function Fixed(scan: Scan, file: nat): map<nat, Cell> {
    if scan.hive.None? then map[]
    else
      var h := scan.hive.value;
      map c: nat | c < h.physicalColumns + |h.columns| && IsPartitionColumn(h, file, c)
        :: Hive.Materialised(h.columns[c - h.physicalColumns], h.files[file][c - h.physicalColumns])
  }

  function View(scan: Scan, file: nat, group: nat): GroupView
    requires file < |scan.files| && group < |scan.files[file].groups|
  {
    GroupView(scan.files[file], scan.table, Fixed(scan, file), scan.files[file].groups[group])
  }

  /**
   The metadata keeps the format's promises, the predicate does not ask of a column with one nested
   leaf that it be present, and partition columns end the table schema.
   */
  ghost predicate ScanValid(scan: Scan) {
    && (forall f :: 0 <= f < |scan.files| ==>
          && FileValid(scan.files[f])
          && (scan.request.predicate_.Some? ==> Trusted(scan.files[f], scan.table, scan.request.predicate_.value)))
    && (scan.hive.Some? ==>
          var h := scan.hive.value;
          && Hive.HiveValid(h) && |h.files| == |scan.files|
          && |scan.table| == h.physicalColumns + |h.columns|
          && forall k :: 0 <= k < |h.columns| ==> scan.table[h.physicalColumns + k].name == h.columns[k].name)
  }

  /** No column of the file is named like a partition column. */
  predicate HiveAccepts(scan: Scan, file: ParquetFile) {
    scan.hive.Some? ==>
      forall k, f :: 0 <= k < |scan.hive.value.columns| && 0 <= f < |file.schema| ==>
        !Hive.SameName(file.schema[f].name, scan.hive.value.columns[k].name)
  }

  lemma FixedIsValid(scan: Scan, file: nat)
    ensures FixedValid(Fixed(scan, file))
  {
    var fixed := Fixed(scan, file);
    forall c | c in fixed ensures CellWellTyped(fixed[c]) {
      var h := scan.hive.value;
      Hive.MaterialisedWellTyped(h.columns[c - h.physicalColumns], h.files[file][c - h.physicalColumns]);
    }
  }

  lemma AcceptedView(scan: Scan, file: nat, group: nat)
    requires ScanValid(scan) && file < |scan.files| && group < |scan.files[file].groups|
    requires HiveAccepts(scan, scan.files[file])
    ensures ViewValid(View(scan, file, group))
  {
    var schema, fixed := scan.files[file].schema, Fixed(scan, file);
    FixedIsValid(scan, file);
    forall c | c in fixed && c < |scan.table| ensures IndexOf(schema, scan.table[c].name).None? {
      var k := c - scan.hive.value.physicalColumns;
      var name := scan.hive.value.columns[k].name;
      assert Hive.SameName(name, name);
    }
  }

  // ---------------------------------------------------------------- what a scan means

  ghost function GroupRows(scan: Scan, file: nat, group: nat): (rows: seq<Row>)
    requires ScanValid(scan) && file < |scan.files| && group < |scan.files[file].groups|
    ensures |rows| == |scan.files[file].groups[group].rows|
  {
    var v := View(scan, file, group);
    assert GroupValid(v.file, v.group);
    seq(v.Rows(), i requires 0 <= i < v.Rows() =>
      assert FileRowValid(v.file, v.group.rows[i]);
      TableRow(v.file, v.table, v.fixed, v.group.rows[i]))
  }

  /** The rows of the first `groups` row groups of a file. */
  ghost function FileRows(scan: Scan, file: nat, groups: nat): seq<Row>
    requires ScanValid(scan) && file < |scan.files| && groups <= |scan.files[file].groups|
  {
    if groups == 0 then [] else FileRows(scan, file, groups - 1) + GroupRows(scan, file, groups - 1)
  }

  /** The rows of the first `files` files. */
  ghost function TableRows(scan: Scan, files: nat): seq<Row>
    requires ScanValid(scan) && files <= |scan.files|
  {
    if files == 0 then []
    else TableRows(scan, files - 1) + FileRows(scan, files - 1, |scan.files[files - 1].groups|)
  }

  ghost predicate MorselValid(scan: Scan, m: Morsel) {
    m.file < |scan.files| && m.group < |scan.files[m.file].groups|
  }

  /** Whether the reader delivers row `i` of the group. */
  ghost predicate Delivered(sql: Coercion, file: ParquetFile, row: FileRow, m: Morsel, i: int) {
    && (m.selection.Some? ==> In(m.selection.value, i))
    && (m.filter.Some? ==>
          && (forall c :: c in m.filter.value ==>
                c.leaves != [] && forall l :: l in c.leaves ==> l.fileColumn < |file.schema| == |row|)
          && RowFilter.FilterPasses(sql, file.schema, row, m.filter.value))
  }

  ghost function Mask(sql: Coercion, scan: Scan, m: Morsel): nat -> bool
    requires MorselValid(scan, m)
  {
    var file := scan.files[m.file];
    var g := file.groups[m.group];
    (i: nat) => i < |g.rows| && Delivered(sql, file, g.rows[i], m, i)
  }

  /** What the reader yields for a morsel: selected, filtered, then limited. */
  ghost function Read(sql: Coercion, scan: Scan, m: Morsel): seq<Row>
    requires ScanValid(scan) && MorselValid(scan, m)
  {
    Take(m.rowLimit, Pick(GroupRows(scan, m.file, m.group), Mask(sql, scan, m)))
  }

  ghost function ReadAll(sql: Coercion, scan: Scan, ms: seq<Morsel>): seq<Row>
    requires ScanValid(scan) && forall m :: m in ms ==> MorselValid(scan, m)
  {
    if ms == [] then [] else ReadAll(sql, scan, ms[..|ms| - 1]) + Read(sql, scan, ms[|ms| - 1])
  }

  // ---------------------------------------------------------------- pruned means barren

  predicate HivePruned(scan: Scan, file: nat) {
    && scan.hive.Some? && scan.request.predicate_.Some?
    && Hive.PredicatePrunes(scan.hive.value, file, scan.request.predicate_.value)
  }

  predicate StatisticsPruned(scan: Scan, file: nat, group: nat)
    requires file < |scan.files| && group < |scan.files[file].groups|
  {
    && scan.request.predicate_.Some?
    && RowGroupPruning.CanPrune(View(scan, file, group), scan.request.predicate_.value)
  }

  ghost predicate BloomPruned(scan: Scan, file: nat, group: nat)
    requires file < |scan.files| && group < |scan.files[file].groups|
  {
    scan.request.predicate_.Some? && exists g ::
      g in Bloom.EqualityGroups(scan.request.predicate_.value) && Bloom.AllAbsent(View(scan, file, group), g)
  }

  /** No enabled test of the whole group rules it out. */
  ghost predicate Needed(scan: Scan, file: nat, group: nat)
    requires file < |scan.files| && group < |scan.files[file].groups|
  {
    && !HivePruned(scan, file) && !StatisticsPruned(scan, file, group)
    && (scan.useBloom ==> !BloomPruned(scan, file, group))
  }

  /** No row of the group satisfies the predicate. */
  ghost predicate Barren(sql: Coercion, scan: Scan, file: nat, group: nat)
    requires ScanValid(scan) && file < |scan.files| && group < |scan.files[file].groups|
  {
    forall i :: 0 <= i < |GroupRows(scan, file, group)| ==>
      !Matches(sql, scan.request.predicate_, GroupRows(scan, file, group)[i])
  }

  lemma BarrenAddsNothing(sql: Coercion, scan: Scan, file: nat, group: nat)
    requires ScanValid(scan) && file < |scan.files| && group < |scan.files[file].groups|
    requires Barren(sql, scan, file, group)
    ensures Keep(sql, scan.request.predicate_, FileRows(scan, file, group + 1))
            == Keep(sql, scan.request.predicate_, FileRows(scan, file, group))
  {
    hide GroupRows;
    KeepAppend(sql, scan.request.predicate_, FileRows(scan, file, group), GroupRows(scan, file, group));
    KeepNone(sql, scan.request.predicate_, GroupRows(scan, file, group));
  }

  lemma {:induction false} BarrenGap(sql: Coercion, scan: Scan, file: nat, low: nat, high: nat)
    requires ScanValid(scan) && file < |scan.files| && low <= high <= |scan.files[file].groups|
    requires forall g :: low <= g < high ==> Barren(sql, scan, file, g)
    ensures Keep(sql, scan.request.predicate_, FileRows(scan, file, high))
            == Keep(sql, scan.request.predicate_, FileRows(scan, file, low))
    decreases high - low
  {
    hide Barren, Keep, FileRows;
    if low < high {
      BarrenGap(sql, scan, file, low, high - 1);
      BarrenAddsNothing(sql, scan, file, high - 1);
    }
  }

  /** Every row of a file carries the file's partition values. */
  lemma PartitionCell(scan: Scan, file: nat, group: nat, i: nat, k: nat)
    requires ScanValid(scan) && file < |scan.files| && group < |scan.files[file].groups|
    requires scan.hive.Some? && i < |GroupRows(scan, file, group)| && k < |scan.hive.value.columns|
    ensures var h := scan.hive.value;
            CellAt(GroupRows(scan, file, group)[i], h.physicalColumns + k)
            == Hive.Materialised(h.columns[k], h.files[file][k])
  {
    hide Hive.Materialised;
    assert IsPartitionColumn(scan.hive.value, file, scan.hive.value.physicalColumns + k);
  }

  /** A file pruned by its partition values holds no matching row, whatever its own schema. */
  lemma HivePrunedIsBarren(sql: Coercion, scan: Scan, file: nat, group: nat)
    requires ScanValid(scan) && file < |scan.files| && group < |scan.files[file].groups|
    requires HivePruned(scan, file)
    ensures Barren(sql, scan, file, group)
  {
    hide Hive.PredicatePrunes, Hive.Materialised, CellAt, Eval, GroupRows;
    var h, rows := scan.hive.value, GroupRows(scan, file, group);
    forall i | 0 <= i < |rows| ensures !Matches(sql, scan.request.predicate_, rows[i]) {
      forall k | 0 <= k < |h.columns|
        ensures CellAt(rows[i], h.physicalColumns + k) == Hive.Materialised(h.columns[k], h.files[file][k])
      {
        PartitionCell(scan, file, group, i, k);
      }
      Hive.PredicatePrunesSound(sql, h, file, scan.request.predicate_.value, rows[i]);
    }
  }

  lemma StatisticsPrunedIsBarren(sql: Coercion, scan: Scan, file: nat, group: nat)
    requires ScanValid(scan) && file < |scan.files| && group < |scan.files[file].groups|
    requires HiveAccepts(scan, scan.files[file]) && StatisticsPruned(scan, file, group)
    ensures Barren(sql, scan, file, group)
  {
    hide RowGroupPruning.CanPrune;
    AcceptedView(scan, file, group);
    forall i | 0 <= i < |GroupRows(scan, file, group)|
      ensures !Matches(sql, scan.request.predicate_, GroupRows(scan, file, group)[i])
    {
      RowGroupPruning.CanPruneSound(sql, View(scan, file, group), scan.request.predicate_.value, i);
    }
  }

  lemma BloomPrunedIsBarren(sql: Coercion, scan: Scan, file: nat, group: nat)
    requires ScanValid(scan) && file < |scan.files| && group < |scan.files[file].groups|
    requires HiveAccepts(scan, scan.files[file]) && BloomPruned(scan, file, group)
    ensures Barren(sql, scan, file, group)
  {
    var p := scan.request.predicate_.value;
    var g :| g in Bloom.EqualityGroups(p) && Bloom.AllAbsent(View(scan, file, group), g);
    AcceptedView(scan, file, group);
    forall i | 0 <= i < |GroupRows(scan, file, group)|
      ensures !Matches(sql, scan.request.predicate_, GroupRows(scan, file, group)[i])
    {
      Bloom.AllAbsentSound(sql, View(scan, file, group), p, g, i);
    }
  }

  /** Every matching row of a group lies in its page selection. */
  lemma PagesKeepMatches(sql: Coercion, scan: Scan, file: nat, group: nat, ranges: seq<Range>, i: int)
    requires ScanValid(scan) && file < |scan.files| && group < |scan.files[file].groups|
    requires HiveAccepts(scan, scan.files[file]) && scan.request.predicate_.Some?
    requires Selects(View(scan, file, group), Conjuncts(scan.request.predicate_.value), ranges)
    requires 0 <= i < |GroupRows(scan, file, group)|
    requires Matches(sql, scan.request.predicate_, GroupRows(scan, file, group)[i])
    ensures In(ranges, i)
  {
    hide Selects;
    AcceptedView(scan, file, group);
    SelectionSound(sql, View(scan, file, group), scan.request.predicate_.value, ranges, i);
  }

  // ---------------------------------------------------------------- one morsel

  /** The file's row filter: implied by the predicate, and equal to it for an exact request. */
  ghost predicate FilterFor(scan: Scan, file: nat, filter: Option<seq<RowFilter.ColumnPredicate>>)
    requires file < |scan.files|
  {
    var schema := scan.files[file].schema;
    && (filter.Some? ==>
          && scan.request.predicate_.Some?
          && RowFilter.Grouping(filter.value, RowFilter.FileLeaves(scan.request.predicate_.value, schema, scan.table)))
    && (scan.request.exact ==>
          filter.Some? && RowFilter.Supported(scan.request.predicate_.value, scan.table, schema))
    && (filter.None? && scan.request.predicate_.Some? ==>
          RowFilter.FileLeaves(scan.request.predicate_.value, schema, scan.table) == [])
  }

  predicate UsesPages(scan: Scan) {
    && scan.usePageIndex && scan.request.predicate_.Some? && SupportsPageIndex(scan.request.predicate_.value)
  }

  /** A selection is what the conjuncts select, and is left out only where they select every row. */
  ghost predicate PagesFor(scan: Scan, file: nat, group: nat, selection: Option<seq<Range>>)
    requires file < |scan.files| && group < |scan.files[file].groups|
  {
    var v := View(scan, file, group);
    && (selection.Some? ==>
          UsesPages(scan) && Selects(v, Conjuncts(scan.request.predicate_.value), selection.value))
    && (selection.None? && UsesPages(scan) ==>
          forall row :: 0 <= row < v.Rows() ==> KeepsAll(v, Conjuncts(scan.request.predicate_.value), row))
  }

  lemma FilterDelivers(sql: Coercion, scan: Scan, file: nat, group: nat, filter: seq<RowFilter.ColumnPredicate>, i: nat)
    requires ScanValid(scan) && file < |scan.files| && group < |scan.files[file].groups|
    requires HiveAccepts(scan, scan.files[file]) && FilterFor(scan, file, Some(filter))
    requires i < |GroupRows(scan, file, group)|
    ensures var f := scan.files[file];
            var row := f.groups[group].rows[i];
            var matching := Matches(sql, scan.request.predicate_, GroupRows(scan, file, group)[i]);
            && (forall c :: c in filter ==>
                  c.leaves != [] && forall l :: l in c.leaves ==> l.fileColumn < |f.schema| == |row|)
            && (matching ==> RowFilter.FilterPasses(sql, f.schema, row, filter))
            && (scan.request.exact && RowFilter.FilterPasses(sql, f.schema, row, filter) ==> matching)
  {
    hide RowFilter.Grouping, RowFilter.FileLeaves, RowFilter.FilterPasses, RowFilter.AllLeavesTrue;
    hide RowFilter.Supported, Eval;
    var f, p := scan.files[file], scan.request.predicate_.value;
    var row := f.groups[group].rows[i];
    AcceptedView(scan, file, group);
    assert FileRowValid(f, row);
    var leaves := RowFilter.FileLeaves(p, f.schema, scan.table);
    RowFilter.FilterIsConjunction(sql, f.schema, row, filter, leaves);
    if scan.request.exact {
      RowFilter.LeavesAreExact(sql, f, scan.table, Fixed(scan, file), row, p);
    } else if Matches(sql, scan.request.predicate_, GroupRows(scan, file, group)[i]) {
      RowFilter.LeavesAreImplied(sql, f, scan.table, Fixed(scan, file), row, p);
    }
  }

  /** The reader delivers every matching row, and for an exact request only those. */
  lemma MaskKeepsMatches(sql: Coercion, scan: Scan, m: Morsel, i: nat)
    requires ScanValid(scan) && MorselValid(scan, m) && HiveAccepts(scan, scan.files[m.file])
    requires FilterFor(scan, m.file, m.filter) && PagesFor(scan, m.file, m.group, m.selection)
    requires i < |GroupRows(scan, m.file, m.group)|
    ensures var matching := Matches(sql, scan.request.predicate_, GroupRows(scan, m.file, m.group)[i]);
            && (matching ==> Mask(sql, scan, m)(i))
            && (scan.request.exact && Mask(sql, scan, m)(i) ==> matching)
  {
    hide Matches, FilterFor, Selects, In, GroupRows, RowFilter.FilterPasses;
    if m.filter.Some? { FilterDelivers(sql, scan, m.file, m.group, m.filter.value, i); }
    if m.selection.Some? && Matches(sql, scan.request.predicate_, GroupRows(scan, m.file, m.group)[i]) {
      PagesKeepMatches(sql, scan, m.file, m.group, m.selection.value, i);
    }
    ExactHasFilter(scan, m);
  }

  lemma ExactHasFilter(scan: Scan, m: Morsel)
    requires MorselValid(scan, m) && FilterFor(scan, m.file, m.filter)
    ensures scan.request.exact ==> m.filter.Some? && scan.request.predicate_.Some?
  {
  }

  /** How many rows the reader may count on: the selected ones, or all of the group. */
  ghost function EffectiveRows(group: RowGroup, selection: Option<seq<Range>>): nat {
    if selection.Some? then |RowsOf(selection.value, |group.rows|)| else |group.rows|
  }

  /** The reader limit: what is left without a predicate, the whole limit for an exact one, else none. */
  function ReaderLimit(request: Request, effective: nat, remaining: nat): (r: (Option<nat>, nat))
    ensures r.1 <= remaining
  {
    if request.limit.None? then (None, remaining)
    else if request.predicate_.None? then
      var admitted := Min(effective, remaining);
      (Some(admitted), remaining - admitted)
    else if request.exact then (Some(Min(effective, request.limit.value)), remaining)
    else (None, remaining)
  }

  /** The morsel reads only what no enabled test rules out, filters and limits what it can, and has rows to read. */
  ghost predicate Frugal(scan: Scan, m: Morsel)
    requires MorselValid(scan, m)
  {
    && Needed(scan, m.file, m.group) && PagesFor(scan, m.file, m.group, m.selection)
    && EffectiveRows(scan.files[m.file].groups[m.group], m.selection) > 0
    && (scan.request.limit.Some? && (scan.request.exact || scan.request.predicate_.None?) ==>
          m.rowLimit.Some? && m.rowLimit.value <= scan.request.limit.value)
    && (m.filter.None? && scan.request.predicate_.Some? ==>
          RowFilter.FileLeaves(scan.request.predicate_.value, scan.files[m.file].schema, scan.table) == [])
  }

  ghost predicate MorselPlanned(scan: Scan, m: Morsel, remaining: nat) {
    && MorselValid(scan, m) && HiveAccepts(scan, scan.files[m.file])
    && FilterFor(scan, m.file, m.filter) && Frugal(scan, m)
    && m.rowLimit == ReaderLimit(scan.request, EffectiveRows(scan.files[m.file].groups[m.group], m.selection), remaining).0
  }

  lemma PieceSize(sql: Coercion, scan: Scan, m: Morsel)
    requires ScanValid(scan) && MorselValid(scan, m)
    ensures |Pick(GroupRows(scan, m.file, m.group), Mask(sql, scan, m))|
            <= EffectiveRows(scan.files[m.file].groups[m.group], m.selection)
  {
    hide GroupRows, RowsOf, In, Pick;
    var rows, mask := GroupRows(scan, m.file, m.group), Mask(sql, scan, m);
    if m.selection.Some? { PickSize(rows, mask, m.selection.value); } else { PickShrinks(rows, mask); }
  }

  /** What one planned morsel contributes agrees with its group, up to what the limit still allows. */
  lemma MorselAgrees(sql: Coercion, scan: Scan, m: Morsel, remaining: nat)
    requires ScanValid(scan) && MorselPlanned(scan, m, remaining)
    ensures var piece := Keep(sql, scan.request.predicate_, Read(sql, scan, m));
            var all := Keep(sql, scan.request.predicate_, GroupRows(scan, m.file, m.group));
            && (scan.request.limit.None? ==> piece == all)
            && (scan.request.limit.Some? && scan.request.predicate_.None? ==> Agree(Some(remaining), piece, all))
            && (scan.request.limit.Some? && scan.request.predicate_.Some? ==>
                  forall left: nat :: left <= scan.request.limit.value ==> Agree(Some(left), piece, all))
            && (scan.request.exact ==> Read(sql, scan, m) == piece)
    ensures scan.request.predicate_.None? && scan.request.limit.Some? ==>
              |Read(sql, scan, m)| == Min(|GroupRows(scan, m.file, m.group)|, remaining)
  {
    hide GroupRows, Matches, Mask, Keep, Pick, FilterFor, PagesFor, EffectiveRows;
    var p, rows, mask := scan.request.predicate_, GroupRows(scan, m.file, m.group), Mask(sql, scan, m);
    var picked := Pick(rows, mask);
    forall i: nat | i < |rows|
      ensures (Matches(sql, p, rows[i]) ==> mask(i)) && (scan.request.exact && mask(i) ==> Matches(sql, p, rows[i]))
    {
      MaskKeepsMatches(sql, scan, m, i);
    }
    KeepPick(sql, p, rows, mask);
    PieceSize(sql, scan, m);
    ExactHasFilter(scan, m);
    if scan.request.exact {
      ExactPiece(sql, scan, m, remaining);
    } else if p.None? {
      WholePiece(sql, scan, m, remaining);
    }
  }

  lemma WholePiece(sql: Coercion, scan: Scan, m: Morsel, remaining: nat)
    requires ScanValid(scan) && MorselPlanned(scan, m, remaining) && !scan.request.exact
    requires scan.request.predicate_.None?
    ensures var rows := GroupRows(scan, m.file, m.group);
            && (scan.request.limit.None? ==> Read(sql, scan, m) == rows)
            && (scan.request.limit.Some? ==>
                  && |Read(sql, scan, m)| == Min(|rows|, remaining)
                  && Agree(Some(remaining), Read(sql, scan, m), rows))
            && Keep(sql, None, Read(sql, scan, m)) == Read(sql, scan, m) && Keep(sql, None, rows) == rows
  {
    hide GroupRows, Keep, Pick;
    var rows := GroupRows(scan, m.file, m.group);
    PickAll(rows, Mask(sql, scan, m));
    RowStreams.KeepAll(sql, rows);
    RowStreams.KeepAll(sql, Read(sql, scan, m));
    if scan.request.limit.Some? { AgreeTruncated(remaining, Min(|rows|, remaining), rows); }
  }

  lemma ExactPiece(sql: Coercion, scan: Scan, m: Morsel, remaining: nat)
    requires ScanValid(scan) && MorselPlanned(scan, m, remaining) && scan.request.exact
    requires scan.request.predicate_.Some?
    requires var rows, mask := GroupRows(scan, m.file, m.group), Mask(sql, scan, m);
             && (forall i: nat :: i < |rows| ==> (Matches(sql, scan.request.predicate_, rows[i]) <==> mask(i)))
             && |Pick(rows, mask)| <= EffectiveRows(scan.files[m.file].groups[m.group], m.selection)
    ensures var all := Keep(sql, scan.request.predicate_, GroupRows(scan, m.file, m.group));
            var piece := Read(sql, scan, m);
            && Keep(sql, scan.request.predicate_, piece) == piece
            && (scan.request.limit.None? ==> piece == all)
            && (scan.request.limit.Some? ==>
                  forall left: nat :: left <= scan.request.limit.value ==> Agree(Some(left), piece, all))
  {
    hide GroupRows, Keep, Pick, Matches, Mask, EffectiveRows;
    var p, rows := scan.request.predicate_, GroupRows(scan, m.file, m.group);
    PickIsKeep(sql, p, rows, Mask(sql, scan, m));
    var all := Keep(sql, p, rows);
    KeepIdempotent(sql, p, rows);
    var piece := Read(sql, scan, m);
    if scan.request.limit.Some? {
      var cut := m.rowLimit.value;
      if cut < |all| { KeepPrefix(sql, p, all, cut); }
      forall left: nat | left <= scan.request.limit.value ensures Agree(Some(left), piece, all) {
        AgreeTruncated(left, cut, all);
      }
    }
  }

  // ---------------------------------------------------------------- progress

  /**
   The morsels so far deliver what the rows so far should: the same rows after filtering, as far as
   a consumer with this limit can tell; for an exact request they need no further filtering.
   */
  ghost predicate Progress(sql: Coercion, scan: Scan, ms: seq<Morsel>, rows: seq<Row>, remaining: nat) {
    && ScanValid(scan) && (forall m :: m in ms ==> MorselValid(scan, m) && Frugal(scan, m))
    && var read, p := ReadAll(sql, scan, ms), scan.request.predicate_;
       && Agree(scan.request.limit, Keep(sql, p, read), Keep(sql, p, rows))
       && (scan.request.exact ==> Keep(sql, p, read) == read)
       && (if p.None? && scan.request.limit.Some? then remaining == scan.request.limit.value - |read| else remaining > 0)
  }

  lemma ReadAllAppend(sql: Coercion, scan: Scan, ms: seq<Morsel>, m: Morsel)
    requires ScanValid(scan) && (forall n :: n in ms ==> MorselValid(scan, n)) && MorselValid(scan, m)
    ensures forall n :: n in ms + [m] ==> MorselValid(scan, n)
    ensures ReadAll(sql, scan, ms + [m]) == ReadAll(sql, scan, ms) + Read(sql, scan, m)
  {
    assert (ms + [m])[..|ms + [m]| - 1] == ms;
  }

  /** A planned morsel accounts for its whole group. */
  lemma ProgressMorsel(sql: Coercion, scan: Scan, ms: seq<Morsel>, rows: seq<Row>, remaining: nat, m: Morsel)
    requires Progress(sql, scan, ms, rows, remaining) && MorselPlanned(scan, m, remaining)
    ensures Progress(sql, scan, ms + [m], rows + GroupRows(scan, m.file, m.group),
                     ReaderLimit(scan.request, EffectiveRows(scan.files[m.file].groups[m.group], m.selection), remaining).1)
  {
    hide Keep, GroupRows, Read, FilterFor, PagesFor;
    var p, read, piece := scan.request.predicate_, ReadAll(sql, scan, ms), Read(sql, scan, m);
    var group := GroupRows(scan, m.file, m.group);
    MorselAgrees(sql, scan, m, remaining);
    ReadAllAppend(sql, scan, ms, m);
    KeepAppend(sql, p, read, piece);
    KeepAppend(sql, p, rows, group);
    if p.None? { RowStreams.KeepAll(sql, read); }
    AgreeAppend(scan.request.limit, Keep(sql, p, read), Keep(sql, p, rows), Keep(sql, p, piece), Keep(sql, p, group));
    if p.None? && scan.request.limit.Some? { WholeEffective(scan, m); }
  }

  lemma WholeEffective(scan: Scan, m: Morsel)
    requires ScanValid(scan) && MorselValid(scan, m) && scan.request.predicate_.None?
    requires PagesFor(scan, m.file, m.group, m.selection)
    ensures EffectiveRows(scan.files[m.file].groups[m.group], m.selection) == |GroupRows(scan, m.file, m.group)|
  {
  }

  /** Rows with the same filtered contents are interchangeable. */
  lemma ProgressSame(sql: Coercion, scan: Scan, ms: seq<Morsel>, rows: seq<Row>, rows': seq<Row>, remaining: nat)
    requires Progress(sql, scan, ms, rows, remaining)
    requires Keep(sql, scan.request.predicate_, rows) == Keep(sql, scan.request.predicate_, rows')
    ensures Progress(sql, scan, ms, rows', remaining)
  {
  }

  /** Once the limit is used up, further rows change nothing. */
  lemma ProgressDone(sql: Coercion, scan: Scan, ms: seq<Morsel>, rows: seq<Row>, more: seq<Row>)
    requires Progress(sql, scan, ms, rows, 0)
    ensures Progress(sql, scan, ms, rows + more, 0)
  {
    hide Keep, ReadAll;
    var p, read := scan.request.predicate_, ReadAll(sql, scan, ms);
    RowStreams.KeepAll(sql, read);
    KeepAppend(sql, p, rows, more);
    AgreeAppend(scan.request.limit, Keep(sql, p, read), Keep(sql, p, rows), [], Keep(sql, p, more));
    assert Keep(sql, p, read) + [] == Keep(sql, p, read);
  }

  // ---------------------------------------------------------------- errors

  ghost predicate BloomBroken(scan: Scan, file: nat, group: nat)
    requires file < |scan.files| && group < |scan.files[file].groups|
  {
    scan.request.predicate_.Some? && exists g, q ::
      && g in Bloom.EqualityGroups(scan.request.predicate_.value) && q in g
      && Bloom.EqualityAnswer(View(scan, file, group), q).CorruptFilter?
  }

  ghost predicate PagesBroken(scan: Scan, file: nat, group: nat, e: PageError)
    requires file < |scan.files| && group < |scan.files[file].groups|
  {
    scan.request.predicate_.Some? && exists c ::
      c in Conjuncts(scan.request.predicate_.value) && PredicateUsage(View(scan, file, group), c) == Broken(e)
  }

  /** Planning fails only for cause: each error points at the request, a schema or corrupt metadata. */
  ghost predicate Justified(scan: Scan, e: PlanError) {
    && (e.NeedsStrictMode? ==> scan.request.exact && scan.mode != Strict)
    && (e.FilterFailed? ==>
          && scan.request.exact
          && if scan.request.predicate_.None? then e.reason.MissingPredicate?
             else
               && e.reason.NotSupported?
               && exists f :: 0 <= f < |scan.files|
                              && !RowFilter.Supported(scan.request.predicate_.value, scan.table, scan.files[f].schema))
    && (e.SchemaChanged? ==>
          scan.hive.Some? && exists f, c, k ::
            && 0 <= f < |scan.files| && 0 <= c < |scan.files[f].schema| && 0 <= k < |scan.hive.value.columns|
            && Hive.SameName(scan.files[f].schema[c].name, scan.hive.value.columns[k].name))
    && (e.BloomCorrupt? ==>
          scan.useBloom && exists f, g ::
            0 <= f < |scan.files| && 0 <= g < |scan.files[f].groups| && BloomBroken(scan, f, g))
    && (e.PageIndexCorrupt? ==>
          scan.usePageIndex && exists f, g ::
            0 <= f < |scan.files| && 0 <= g < |scan.files[f].groups| && PagesBroken(scan, f, g, e.page))
  }

  lemma BloomIsBroken(scan: Scan, file: nat, group: nat)
    requires file < |scan.files| && group < |scan.files[file].groups| && scan.useBloom
    requires scan.request.predicate_.Some?
    requires exists g, q ::
               && g in Bloom.EqualityGroups(scan.request.predicate_.value) && q in g
               && Bloom.EqualityAnswer(View(scan, file, group), q).CorruptFilter?
    ensures Justified(scan, BloomCorrupt)
  {
    hide Bloom.EqualityGroups, Bloom.EqualityAnswer;
    assert BloomBroken(scan, file, group);
  }

  lemma PagesAreBroken(scan: Scan, file: nat, group: nat, e: PageError)
    requires file < |scan.files| && group < |scan.files[file].groups| && scan.usePageIndex
    requires scan.request.predicate_.Some?
    requires exists c :: c in Conjuncts(scan.request.predicate_.value)
                         && PredicateUsage(View(scan, file, group), c) == Broken(e)
    ensures Justified(scan, PageIndexCorrupt(e))
  {
    hide Conjuncts, PredicateUsage;
    assert PagesBroken(scan, file, group, e);
  }

  // ---------------------------------------------------------------- candidate row groups

  /** Increasing group numbers; every group left out is barren. */
  ghost predicate Candidates(sql: Coercion, scan: Scan, file: nat, cs: seq<nat>)
    requires ScanValid(scan) && file < |scan.files|
  {
    && (forall k :: 0 <= k < |cs| ==> cs[k] < |scan.files[file].groups|)
    && (forall j, k :: 0 <= j < k < |cs| ==> cs[j] < cs[k])
    && (forall g :: 0 <= g < |scan.files[file].groups| && g !in cs ==> Barren(sql, scan, file, g))
  }

  method StatisticsCandidates(scan: Scan, file: nat, ghost sql: Coercion) returns (cs: seq<nat>)
    requires ScanValid(scan) && file < |scan.files| && HiveAccepts(scan, scan.files[file])
    ensures Candidates(sql, scan, file, cs)
    ensures forall k :: 0 <= k < |cs| ==> !StatisticsPruned(scan, file, cs[k])
  {
    hide Barren, HiveAccepts, StatisticsPruned;
    cs := [];
    for g := 0 to |scan.files[file].groups|
      invariant forall k :: 0 <= k < |cs| ==> cs[k] < g
      invariant forall j, k :: 0 <= j < k < |cs| ==> cs[j] < cs[k]
      invariant forall h :: 0 <= h < g && h !in cs ==> Barren(sql, scan, file, h)
      invariant forall k :: 0 <= k < |cs| ==> !StatisticsPruned(scan, file, cs[k])
    {
      if StatisticsPruned(scan, file, g) {
        StatisticsPrunedIsBarren(sql, scan, file, g);
        continue;
      }
      cs := cs + [g];
    }
  }

  /** The survivors so far, together with the groups not yet looked at, are still candidates. */
  ghost predicate Surviving(sql: Coercion, scan: Scan, file: nat, cs: seq<nat>, n: nat, survivors: seq<nat>)
    requires ScanValid(scan) && file < |scan.files|
  {
    n <= |cs| && Candidates(sql, scan, file, survivors + cs[n..])
  }

  lemma AllSurviving(sql: Coercion, scan: Scan, file: nat, cs: seq<nat>)
    requires ScanValid(scan) && file < |scan.files| && Candidates(sql, scan, file, cs)
    ensures Surviving(sql, scan, file, cs, 0, [])
  {
    assert [] + cs[0..] == cs;
  }

  lemma NoneLeft(sql: Coercion, scan: Scan, file: nat, cs: seq<nat>, survivors: seq<nat>)
    requires ScanValid(scan) && file < |scan.files| && Surviving(sql, scan, file, cs, |cs|, survivors)
    ensures Candidates(sql, scan, file, survivors)
  {
    assert survivors + cs[|cs|..] == survivors;
  }

  lemma KeepCandidate(sql: Coercion, scan: Scan, file: nat, cs: seq<nat>, n: nat, survivors: seq<nat>)
    requires ScanValid(scan) && file < |scan.files| && n < |cs|
    requires Surviving(sql, scan, file, cs, n, survivors)
    ensures Surviving(sql, scan, file, cs, n + 1, survivors + [cs[n]])
  {
    hide Candidates, ScanValid;
    assert survivors + cs[n..] == survivors + [cs[n]] + cs[n + 1..];
  }

  lemma DropCandidate(sql: Coercion, scan: Scan, file: nat, cs: seq<nat>, n: nat, survivors: seq<nat>)
    requires ScanValid(scan) && file < |scan.files| && n < |cs| && cs[n] < |scan.files[file].groups|
    requires Surviving(sql, scan, file, cs, n, survivors) && Barren(sql, scan, file, cs[n])
    ensures Surviving(sql, scan, file, cs, n + 1, survivors)
  {
    hide Barren, ScanValid;
    var all, rest := survivors + cs[n..], survivors + cs[n + 1..];
    forall k | 0 <= k < |rest| ensures rest[k] == all[if k < |survivors| then k else k + 1] {}
    forall g | 0 <= g < |scan.files[file].groups| && g !in rest ensures Barren(sql, scan, file, g) {
      assert g == cs[n] || g !in all;
    }
  }

  method BloomExcludes(scan: Scan, file: nat, group: nat, ghost sql: Coercion) returns (r: Result<bool, PlanError>)
    requires ScanValid(scan) && file < |scan.files| && group < |scan.files[file].groups|
    requires HiveAccepts(scan, scan.files[file]) && scan.useBloom
    ensures r.Ok? ==> (r.value <==> BloomPruned(scan, file, group))
    ensures r == Ok(true) ==> Barren(sql, scan, file, group)
    ensures r.Err? ==> Justified(scan, r.error)
  {
    hide Barren, HiveAccepts, ScanValid, Justified, View, Bloom.EqualityGroups, Bloom.AllAbsent, Bloom.EqualityAnswer;
    var pruned := Bloom.BloomPrunes(View(scan, file, group), scan.request.predicate_);
    if pruned.Err? {
      BloomIsBroken(scan, file, group);
      return Err(BloomCorrupt);
    }
    if pruned.value { BloomPrunedIsBarren(sql, scan, file, group); }
    return Ok(pruned.value);
  }

  method BloomSurvivors(scan: Scan, file: nat, cs: seq<nat>, ghost sql: Coercion)
    returns (r: Result<seq<nat>, PlanError>)
    requires ScanValid(scan) && file < |scan.files| && HiveAccepts(scan, scan.files[file])
    requires Candidates(sql, scan, file, cs) && scan.useBloom
    ensures r.Ok? ==> Candidates(sql, scan, file, r.value)
    ensures r.Ok? ==> forall k :: 0 <= k < |r.value| ==> r.value[k] in cs && !BloomPruned(scan, file, r.value[k])
    ensures r.Err? ==> Justified(scan, r.error)
  {
    assert forall k :: 0 <= k < |cs| ==> cs[k] < |scan.files[file].groups|;
    hide Surviving, Candidates, Barren, BloomPruned, HiveAccepts, ScanValid, Justified;
    var survivors: seq<nat> := [];
    AllSurviving(sql, scan, file, cs);
    for n := 0 to |cs|
      invariant Surviving(sql, scan, file, cs, n, survivors)
      invariant forall k :: 0 <= k < |survivors| ==>
        survivors[k] in cs && survivors[k] < |scan.files[file].groups| && !BloomPruned(scan, file, survivors[k])
    {
      var pruned := BloomExcludes(scan, file, cs[n], sql);
      if pruned.Err? { return Err(pruned.error); }
      if pruned.value {
        DropCandidate(sql, scan, file, cs, n, survivors);
      } else {
        KeepCandidate(sql, scan, file, cs, n, survivors);
        survivors := survivors + [cs[n]];
      }
    }
    NoneLeft(sql, scan, file, cs, survivors);
    return Ok(survivors);
  }

  // ---------------------------------------------------------------- planning

  ghost function RowsBefore(scan: Scan, file: nat, group: nat): seq<Row>
    requires ScanValid(scan) && file < |scan.files| && group <= |scan.files[file].groups|
  {
    TableRows(scan, file) + FileRows(scan, file, group)
  }

  /** Skipping barren groups between two positions of a file. */
  lemma ProgressGap(sql: Coercion, scan: Scan, ms: seq<Morsel>, file: nat, low: nat, high: nat, remaining: nat)
    requires ScanValid(scan) && file < |scan.files| && low <= high <= |scan.files[file].groups|
    requires Progress(sql, scan, ms, RowsBefore(scan, file, low), remaining)
    requires forall g :: low <= g < high ==> Barren(sql, scan, file, g)
    ensures Progress(sql, scan, ms, RowsBefore(scan, file, high), remaining)
  {
    hide Progress, Barren, Keep, FileRows, TableRows;
    var p := scan.request.predicate_;
    KeepAppend(sql, p, TableRows(scan, file), FileRows(scan, file, low));
    KeepAppend(sql, p, TableRows(scan, file), FileRows(scan, file, high));
    BarrenGap(sql, scan, file, low, high);
    ProgressSame(sql, scan, ms, RowsBefore(scan, file, low), RowsBefore(scan, file, high), remaining);
  }

  lemma PlannedIsFrugal(sql: Coercion, scan: Scan, ms: seq<Morsel>, rows: seq<Row>, remaining: nat, m: Morsel)
    requires Progress(sql, scan, ms, rows, remaining) && MorselValid(scan, m) && FilterFor(scan, m.file, m.filter)
    requires Needed(scan, m.file, m.group) && PagesFor(scan, m.file, m.group, m.selection)
    requires var effective := EffectiveRows(scan.files[m.file].groups[m.group], m.selection);
             effective > 0 && m.rowLimit == ReaderLimit(scan.request, effective, remaining).0
    ensures Frugal(scan, m)
  {
    hide Needed, PagesFor, EffectiveRows, ReadAll, Keep, RowFilter.FileLeaves, RowFilter.Grouping, ScanValid;
  }

  /** One candidate group: prune its pages, then plan a morsel unless nothing is left. */
  method PlanGroup(scan: Scan, file: nat, group: nat, filter: Option<seq<RowFilter.ColumnPredicate>>, remaining: nat,
                   ghost sql: Coercion, ghost ms: seq<Morsel>)
    returns (r: Result<Option<Morsel>, PlanError>, left: nat)
    requires ScanValid(scan) && file < |scan.files| && group < |scan.files[file].groups|
    requires HiveAccepts(scan, scan.files[file]) && FilterFor(scan, file, filter) && Needed(scan, file, group)
    requires Progress(sql, scan, ms, RowsBefore(scan, file, group), remaining)
    ensures r.Ok? ==>
              Progress(sql, scan, if r.value.Some? then ms + [r.value.value] else ms,
                       RowsBefore(scan, file, group + 1), left)
    ensures r.Err? ==> Justified(scan, r.error)
  {
    hide Progress, Justified, Needed, PagesFor, Selects, FilterFor, HiveAccepts, ScanValid, Barren, Fixed, RowsBefore;
    left := remaining;
    var pages := SelectPages(scan, file, group);
    if pages.Err? { return Err(pages.error), left; }
    var (selection, effective) := pages.value;
    if effective == 0 {
      NothingSelected(sql, scan, file, group, selection);
      ProgressGap(sql, scan, ms, file, group, group + 1, remaining);
      return Ok(None), left;
    }
    var (rowLimit, rest) := ReaderLimit(scan.request, effective, remaining);
    var m := Morsel(file, group, selection, filter, rowLimit);
    left := rest;
    NextRows(scan, file, group);
    PlannedIsFrugal(sql, scan, ms, RowsBefore(scan, file, group), remaining, m);
    ProgressMorsel(sql, scan, ms, RowsBefore(scan, file, group), remaining, m);
    return Ok(Some(m)), left;
  }

  lemma FullSelection(v: GroupView, cs: seq<ScanPredicate>, ranges: seq<Range>)
    requires Selects(v, cs, ranges) && |RowsOf(ranges, v.Rows())| == v.Rows()
    ensures forall row :: 0 <= row < v.Rows() ==> KeepsAll(v, cs, row)
  {
    hide KeepsAll;
    AtMostAll(ranges, v.Rows());
  }

  lemma NothingUsed(v: GroupView, cs: seq<ScanPredicate>)
    requires !SomeUsed(v, cs)
    ensures forall row :: 0 <= row < v.Rows() ==> KeepsAll(v, cs, row)
  {
    hide Keeps, PredicateUsage;
  }

  /** The pages to read of a group (all of them when nothing is pruned) and how many rows they hold. */
  method SelectPages(scan: Scan, file: nat, group: nat) returns (r: Result<(Option<seq<Range>>, nat), PlanError>)
    requires ScanValid(scan) && file < |scan.files| && group < |scan.files[file].groups|
    requires HiveAccepts(scan, scan.files[file])
    ensures r.Ok? ==>
              && PagesFor(scan, file, group, r.value.0)
              && r.value.1 == EffectiveRows(scan.files[file].groups[group], r.value.0)
    ensures r.Err? ==> Justified(scan, r.error)
  {
    hide Selects, HiveAccepts, SupportsPageIndex, Conjuncts, PredicateUsage, KeepsAll, RowsOf, Fixed, Justified;
    AcceptedView(scan, file, group);
    var v := View(scan, file, group);
    hide ScanValid, View, ViewValid;
    if UsesPages(scan) {
      var pruning := PrunePages(v, scan.request.predicate_);
      if pruning.Err? {
        PagesAreBroken(scan, file, group, pruning.error);
        return Err(PageIndexCorrupt(pruning.error));
      }
      if pruning.value.Some? && pruning.value.value.rowsPruned > 0 {
        return Ok((Some(pruning.value.value.ranges), pruning.value.value.selectedRows));
      }
      if pruning.value.Some? {
        FullSelection(v, Conjuncts(scan.request.predicate_.value), pruning.value.value.ranges);
      } else {
        NothingUsed(v, Conjuncts(scan.request.predicate_.value));
      }
    }
    return Ok((None, v.Rows()));
  }

  lemma NextRows(scan: Scan, file: nat, group: nat)
    requires ScanValid(scan) && file < |scan.files| && group < |scan.files[file].groups|
    ensures RowsBefore(scan, file, group + 1) == RowsBefore(scan, file, group) + GroupRows(scan, file, group)
  {
    hide GroupRows;
  }

  lemma NothingSelected(sql: Coercion, scan: Scan, file: nat, group: nat, selection: Option<seq<Range>>)
    requires ScanValid(scan) && file < |scan.files| && group < |scan.files[file].groups|
    requires HiveAccepts(scan, scan.files[file]) && PagesFor(scan, file, group, selection)
    requires EffectiveRows(scan.files[file].groups[group], selection) == 0
    ensures Barren(sql, scan, file, group)
  {
    hide Selects;
    var rows := GroupRows(scan, file, group);
    forall i | 0 <= i < |rows| ensures !Matches(sql, scan.request.predicate_, rows[i]) {
      assert i !in RowsOf(selection.value, |rows|);
      if Matches(sql, scan.request.predicate_, rows[i]) {
        PagesKeepMatches(sql, scan, file, group, selection.value, i);
        assert false;
      }
    }
  }

  /** The candidates of one file, in order, until the limit is used up. */
  method PlanGroups(scan: Scan, file: nat, cs: seq<nat>, filter: Option<seq<RowFilter.ColumnPredicate>>, remaining: nat,
                    ghost sql: Coercion, ms: seq<Morsel>)
    returns (r: Result<seq<Morsel>, PlanError>, left: nat)
    requires ScanValid(scan) && file < |scan.files| && HiveAccepts(scan, scan.files[file])
    requires FilterFor(scan, file, filter) && Candidates(sql, scan, file, cs)
    requires forall k :: 0 <= k < |cs| ==> Needed(scan, file, cs[k])
    requires Progress(sql, scan, ms, TableRows(scan, file), remaining)
    ensures r.Ok? ==> Progress(sql, scan, r.value, TableRows(scan, file + 1), left)
    ensures r.Err? ==> Justified(scan, r.error)
  {
    hide Progress, Justified, FilterFor, HiveAccepts, Barren, Needed;
    left := remaining;
    var output := ms;
    ghost var groups := |scan.files[file].groups|;
    ghost var at := 0;
    assert RowsBefore(scan, file, 0) == TableRows(scan, file);
    var n := 0;
    while n < |cs| && (n == 0 || left > 0)
      invariant n <= |cs| && at == if n == 0 then 0 else cs[n - 1] + 1
      invariant Progress(sql, scan, output, RowsBefore(scan, file, at), left)
    {
      GapIsBarren(sql, scan, file, cs, n);
      ProgressGap(sql, scan, output, file, at, cs[n], left);
      var planned, rest := PlanGroup(scan, file, cs[n], filter, left, sql, output);
      left := rest;
      if planned.Err? { return Err(planned.error), left; }
      if planned.value.Some? { output := output + [planned.value.value]; }
      at := cs[n] + 1;
      n := n + 1;
    }
    if n == |cs| {
      GapIsBarren(sql, scan, file, cs, n);
      ProgressGap(sql, scan, output, file, at, groups, left);
    } else {
      FinishEarly(sql, scan, output, file, at);
    }
    return Ok(output), left;
  }

  lemma GapIsBarren(sql: Coercion, scan: Scan, file: nat, cs: seq<nat>, n: nat)
    requires ScanValid(scan) && file < |scan.files| && Candidates(sql, scan, file, cs) && n <= |cs|
    ensures var low := if n == 0 then 0 else cs[n - 1] + 1;
            var high := if n < |cs| then cs[n] else |scan.files[file].groups|;
            low <= high && forall g :: low <= g < high ==> Barren(sql, scan, file, g)
  {
    hide Barren;
    var low := if n == 0 then 0 else cs[n - 1] + 1;
    var high := if n < |cs| then cs[n] else |scan.files[file].groups|;
    assert forall k :: 0 <= k < |cs| ==> cs[k] < low || high <= cs[k];
  }

  lemma FinishEarly(sql: Coercion, scan: Scan, ms: seq<Morsel>, file: nat, at: nat)
    requires ScanValid(scan) && file < |scan.files| && at <= |scan.files[file].groups|
    requires Progress(sql, scan, ms, RowsBefore(scan, file, at), 0)
    ensures Progress(sql, scan, ms, TableRows(scan, file + 1), 0)
  {
    hide Progress;
    var groups := |scan.files[file].groups|;
    var more := RestOfFile(scan, file, at, groups);
    ProgressDone(sql, scan, ms, RowsBefore(scan, file, at), more);
    assert RowsBefore(scan, file, groups) == TableRows(scan, file + 1);
  }

  lemma {:induction false} RestOfFile(scan: Scan, file: nat, at: nat, to_: nat) returns (more: seq<Row>)
    requires ScanValid(scan) && file < |scan.files| && at <= to_ <= |scan.files[file].groups|
    ensures RowsBefore(scan, file, to_) == RowsBefore(scan, file, at) + more
    decreases to_ - at
  {
    hide GroupRows;
    if at == to_ {
      more := [];
    } else {
      more := RestOfFile(scan, file, at, to_ - 1);
      NextRows(scan, file, to_ - 1);
      more := more + GroupRows(scan, file, to_ - 1);
    }
  }

  method FileFilter(scan: Scan, file: nat) returns (r: Result<Option<seq<RowFilter.ColumnPredicate>>, PlanError>)
    requires file < |scan.files|
    ensures r.Ok? ==> FilterFor(scan, file, r.value)
    ensures r.Err? ==> Justified(scan, r.error)
  {
    var schema := scan.files[file].schema;
    if scan.request.exact {
      if scan.mode != Strict { return Err(NeedsStrictMode); }
      var filter := RowFilter.TryNewExact(scan.request.predicate_, schema, scan.table);
      if filter.Err? { return Err(FilterFailed(filter.error)); }
      return Ok(Some(filter.value));
    }
    var filter := RowFilter.TryNew(scan.request.predicate_, schema, scan.table);
    return Ok(filter);
  }

  method PlanFile(scan: Scan, file: nat, remaining: nat, ghost sql: Coercion, ms: seq<Morsel>)
    returns (r: Result<seq<Morsel>, PlanError>, left: nat)
    requires ScanValid(scan) && file < |scan.files| && !HivePruned(scan, file)
    requires Progress(sql, scan, ms, TableRows(scan, file), remaining)
    ensures r.Ok? ==> Progress(sql, scan, r.value, TableRows(scan, file + 1), left)
    ensures r.Err? ==> Justified(scan, r.error)
  {
    hide Progress, FilterFor, Barren, StatisticsPruned, BloomPruned;
    left := remaining;
    if !HiveAccepts(scan, scan.files[file]) { return Err(SchemaChanged), left; }
    var filter := FileFilter(scan, file);
    if filter.Err? { return Err(filter.error), left; }
    var cs := StatisticsCandidates(scan, file, sql);
    if scan.useBloom && cs != [] {
      var survivors := BloomSurvivors(scan, file, cs, sql);
      if survivors.Err? { return Err(survivors.error), left; }
      cs := survivors.value;
    }
    assert forall k :: 0 <= k < |cs| ==> Needed(scan, file, cs[k]);
    r, left := PlanGroups(scan, file, cs, filter.value, remaining, sql, ms);
  }

  lemma HivePrunedFile(sql: Coercion, scan: Scan, ms: seq<Morsel>, file: nat, remaining: nat)
    requires ScanValid(scan) && file < |scan.files| && HivePruned(scan, file)
    requires Progress(sql, scan, ms, TableRows(scan, file), remaining)
    ensures Progress(sql, scan, ms, TableRows(scan, file + 1), remaining)
  {
    hide Progress, Barren, HivePruned;
    var groups := |scan.files[file].groups|;
    forall g | 0 <= g < groups ensures Barren(sql, scan, file, g) { HivePrunedIsBarren(sql, scan, file, g); }
    assert RowsBefore(scan, file, 0) == TableRows(scan, file);
    ProgressGap(sql, scan, ms, file, 0, groups, remaining);
    assert RowsBefore(scan, file, groups) == TableRows(scan, file + 1);
  }

  /** A file whose partition values rule the predicate out is skipped unopened. */
  method PlanUnlessPruned(scan: Scan, file: nat, remaining: nat, ghost sql: Coercion, ms: seq<Morsel>)
    returns (r: Result<seq<Morsel>, PlanError>, left: nat)
    requires ScanValid(scan) && file < |scan.files|
    requires Progress(sql, scan, ms, TableRows(scan, file), remaining)
    ensures r.Ok? ==> Progress(sql, scan, r.value, TableRows(scan, file + 1), left)
    ensures r.Err? ==> Justified(scan, r.error)
  {
    hide Progress, Justified, ScanValid, TableRows, HivePruned;
    if HivePruned(scan, file) {
      HivePrunedFile(sql, scan, ms, file, remaining);
      return Ok(ms), remaining;
    }
    r, left := PlanFile(scan, file, remaining, sql, ms);
  }

  lemma {:induction false} FinishTable(sql: Coercion, scan: Scan, ms: seq<Morsel>, f: nat)
    requires ScanValid(scan) && f <= |scan.files| && Progress(sql, scan, ms, TableRows(scan, f), 0)
    ensures Progress(sql, scan, ms, TableRows(scan, |scan.files|), 0)
    decreases |scan.files| - f
  {
    hide Progress;
    if f < |scan.files| {
      ProgressDone(sql, scan, ms, TableRows(scan, f), FileRows(scan, f, |scan.files[f].groups|));
      FinishTable(sql, scan, ms, f + 1);
    }
  }

  /**
   Every morsel is worth reading.  Filtering what the morsels deliver gives the rows that filtering the
   whole table gives, in order, up to the limit; for an exact request the morsels already deliver those
   rows, and without a predicate nothing but them.
   */
  ghost predicate Answers(sql: Coercion, scan: Scan, ms: seq<Morsel>)
    requires ScanValid(scan)
  {
    && (forall m :: m in ms ==> MorselValid(scan, m) && Frugal(scan, m))
    && var p, limit := scan.request.predicate_, scan.request.limit;
       var read, rows := ReadAll(sql, scan, ms), TableRows(scan, |scan.files|);
       && Take(limit, Keep(sql, p, read)) == Take(limit, Keep(sql, p, rows))
       && (scan.request.exact ==> Take(limit, read) == Take(limit, Keep(sql, p, rows)))
       && (p.None? ==> read == Take(limit, rows))
  }

  lemma ProgressAnswers(sql: Coercion, scan: Scan, ms: seq<Morsel>, remaining: nat)
    requires ScanValid(scan) && Progress(sql, scan, ms, TableRows(scan, |scan.files|), remaining)
    ensures Answers(sql, scan, ms)
  {
    RowStreams.KeepAll(sql, ReadAll(sql, scan, ms));
    RowStreams.KeepAll(sql, TableRows(scan, |scan.files|));
  }

  lemma NothingWanted(sql: Coercion, scan: Scan)
    requires ScanValid(scan) && scan.request.limit == Some(0)
    ensures Answers(sql, scan, [])
  {
  }

  function Wanted(limit: Option<nat>): nat {
    if limit.Some? then limit.value else USIZE_MAX
  }

  lemma ProgressStarts(sql: Coercion, scan: Scan)
    requires ScanValid(scan) && scan.request.limit != Some(0)
    ensures Progress(sql, scan, [], TableRows(scan, 0), Wanted(scan.request.limit))
  {
  }

  /** Plans the whole scan: for all files, predicates and valid metadata, the plan answers the request. */
  method PlanMorsels(scan: Scan, ghost sql: Coercion) returns (r: Result<seq<Morsel>, PlanError>)
    requires ScanValid(scan)
    ensures r.Ok? ==> Answers(sql, scan, r.value)
    ensures r.Err? ==> Justified(scan, r.error)
  {
    hide *;
    if scan.request.limit == Some(0) {
      NothingWanted(sql, scan);
      return Ok([]);
    }
    var ms: seq<Morsel> := [];
    var remaining := Wanted(scan.request.limit);
    ProgressStarts(sql, scan);
    var f := 0;
    while f < |scan.files| && remaining > 0
      invariant f <= |scan.files|
      invariant Progress(sql, scan, ms, TableRows(scan, f), remaining)
    {
      var planned, left := PlanUnlessPruned(scan, f, remaining, sql, ms);
      if planned.Err? { return Err(planned.error); }
      ms, remaining := planned.value, left;
      f := f + 1;
    }
    if f < |scan.files| { FinishTable(sql, scan, ms, f); }
    ProgressAnswers(sql, scan, ms, remaining);
    return Ok(ms);
  }
}
