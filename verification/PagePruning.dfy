/** Row ranges from the page index: which rows of a row group a predicate can leave out. */
module PagePruning {
  import opened Common
  import opened Predicates
  import opened PageValues
  import opened ParquetFiles
  import opened Ranges

  datatype PageError = PageCountMismatch | EmptyIndex | BadLocation

  /** One row group of a file, seen through a table schema. */
  datatype GroupView = GroupView(file: ParquetFile, table: Schema, fixed: map<nat, Cell>, group: RowGroup) {
    function Rows(): nat { |group.rows| }
  }

  ghost predicate ViewValid(v: GroupView) {
    GroupValid(v.file, v.group) && FixedValid(v.fixed) && FixedAbsent(v.file, v.table, v.fixed)
  }

  /** The only leaf behind a table column lies inside a struct, list or map. */
  predicate ReadsNested(file: ParquetFile, table: Schema, column: nat) {
    var at := ColumnLeaf(file, table, column);
    at.Some? && file.schema[at.value.0].dataType.Nested?
  }

  /**
   No leaf of the predicate asks of such a column that it be present: the metadata of its leaf speak of
   the values inside, and those can be null where the column is not.
   */
  predicate Trusted(file: ParquetFile, table: Schema, p: ScanPredicate) {
    match p
    case And(all) => forall q :: q in all ==> Trusted(file, table, q)
    case Or(any) => forall q :: q in any ==> Trusted(file, table, q)
    case IsNull(_) => true
    case IsNotNull(column) => !ReadsNested(file, table, column)
    case Comparison(column, _, _) => !ReadsNested(file, table, column)
  }

  ghost function RowAt(v: GroupView, row: int): Row
    requires ViewValid(v) && 0 <= row < v.Rows()
  {
    TableRow(v.file, v.table, v.fixed, v.group.rows[row])
  }

  // ---------------------------------------------------------------- page locations

  method ValidateLocations(locations: seq<PageLocation>, rows: nat) returns (valid: bool)
    ensures valid <==> ValidLocations(locations, rows)
  {
    var previous: Option<int> := None;
    for p := 0 to |locations|
      invariant previous == if p == 0 then None else Some(locations[p - 1].firstRow)
      invariant forall q :: 0 <= q < p ==>
        locations[q].offset >= 0 && locations[q].compressedSize > 0 && 0 <= locations[q].firstRow < rows
      invariant forall q :: 0 < q < p ==> locations[q - 1].firstRow < locations[q].firstRow
    {
      var location := locations[p];
      if location.offset < 0 || location.compressedSize <= 0 { return false; }
      if location.firstRow < 0 { return false; }
      if location.firstRow >= rows || (previous.Some? && location.firstRow <= previous.value) { return false; }
      previous := Some(location.firstRow);
    }
    if locations != [] && locations[0].firstRow != 0 { return false; }
    return true;
  }

  predicate InPage(locations: seq<PageLocation>, rows: nat, page: nat, row: int)
    requires page < |locations|
  {
    PageStart(locations, page) <= row < PageEnd(locations, rows, page)
  }

  predicate InSomePage(locations: seq<PageLocation>, rows: nat, row: int) {
    exists page :: 0 <= page < |locations| && InPage(locations, rows, page, row)
  }

  lemma {:induction false} StartsIncrease(locations: seq<PageLocation>, rows: nat, p: nat, q: nat)
    requires ValidLocations(locations, rows) && p < q < |locations|
    ensures locations[p].firstRow < locations[q].firstRow
    decreases q
  {
    if p + 1 < q { StartsIncrease(locations, rows, p, q - 1); }
  }

  /** Valid locations cut the row group into non-empty pages: every row lies in exactly one. */
  lemma PagesPartition(locations: seq<PageLocation>, rows: nat)
    requires ValidLocations(locations, rows) && locations != []
    ensures forall page :: 0 <= page < |locations| ==>
              0 <= PageStart(locations, page) < PageEnd(locations, rows, page) <= rows
    ensures forall row :: 0 <= row < rows ==> InSomePage(locations, rows, row)
    ensures forall p, q, row :: 0 <= p < q < |locations| ==>
              !(InPage(locations, rows, p, row) && InPage(locations, rows, q, row))
  {
    forall row | 0 <= row < rows ensures InSomePage(locations, rows, row) {
      var page := FindPage(locations, rows, row, |locations| - 1);
    }
    forall p, q, row | 0 <= p < q < |locations|
      ensures !(InPage(locations, rows, p, row) && InPage(locations, rows, q, row))
    {
      if p + 1 < q { StartsIncrease(locations, rows, p + 1, q); }
    }
  }

  lemma {:induction false} FindPage(locations: seq<PageLocation>, rows: nat, row: int, from: nat) returns (page: nat)
    requires ValidLocations(locations, rows) && from < |locations|
    requires 0 <= row < PageEnd(locations, rows, from)
    ensures page < |locations| && InPage(locations, rows, page, row)
    decreases from
  {
    if locations[from].firstRow <= row {
      page := from;
    } else {
      page := FindPage(locations, rows, row, from - 1);
    }
  }

  // ---------------------------------------------------------------- one page

  /** Whether nothing in the page can make the predicate TRUE. */
  predicate PageExcluded(index: ColumnIndex, t: DataType, p: ScanPredicate, page: nat, pageRows: int)
    requires page < NumPages(index)
  {
    match p
    case IsNull(_) => NullCount(index, page) == Some(0)
    case IsNotNull(_) => IsNullPage(index, page) || NullCount(index, page) == Some(pageRows)
    case Comparison(_, op, value) => IsNullPage(index, page) || ComparisonExcludes(index, t, op, value, page)
    case _ => false
  }

  lemma NullCountZero(g: RowGroup, column: nat, low: int, high: int, row: int)
    requires low <= row < high && |NullRows(g, column, low, high)| == 0
    ensures FileCell(g, row, column).Some?
  {
    assert row !in NullRows(g, column, low, high);
  }

  lemma NullCountFull(g: RowGroup, column: nat, low: nat, high: nat, row: int)
    requires low <= row < high && |NullRows(g, column, low, high)| == high - low
    ensures FileCell(g, row, column).None?
  {
    var all := RowsIn(Range(low, high));
    IntervalSize(Range(low, high));
    var nulls := NullRows(g, column, low, high);
    assert nulls <= all by {
      forall r | r in nulls ensures r in all { assert Covers(Range(low, high), r); }
    }
    assert Covers(Range(low, high), row);
    if row !in nulls {
      SubsetSize(nulls, all - {row});
      assert false;
    }
  }

  /** The column a leaf predicate reads. */
  predicate IsAtom(p: ScanPredicate) { p.Comparison? || p.IsNull? || p.IsNotNull? }

  /** A page is excluded only if the predicate is TRUE on none of its rows. */
  lemma PageExcludedSound(sql: Coercion, t: DataType, g: RowGroup, column: nat, index: ColumnIndex, page: nat,
                          low: nat, high: nat, p: ScanPredicate, row: int, table: Row)
    requires page < NumPages(index) && IsAtom(p) && low <= row < high
    requires PageContract(t, g, column, index, page, low, high)
    requires CellAt(table, p.column) == Cell(t, FileCell(g, row, column)) && CellWellTyped(CellAt(table, p.column))
    requires p.IsNull? || !t.Nested?
    requires PageExcluded(index, t, p, page, high - low)
    ensures Eval(sql, table, p) != True
  {
    match p {
      case IsNull(_) => NullCountZero(g, column, low, high, row);
      case IsNotNull(_) =>
        if !IsNullPage(index, page) { NullCountFull(g, column, low, high, row); }
      case Comparison(_, op, value) =>
        if !IsNullPage(index, page) {
          ComparisonExcludesSound(sql, index, CellAt(table, p.column), op, value, page);
        }
    }
  }

  /**
   What the index of a page leaves possible, in its own terms: a null unless none is counted, a value
   unless the page is marked null or counts only nulls, a match if some value the column could hold lies
   within the bounds and satisfies the comparison.
   */
  ghost predicate MayMatch(index: ColumnIndex, t: DataType, p: ScanPredicate, page: nat, pageRows: int)
    requires page < NumPages(index)
  {
    match p
    case IsNull(_) => NullCount(index, page) != Some(0)
    case IsNotNull(_) => !IsNullPage(index, page) && NullCount(index, page) != Some(pageRows)
    case Comparison(_, op, value) =>
      !IsNullPage(index, page) && exists d :: IsExample(index, t, op, value, page, d)
    case _ => true
  }

  /** The page is marked null, or its bounds and the literal can be compared. */
  ghost predicate PageDecidable(index: ColumnIndex, t: DataType, p: ScanPredicate, page: nat)
    requires page < NumPages(index)
  {
    p.Comparison? && !IsNullPage(index, page) ==> Decidable(index, t, p.op, p.value, page)
  }

  /** A decidable page is excluded if and only if its index leaves no match possible. */
  lemma PageExcludedExact(index: ColumnIndex, t: DataType, p: ScanPredicate, page: nat, pageRows: int)
    requires page < NumPages(index) && PageDecidable(index, t, p, page)
    ensures PageExcluded(index, t, p, page, pageRows) <==> !MayMatch(index, t, p, page, pageRows)
  {
    hide ComparisonExcludes, Decidable, WellTyped, WithinBounds;
    if p.Comparison? && !IsNullPage(index, page) {
      if ComparisonExcludes(index, t, p.op, p.value, page) {
        forall d ensures !IsExample(index, t, p.op, p.value, page, d) {
          if IsExample(index, t, p.op, p.value, page, d) {
            ComparisonExcludesSound((_, _, _, _) => Unknown, index, Cell(t, Some(d)), p.op, p.value, page);
          }
        }
      } else {
        var d := PageExample(index, t, p.op, p.value, page);
      }
    }
  }

  // ---------------------------------------------------------------- specification

  /** Whether a predicate can use the page index, must ignore it, or finds it corrupt. */
  datatype Usage = Unused | Used | Broken(error: PageError)

  function AtomUsage(v: GroupView, p: ScanPredicate): (u: Usage)
    ensures u.Used? ==>
              && IsAtom(p) && ColumnLeaf(v.file, v.table, p.column).Some?
              && var leaf := ColumnLeaf(v.file, v.table, p.column).value.1;
                 && leaf in v.group.columnIndex && leaf in v.group.offsetIndex
                 && |v.group.offsetIndex[leaf]| == NumPages(v.group.columnIndex[leaf])
                 && ValidLocations(v.group.offsetIndex[leaf], v.Rows())
                 && (v.group.offsetIndex[leaf] == [] ==> v.Rows() == 0)
  {
    if !IsAtom(p) then Unused
    else
      match ColumnLeaf(v.file, v.table, p.column)
      case None => Unused
      case Some((_, leaf)) =>
        if leaf !in v.group.columnIndex || v.group.columnIndex[leaf].NoIndex? then Unused
        else if leaf !in v.group.offsetIndex then Unused
        else
          var locations := v.group.offsetIndex[leaf];
          if |locations| != NumPages(v.group.columnIndex[leaf]) then Broken(PageCountMismatch)
          else if locations == [] && v.Rows() != 0 then Broken(EmptyIndex)
          else if !ValidLocations(locations, v.Rows()) then Broken(BadLocation)
          else Used
  }

  predicate PageKept(index: ColumnIndex, locations: seq<PageLocation>, t: DataType, p: ScanPredicate, rows: nat, page: nat)
    requires |locations| == NumPages(index)
  {
    page < |locations|
    && !PageExcluded(index, t, p, page, PageEnd(locations, rows, page) - PageStart(locations, page))
  }

  /** The row lies in one of the first `n` pages, and that page is kept. */
  predicate Survives(locations: seq<PageLocation>, rows: nat, kept: nat -> bool, n: nat, row: int)
    requires n <= |locations|
  {
    exists page: nat :: page < n && kept(page) && InPage(locations, rows, page, row)
  }

  /** A row survives an atom when its page is not excluded. */
  ghost predicate AtomKeeps(v: GroupView, p: ScanPredicate, row: int)
    requires AtomUsage(v, p).Used?
  {
    var (column, leaf) := ColumnLeaf(v.file, v.table, p.column).value;
    var index, locations := v.group.columnIndex[leaf], v.group.offsetIndex[leaf];
    var kept := (page: nat) => PageKept(index, locations, v.file.schema[column].dataType, p, v.Rows(), page);
    Survives(locations, v.Rows(), kept, |locations|, row)
  }

  /** A disjunction is usable when every branch is; otherwise its first unusable branch decides. */
  function PredicateUsage(v: GroupView, p: ScanPredicate): Usage
    decreases p, 1
  {
    if p.Or? then BranchesUsage(v, p.any) else AtomUsage(v, p)
  }

  function BranchesUsage(v: GroupView, ps: seq<ScanPredicate>): (u: Usage)
    ensures u.Used? ==> forall q :: q in ps ==> PredicateUsage(v, q).Used?
    decreases ps, 0
  {
    if ps == [] then Used
    else
      match PredicateUsage(v, ps[0])
      case Used => BranchesUsage(v, ps[1..])
      case other => other
  }

  ghost predicate Keeps(v: GroupView, p: ScanPredicate, row: int)
    requires PredicateUsage(v, p).Used?
    decreases p
  {
    if p.Or? then exists q :: q in p.any && Keeps(v, q, row) else AtomKeeps(v, p, row)
  }

  /** A row on which the predicate is TRUE survives, whatever the predicate tree. */
  lemma {:induction false} KeepsSound(sql: Coercion, v: GroupView, p: ScanPredicate, row: int)
    requires ViewValid(v) && 0 <= row < v.Rows() && PredicateUsage(v, p).Used? && Trusted(v.file, v.table, p)
    requires Eval(sql, RowAt(v, row), p) == True
    ensures Keeps(v, p, row)
    decreases p
  {
    if p.Or? {
      var q :| q in p.any && Eval(sql, RowAt(v, row), q) == True;
      KeepsSound(sql, v, q, row);
    } else {
      AtomKeepsSound(sql, v, p, row);
    }
  }

  /** The pages of an atom's column, with the column's type. */
  ghost function AtomPages(v: GroupView, p: ScanPredicate): (ColumnIndex, seq<PageLocation>, DataType)
    requires AtomUsage(v, p).Used?
  {
    var (column, leaf) := ColumnLeaf(v.file, v.table, p.column).value;
    (v.group.columnIndex[leaf], v.group.offsetIndex[leaf], v.file.schema[column].dataType)
  }

  /** The page of the row leaves a match of the atom possible; for a disjunction, of some branch. */
  ghost predicate RowMayMatch(v: GroupView, p: ScanPredicate, row: int)
    requires PredicateUsage(v, p).Used?
    decreases p
  {
    if p.Or? then exists q :: q in p.any && RowMayMatch(v, q, row)
    else
      var (index, locations, t) := AtomPages(v, p);
      exists page: nat :: page < |locations| && InPage(locations, v.Rows(), page, row)
        && MayMatch(index, t, p, page, PageEnd(locations, v.Rows(), page) - PageStart(locations, page))
  }

  ghost predicate AllDecidable(v: GroupView, p: ScanPredicate)
    requires PredicateUsage(v, p).Used?
    decreases p
  {
    if p.Or? then forall q :: q in p.any ==> AllDecidable(v, q)
    else
      var (index, locations, t) := AtomPages(v, p);
      forall page: nat :: page < |locations| ==> PageDecidable(index, t, p, page)
  }

  /** A row survives a usable predicate if and only if its pages leave a match possible. */
  lemma {:induction false} KeepsExact(v: GroupView, p: ScanPredicate, row: int)
    requires PredicateUsage(v, p).Used? && AllDecidable(v, p)
    ensures Keeps(v, p, row) <==> RowMayMatch(v, p, row)
    decreases p
  {
    if p.Or? {
      forall q | q in p.any ensures Keeps(v, q, row) <==> RowMayMatch(v, q, row) { KeepsExact(v, q, row); }
    } else {
      AtomKeepsExact(v, p, row);
    }
  }

  lemma AtomKeepsExact(v: GroupView, p: ScanPredicate, row: int)
    requires AtomUsage(v, p).Used? && !p.Or? && AllDecidable(v, p)
    ensures AtomKeeps(v, p, row) <==> RowMayMatch(v, p, row)
  {
    hide PageExcluded, MayMatch, PageDecidable;
    var (index, locations, t) := AtomPages(v, p);
    forall page: nat | page < |locations|
      ensures PageKept(index, locations, t, p, v.Rows(), page)
              <==> MayMatch(index, t, p, page, PageEnd(locations, v.Rows(), page) - PageStart(locations, page))
    {
      PageExcludedExact(index, t, p, page, PageEnd(locations, v.Rows(), page) - PageStart(locations, page));
    }
  }

  /** The column has one leaf, and that leaf has both parts of a page index. */
  predicate HasPageIndex(v: GroupView, p: ScanPredicate) {
    && IsAtom(p) && ColumnLeaf(v.file, v.table, p.column).Some?
    && var leaf := ColumnLeaf(v.file, v.table, p.column).value.1;
       leaf in v.group.columnIndex && !v.group.columnIndex[leaf].NoIndex? && leaf in v.group.offsetIndex
  }

  /** The two parts tell of the same pages, and these cut up the whole row group. */
  predicate IndexConsistent(index: ColumnIndex, locations: seq<PageLocation>, rows: nat) {
    |locations| == NumPages(index) && (locations == [] ==> rows == 0) && ValidLocations(locations, rows)
  }

  /** An atom is unused without a page index, and an error exactly when it has one that is inconsistent. */
  lemma AtomUsageExact(v: GroupView, p: ScanPredicate)
    ensures AtomUsage(v, p).Unused? <==> !HasPageIndex(v, p)
    ensures HasPageIndex(v, p) ==>
              var leaf := ColumnLeaf(v.file, v.table, p.column).value.1;
              var index, locations := v.group.columnIndex[leaf], v.group.offsetIndex[leaf];
              && (AtomUsage(v, p).Used? <==> IndexConsistent(index, locations, v.Rows()))
              && (AtomUsage(v, p) == Broken(PageCountMismatch) <==> |locations| != NumPages(index))
              && (AtomUsage(v, p) == Broken(EmptyIndex) <==>
                    |locations| == NumPages(index) && locations == [] && v.Rows() > 0)
  {
  }

  /** A disjunction is usable if and only if all branches are; else the first that is not decides. */
  lemma {:induction false} BranchesUsageExact(v: GroupView, ps: seq<ScanPredicate>)
    ensures BranchesUsage(v, ps).Used? <==> forall q :: q in ps ==> PredicateUsage(v, q).Used?
    ensures !BranchesUsage(v, ps).Used? ==>
              exists k :: 0 <= k < |ps| && PredicateUsage(v, ps[k]) == BranchesUsage(v, ps)
                          && forall j :: 0 <= j < k ==> PredicateUsage(v, ps[j]).Used?
    decreases |ps|
  {
    hide PredicateUsage;
    if ps != [] { assert ps[0] in ps && ps == [ps[0]] + ps[1..]; }
    if ps != [] && PredicateUsage(v, ps[0]).Used? {
      BranchesUsageExact(v, ps[1..]);
      if !BranchesUsage(v, ps[1..]).Used? {
        var k :| 0 <= k < |ps| - 1 && PredicateUsage(v, ps[1..][k]) == BranchesUsage(v, ps[1..])
                 && forall j :: 0 <= j < k ==> PredicateUsage(v, ps[1..][j]).Used?;
        assert ps[k + 1] == ps[1..][k];
        assert forall j :: 0 < j < k + 1 ==> ps[j] == ps[1..][j - 1];
      }
    }
  }

  lemma AtomKeepsSound(sql: Coercion, v: GroupView, p: ScanPredicate, row: int)
    requires ViewValid(v) && 0 <= row < v.Rows() && AtomUsage(v, p).Used? && Trusted(v.file, v.table, p)
    requires Eval(sql, RowAt(v, row), p) == True
    ensures AtomKeeps(v, p, row)
  {
    var (column, leaf) := ColumnLeaf(v.file, v.table, p.column).value;
    var index, locations := v.group.columnIndex[leaf], v.group.offsetIndex[leaf];
    var t := v.file.schema[column].dataType;
    PagesPartition(locations, v.Rows());
    var page := FindPage(locations, v.Rows(), row, |locations| - 1);
    var low, high := PageStart(locations, page), PageEnd(locations, v.Rows(), page);
    TableRowWellTyped(v.file, v.table, v.fixed, v.group.rows[row]);
    assert LeafValid(v.file, v.group, leaf, column);
    assert PageContract(t, v.group, column, index, page, low, high);
    if PageExcluded(index, t, p, page, high - low) {
      PageExcludedSound(sql, t, v.group, column, index, page, low, high, p, row, RowAt(v, row));
      assert false;
    }
  }

  // ---------------------------------------------------------------- the ranges

  datatype AtomRanges = AtomRanges(ranges: seq<Range>, pagesPruned: nat)

  ghost predicate Describes(v: GroupView, p: ScanPredicate, ranges: seq<Range>)
    requires PredicateUsage(v, p).Used?
  {
    && Normal(ranges) && Below(ranges, v.Rows())
    && forall row :: In(ranges, row) <==> Keeps(v, p, row)
  }

  method AtomRangesOf(v: GroupView, p: ScanPredicate) returns (r: Result<Option<AtomRanges>, PageError>)
    requires !p.Or?
    ensures match AtomUsage(v, p)
            case Unused => r == Ok(None)
            case Broken(error) => r == Err(error)
            case Used => r.Ok? && r.value.Some? && Describes(v, p, r.value.value.ranges)
  {
    if p.And? { return Ok(None); }
    var found := ColumnLeaf(v.file, v.table, p.column);
    if found.None? { return Ok(None); }
    var (column, leaf) := found.value;
    if leaf !in v.group.columnIndex { return Ok(None); }
    var index := v.group.columnIndex[leaf];
    if index.NoIndex? { return Ok(None); }
    if leaf !in v.group.offsetIndex { return Ok(None); }
    var locations := v.group.offsetIndex[leaf];
    if |locations| != NumPages(index) { return Err(PageCountMismatch); }
    if NumPages(index) == 0 && v.Rows() != 0 { return Err(EmptyIndex); }
    var valid := ValidateLocations(locations, v.Rows());
    if !valid { return Err(BadLocation); }
    var survivors := SurvivingPages(index, locations, v.file.schema[column].dataType, p, v.Rows());
    return Ok(Some(survivors));
  }

  /** The ranges hold exactly the rows of the kept pages among the first `n`. */
  ghost predicate Collected(ranges: seq<Range>, locations: seq<PageLocation>, rows: nat, kept: nat -> bool, n: nat)
    requires n <= |locations|
  {
    && Normal(ranges) && Below(ranges, if n < |locations| then PageStart(locations, n) else rows)
    && forall row :: In(ranges, row) <==> Survives(locations, rows, kept, n, row)
  }

  /** Collects the pages that are not excluded. */
  method SurvivingPages(index: ColumnIndex, locations: seq<PageLocation>, t: DataType, p: ScanPredicate, rows: nat)
    returns (r: AtomRanges)
    requires |locations| == NumPages(index) && ValidLocations(locations, rows)
    ensures Collected(r.ranges, locations, rows, (page: nat) => PageKept(index, locations, t, p, rows, page), |locations|)
    ensures r.pagesPruned <= |locations|
  {
    hide PageKept, PageExcluded;
    ghost var kept := (page: nat) => PageKept(index, locations, t, p, rows, page);
    var ranges, pruned := [], 0;
    for page := 0 to |locations|
      invariant pruned <= page
      invariant Collected(ranges, locations, rows, kept, page)
    {
      hide Collected;
      if PageKept(index, locations, t, p, rows, page) {
        ranges := KeepPage(ranges, locations, rows, kept, page);
      } else {
        SkipPage(ranges, locations, rows, kept, page);
        pruned := pruned + 1;
      }
    }
    r := AtomRanges(ranges, pruned);
  }

  method KeepPage(ranges: seq<Range>, locations: seq<PageLocation>, rows: nat, ghost kept: nat -> bool, page: nat)
    returns (output: seq<Range>)
    requires ValidLocations(locations, rows) && page < |locations|
    requires Collected(ranges, locations, rows, kept, page) && kept(page)
    ensures Collected(output, locations, rows, kept, page + 1)
  {
    PagesPartition(locations, rows);
    hide In, Survives;
    output := PushRange(ranges, Range(PageStart(locations, page), PageEnd(locations, rows, page)));
    forall row ensures In(output, row) <==> Survives(locations, rows, kept, page + 1, row) {
      SurvivesNext(locations, rows, kept, page, row);
    }
  }

  lemma SkipPage(ranges: seq<Range>, locations: seq<PageLocation>, rows: nat, kept: nat -> bool, page: nat)
    requires ValidLocations(locations, rows) && page < |locations|
    requires Collected(ranges, locations, rows, kept, page) && !kept(page)
    ensures Collected(ranges, locations, rows, kept, page + 1)
  {
    PagesPartition(locations, rows);
    hide In, Survives;
    forall row ensures In(ranges, row) <==> Survives(locations, rows, kept, page + 1, row) {
      SurvivesNext(locations, rows, kept, page, row);
    }
  }

  lemma SurvivesNext(locations: seq<PageLocation>, rows: nat, kept: nat -> bool, n: nat, row: int)
    requires n < |locations|
    ensures Survives(locations, rows, kept, n + 1, row)
            <==> Survives(locations, rows, kept, n, row) || (kept(n) && InPage(locations, rows, n, row))
  {
  }

  ghost predicate KeepsAny(v: GroupView, ps: seq<ScanPredicate>, row: int)
    requires forall q :: q in ps ==> PredicateUsage(v, q).Used?
  {
    exists q :: q in ps && Keeps(v, q, row)
  }

  lemma KeepsAnyAppend(v: GroupView, ps: seq<ScanPredicate>, p: ScanPredicate, row: int)
    requires forall q :: q in ps ==> PredicateUsage(v, q).Used?
    requires PredicateUsage(v, p).Used?
    ensures forall q :: q in ps + [p] ==> PredicateUsage(v, q).Used?
    ensures KeepsAny(v, ps + [p], row) <==> KeepsAny(v, ps, row) || Keeps(v, p, row)
  {
    hide Keeps, PredicateUsage;
    if KeepsAny(v, ps, row) {
      var q :| q in ps && Keeps(v, q, row);
      assert q in ps + [p];
    }
    assert p in ps + [p];
  }

  method PredicateRanges(v: GroupView, p: ScanPredicate) returns (r: Result<Option<AtomRanges>, PageError>)
    ensures match PredicateUsage(v, p)
            case Unused => r == Ok(None)
            case Broken(error) => r == Err(error)
            case Used => r.Ok? && r.value.Some? && Describes(v, p, r.value.value.ranges)
    decreases p
  {
    if !p.Or? {
      r := AtomRangesOf(v, p);
      return;
    }
    if p.any == [] { return Ok(Some(AtomRanges([], 0))); }
    var ranges: seq<Range> := [];
    for n := 0 to |p.any|
      invariant BranchesUsage(v, p.any) == BranchesUsage(v, p.any[n..])
      invariant forall q :: q in p.any[..n] ==> PredicateUsage(v, q).Used?
      invariant Normal(ranges) && Below(ranges, v.Rows())
      invariant forall row :: In(ranges, row) <==> KeepsAny(v, p.any[..n], row)
    {
      assert p.any[n..][0] == p.any[n] && p.any[n..][1..] == p.any[n + 1..];
      var branch := PredicateRanges(v, p.any[n]);
      if branch.Err? { return branch; }
      if branch.value.None? { return Ok(None); }
      hide Normal, In, KeepsAny;
      ghost var before := ranges;
      ranges := UnionBelow(ranges, branch.value.value.ranges, v.Rows());
      assert p.any[..n + 1] == p.any[..n] + [p.any[n]];
      forall row ensures In(ranges, row) <==> KeepsAny(v, p.any[..n + 1], row) {
        KeepsAnyAppend(v, p.any[..n], p.any[n], row);
      }
    }
    assert p.any[..|p.any|] == p.any;
    return Ok(Some(AtomRanges(ranges, 0)));
  }

  method UnionBelow(left: seq<Range>, right: seq<Range>, rows: nat) returns (output: seq<Range>)
    requires Normal(left) && Normal(right) && Below(left, rows) && Below(right, rows)
    ensures Normal(output) && Below(output, rows)
    ensures forall row :: In(output, row) <==> In(left, row) || In(right, row)
  {
    output := UnionRanges(left, right);
    forall k | 0 <= k < |output| ensures output[k].end <= rows {
      assert Covers(output[k], output[k].end - 1);
      assert In(output, output[k].end - 1);
    }
  }

  // ---------------------------------------------------------------- the whole predicate

  /** The conjuncts of nested conjunctions, left to right. */
  function Conjuncts(p: ScanPredicate): seq<ScanPredicate>
    decreases p, 1
  {
    if p.And? then ConjunctsOf(p.all) else [p]
  }

  function ConjunctsOf(ps: seq<ScanPredicate>): seq<ScanPredicate>
    decreases ps, 0
  {
    if ps == [] then [] else Conjuncts(ps[0]) + ConjunctsOf(ps[1..])
  }

  lemma {:induction false} ConjunctsOfAppend(ps: seq<ScanPredicate>, p: ScanPredicate)
    ensures ConjunctsOf(ps + [p]) == ConjunctsOf(ps) + Conjuncts(p)
    decreases |ps|
  {
    if ps == [] {
      assert ps + [p] == [p];
      assert [p][1..] == [];
      assert ConjunctsOf([]) == [];
    } else {
      assert (ps + [p])[1..] == ps[1..] + [p];
      ConjunctsOfAppend(ps[1..], p);
    }
  }

  method CollectConjuncts(p: ScanPredicate, collected: seq<ScanPredicate>) returns (output: seq<ScanPredicate>)
    ensures output == collected + Conjuncts(p)
    decreases p
  {
    output := collected;
    if p.And? {
      for n := 0 to |p.all|
        invariant output == collected + ConjunctsOf(p.all[..n])
      {
        output := CollectConjuncts(p.all[n], output);
        ConjunctsOfAppend(p.all[..n], p.all[n]);
        assert p.all[..n + 1] == p.all[..n] + [p.all[n]];
      }
      assert p.all[..|p.all|] == p.all;
    } else {
      output := output + [p];
    }
  }

  /** A predicate is TRUE exactly when all its conjuncts are. */
  lemma {:induction false} ConjunctsTrue(sql: Coercion, row: Row, p: ScanPredicate)
    ensures Eval(sql, row, p) == True <==> forall c :: c in Conjuncts(p) ==> Eval(sql, row, c) == True
    decreases p, 1
  {
    if p.And? {
      ConjunctsOfTrue(sql, row, p.all);
    }
  }

  lemma {:induction false} ConjunctsTrusted(file: ParquetFile, table: Schema, p: ScanPredicate)
    requires Trusted(file, table, p)
    ensures forall c :: c in Conjuncts(p) ==> Trusted(file, table, c)
    decreases p, 1
  {
    if p.And? { ConjunctsOfTrusted(file, table, p.all); }
  }

  lemma {:induction false} ConjunctsOfTrusted(file: ParquetFile, table: Schema, ps: seq<ScanPredicate>)
    requires forall q :: q in ps ==> Trusted(file, table, q)
    ensures forall c :: c in ConjunctsOf(ps) ==> Trusted(file, table, c)
    decreases ps, 0
  {
    hide Trusted;
    if ps != [] {
      ConjunctsTrusted(file, table, ps[0]);
      ConjunctsOfTrusted(file, table, ps[1..]);
    }
  }

  lemma {:induction false} ConjunctsOfTrue(sql: Coercion, row: Row, ps: seq<ScanPredicate>)
    ensures (forall q :: q in ps ==> Eval(sql, row, q) == True)
            <==> forall c :: c in ConjunctsOf(ps) ==> Eval(sql, row, c) == True
    decreases ps, 0
  {
    hide Eval;
    if ps != [] {
      ConjunctsTrue(sql, row, ps[0]);
      ConjunctsOfTrue(sql, row, ps[1..]);
      assert forall q :: q in ps <==> q == ps[0] || q in ps[1..];
    }
  }

  datatype Pruning = Pruning(ranges: seq<Range>, selectedRows: nat, pagesPruned: nat, rowsPruned: nat)

  /** The row survives every conjunct that can use the page index. */
  ghost predicate KeepsAll(v: GroupView, cs: seq<ScanPredicate>, row: int) {
    forall c :: c in cs && PredicateUsage(v, c).Used? ==> Keeps(v, c, row)
  }

  ghost predicate SomeUsed(v: GroupView, cs: seq<ScanPredicate>) {
    exists c :: c in cs && PredicateUsage(v, c).Used?
  }

  ghost predicate NoneBroken(v: GroupView, cs: seq<ScanPredicate>) {
    forall c :: c in cs ==> !PredicateUsage(v, c).Broken?
  }

  ghost predicate Selects(v: GroupView, cs: seq<ScanPredicate>, ranges: seq<Range>) {
    && Ordered(ranges) && Below(ranges, v.Rows())
    && forall row :: In(ranges, row) <==> 0 <= row < v.Rows() && KeepsAll(v, cs, row)
  }

  /**
   Intersects the ranges of all usable conjuncts.  The selection is exactly the rows that survive
   each of them, in normal form, and selected and pruned rows add up to the row group.
   */
  ghost predicate UsedDecidable(v: GroupView, cs: seq<ScanPredicate>) {
    forall c :: c in cs && PredicateUsage(v, c).Used? ==> AllDecidable(v, c)
  }

  /** The ranges hold exactly the rows whose pages leave a match of every usable conjunct possible. */
  ghost predicate SelectsPossible(v: GroupView, cs: seq<ScanPredicate>, ranges: seq<Range>) {
    forall row :: In(ranges, row) <==>
      && 0 <= row < v.Rows()
      && forall c :: c in cs && PredicateUsage(v, c).Used? ==> RowMayMatch(v, c, row)
  }

  lemma SelectionIsPossible(v: GroupView, cs: seq<ScanPredicate>, ranges: seq<Range>)
    requires Selects(v, cs, ranges) && UsedDecidable(v, cs)
    ensures SelectsPossible(v, cs, ranges)
  {
    hide Keeps, RowMayMatch, PredicateUsage, AllDecidable;
    forall row ensures KeepsAll(v, cs, row) <==>
                       forall c :: c in cs && PredicateUsage(v, c).Used? ==> RowMayMatch(v, c, row)
    {
      forall c | c in cs && PredicateUsage(v, c).Used? ensures Keeps(v, c, row) <==> RowMayMatch(v, c, row) {
        KeepsExact(v, c, row);
      }
    }
  }

  method PrunePages(v: GroupView, predicate_: Option<ScanPredicate>) returns (r: Result<Option<Pruning>, PageError>)
    ensures predicate_.None? ==> r == Ok(None)
    ensures predicate_.Some? ==>
              var cs := Conjuncts(predicate_.value);
              && (r.Err? ==> exists c :: c in cs && PredicateUsage(v, c) == Broken(r.error))
              && (r == Ok(None) <==> !SomeUsed(v, cs) && NoneBroken(v, cs))
              && (NoneBroken(v, cs) ==> r.Ok?)
              && (r.Ok? && r.value.Some? ==>
                    var pruning := r.value.value;
                    && Normal(pruning.ranges) && Selects(v, cs, pruning.ranges)
                    && (UsedDecidable(v, cs) ==> SelectsPossible(v, cs, pruning.ranges))
                    && pruning.selectedRows == |RowsOf(pruning.ranges, v.Rows())|
                    && pruning.selectedRows + pruning.rowsPruned == v.Rows())
  {
    if predicate_.None? { return Ok(None); }
    var cs := CollectConjuncts(predicate_.value, []);
    assert cs == Conjuncts(predicate_.value);
    hide Selects, SomeUsed, NoneBroken, PredicateUsage, UsedDecidable, SelectsPossible;
    var narrowed := SelectRanges(v, cs);
    if narrowed.Err? { return Err(narrowed.error); }
    if narrowed.value.None? { return Ok(None); }
    var AtomRanges(ranges, pagesPruned) := narrowed.value.value;
    SelectionBelow(v, cs, ranges);
    TotalIsCount(ranges, v.Rows());
    if UsedDecidable(v, cs) { SelectionIsPossible(v, cs, ranges); }
    var selectedRows := TotalRows(ranges);
    return Ok(Some(Pruning(ranges, selectedRows, pagesPruned, v.Rows() - selectedRows)));
  }

  /** The loop over conjuncts; it stops as soon as nothing is left to select. */
  method SelectRanges(v: GroupView, cs: seq<ScanPredicate>) returns (r: Result<Option<AtomRanges>, PageError>)
    ensures r.Err? ==> !NoneBroken(v, cs) && exists c :: c in cs && PredicateUsage(v, c) == Broken(r.error)
    ensures r == Ok(None) <==> !SomeUsed(v, cs) && NoneBroken(v, cs)
    ensures r.Ok? && r.value.Some? ==> Normal(r.value.value.ranges) && Selects(v, cs, r.value.value.ranges)
  {
    var ranges := [Range(0, v.Rows())];
    var usedIndex := false;
    var pagesPruned: nat := 0;
    var n := 0;
    AllRows(v);
    hide Selects, SomeUsed, NoneBroken, Describes, PredicateUsage;
    while n < |cs| && ranges != []
      invariant n <= |cs|
      invariant Selects(v, cs[..n], ranges)
      invariant usedIndex <==> SomeUsed(v, cs[..n])
      invariant NoneBroken(v, cs[..n])
      invariant usedIndex ==> Normal(ranges)
      invariant !usedIndex ==> ranges != []
    {
      ExtendStatus(v, cs, n);
      var atom := PredicateRanges(v, cs[n]);
      if atom.Err? {
        assert cs[n] in cs;
        BrokenIsBroken(v, cs, n);
        return Err(atom.error);
      }
      if atom.value.Some? {
        usedIndex := true;
        pagesPruned := Max(pagesPruned, atom.value.value.pagesPruned);
        ranges := NarrowSelection(v, cs, n, ranges, atom.value.value.ranges);
      } else {
        SameSelection(v, cs, n, ranges);
      }
      n := n + 1;
    }
    assert n == |cs| ==> cs[..n] == cs;
    if !usedIndex { return Ok(None); }
    if ranges == [] { EmptyStaysEmpty(v, cs, n); }
    PrefixUsed(v, cs, n);
    return Ok(Some(AtomRanges(ranges, pagesPruned)));
  }

  lemma AllRows(v: GroupView)
    ensures Selects(v, [], [Range(0, v.Rows())]) && !SomeUsed(v, []) && NoneBroken(v, [])
  {
    forall row ensures In([Range(0, v.Rows())], row) <==> 0 <= row < v.Rows() {
      assert Covers([Range(0, v.Rows())][0], row) <==> 0 <= row < v.Rows();
    }
  }

  lemma ExtendStatus(v: GroupView, cs: seq<ScanPredicate>, n: nat)
    requires n < |cs|
    ensures SomeUsed(v, cs[..n + 1]) <==> SomeUsed(v, cs[..n]) || PredicateUsage(v, cs[n]).Used?
    ensures NoneBroken(v, cs[..n + 1]) <==> NoneBroken(v, cs[..n]) && !PredicateUsage(v, cs[n]).Broken?
  {
    hide PredicateUsage;
    assert cs[..n + 1] == cs[..n] + [cs[n]];
    assert forall c :: c in cs[..n + 1] <==> c in cs[..n] || c == cs[n];
  }

  lemma ExtendKeeps(v: GroupView, cs: seq<ScanPredicate>, n: nat, row: int)
    requires n < |cs|
    ensures KeepsAll(v, cs[..n + 1], row)
            <==> KeepsAll(v, cs[..n], row) && (PredicateUsage(v, cs[n]).Used? ==> Keeps(v, cs[n], row))
  {
    hide PredicateUsage, Keeps;
    assert cs[..n + 1] == cs[..n] + [cs[n]];
    assert forall c :: c in cs[..n + 1] <==> c in cs[..n] || c == cs[n];
  }

  lemma SameSelection(v: GroupView, cs: seq<ScanPredicate>, n: nat, ranges: seq<Range>)
    requires n < |cs| && PredicateUsage(v, cs[n]).Unused? && Selects(v, cs[..n], ranges)
    ensures Selects(v, cs[..n + 1], ranges)
  {
    hide In, KeepsAll, Keeps;
    forall row ensures KeepsAll(v, cs[..n + 1], row) <==> KeepsAll(v, cs[..n], row) { ExtendKeeps(v, cs, n, row); }
  }

  method NarrowSelection(v: GroupView, ghost cs: seq<ScanPredicate>, ghost n: nat, ranges: seq<Range>, atom: seq<Range>)
    returns (output: seq<Range>)
    requires n < |cs| && PredicateUsage(v, cs[n]).Used?
    requires Selects(v, cs[..n], ranges) && Describes(v, cs[n], atom)
    ensures Selects(v, cs[..n + 1], output) && Normal(output)
  {
    output := IntersectRanges(ranges, atom);
    hide KeepsAll, Keeps, PredicateUsage;
    forall row
      ensures KeepsAll(v, cs[..n + 1], row) <==> KeepsAll(v, cs[..n], row) && Keeps(v, cs[n], row)
    {
      ExtendKeeps(v, cs, n, row);
    }
    forall k | 0 <= k < |output| ensures output[k].end <= v.Rows() {
      assert Covers(output[k], output[k].end - 1);
      assert In(output, output[k].end - 1);
    }
  }

  lemma BrokenIsBroken(v: GroupView, cs: seq<ScanPredicate>, n: nat)
    requires n < |cs| && PredicateUsage(v, cs[n]).Broken?
    ensures !NoneBroken(v, cs)
  {
    assert cs[n] in cs;
  }

  lemma EmptyStaysEmpty(v: GroupView, cs: seq<ScanPredicate>, n: nat)
    requires n <= |cs| && Selects(v, cs[..n], [])
    ensures Selects(v, cs, [])
  {
    forall row ensures !In([], row) && !(0 <= row < v.Rows() && KeepsAll(v, cs, row)) {
      if KeepsAll(v, cs, row) {
        assert forall c :: c in cs[..n] ==> c in cs;
        assert KeepsAll(v, cs[..n], row);
      }
      assert !In([], row);
    }
  }

  lemma PrefixUsed(v: GroupView, cs: seq<ScanPredicate>, n: nat)
    requires n <= |cs| && SomeUsed(v, cs[..n])
    ensures SomeUsed(v, cs)
  {
    var c :| c in cs[..n] && PredicateUsage(v, c).Used?;
    assert c in cs;
  }

  lemma SelectionBelow(v: GroupView, cs: seq<ScanPredicate>, ranges: seq<Range>)
    requires Selects(v, cs, ranges)
    ensures Below(ranges, v.Rows())
  {
  }

  /** Whether a predicate can profit from the page index at all. */
  predicate SupportsPageIndex(p: ScanPredicate) {
    match p
    case And(all) => exists q :: q in all && SupportsPageIndex(q)
    case Or(any) => forall q :: q in any ==> SupportsPageIndex(q)
    case _ => true
  }

  /** The page-pruned selection keeps every row on which the predicate is TRUE. */
  lemma SelectionSound(sql: Coercion, v: GroupView, p: ScanPredicate, ranges: seq<Range>, row: int)
    requires ViewValid(v) && Selects(v, Conjuncts(p), ranges) && Trusted(v.file, v.table, p)
    requires 0 <= row < v.Rows() && Eval(sql, RowAt(v, row), p) == True
    ensures In(ranges, row)
  {
    ConjunctsTrue(sql, RowAt(v, row), p);
    ConjunctsTrusted(v.file, v.table, p);
    forall c | c in Conjuncts(p) && PredicateUsage(v, c).Used? ensures Keeps(v, c, row) {
      KeepsSound(sql, v, c, row);
    }
  }

  /** Giving up on unsupported predicates costs nothing: no page index could be used for any conjunct. */
  lemma {:induction false} UnsupportedIsUnused(v: GroupView, p: ScanPredicate)
    requires !SupportsPageIndex(p)
    ensures forall c :: c in Conjuncts(p) ==> !PredicateUsage(v, c).Used?
    decreases p, 1
  {
    if p.And? {
      UnsupportedAreUnused(v, p.all);
    } else {
      var q :| q in p.any && !SupportsPageIndex(q);
      UnsupportedIsUnused(v, q);
      assert !PredicateUsage(v, q).Used? by { if !q.And? { assert q in Conjuncts(q); } }
    }
  }

  lemma {:induction false} UnsupportedAreUnused(v: GroupView, ps: seq<ScanPredicate>)
    requires forall q :: q in ps ==> !SupportsPageIndex(q)
    ensures forall c :: c in ConjunctsOf(ps) ==> !PredicateUsage(v, c).Used?
    decreases ps, 0
  {
    hide SupportsPageIndex, PredicateUsage;
    if ps != [] {
      UnsupportedIsUnused(v, ps[0]);
      UnsupportedAreUnused(v, ps[1..]);
    }
  }

  /** One row, present only in column `f`, on a page whose leaf values are all null. */
  ghost function NullPageGroup(file: ParquetFile, f: nat, leaf: nat): RowGroup {
    var row: FileRow := seq(|file.schema|, c => if c == f then Some(Flag(true)) else None);
    var index := OtherIndex([PageBounds(true, None, None, None)]);
    RowGroup([row], map[], map[leaf := index], map[leaf := [PageLocation(0, 1, 0)]], map[])
  }

  lemma NullPageGroupIsValid(file: ParquetFile, f: nat, leaf: nat)
    requires IsSoleLeaf(file.leafRoots, leaf) && file.leafRoots[leaf] == f < |file.schema|
    requires file.schema[f].dataType.Nested?
    ensures GroupValid(file, NullPageGroup(file, f, leaf))
  {
    var g := NullPageGroup(file, f, leaf);
    assert FileRowValid(file, g.rows[0]);
    forall other: nat | IsSoleLeaf(file.leafRoots, other) && file.leafRoots[other] < |file.schema|
      ensures LeafValid(file, g, other, file.leafRoots[other])
    {
    }
  }

  /**
   Trust is needed here too: a null page of a column with one leaf inside a struct can hold a row on
   which a test of the column is TRUE, and the row does not survive.
   */
  lemma UntrustedLosesMatches(sql: Coercion, file: ParquetFile, table: Schema, p: ScanPredicate) returns (v: GroupView)
    requires IsAtom(p) && !Trusted(file, table, p)
    requires p.Comparison? ==>
               sql(file.schema[ColumnLeaf(file, table, p.column).value.0].dataType, Flag(true), p.op, p.value) == True
    ensures v.file == file && v.table == table && v.Rows() == 1 && ViewValid(v)
    ensures AtomUsage(v, p).Used? && !AtomKeeps(v, p, 0) && Eval(sql, RowAt(v, 0), p) == True
  {
    hide GroupValid, ComparisonExcludes;
    var (f, leaf) := ColumnLeaf(file, table, p.column).value;
    v := GroupView(file, table, map[], NullPageGroup(file, f, leaf));
    NullPageGroupIsValid(file, f, leaf);
  }
}
