/**
 Parquet files as scanned: rows of nullable values, the metadata that describes them, and what the
 Parquet format promises about that metadata.  Only promises that some pruning layer could rely on are
 demanded: the metadata of a column with several leaves, the bounds of types whose bounds are never
 read and the Bloom filters of types that are never looked up may be anything.
 */
module ParquetFiles {
  import opened Common
  import opened Predicates
  import opened PageValues

  datatype Field = Field(name: string, dataType: DataType)

  type Schema = seq<Field>

  /** The first field with the name. */
  function IndexOf(schema: Schema, name: string): (at: Option<nat>)
    ensures at.Some? ==> at.value < |schema| && schema[at.value].name == name
    ensures at.None? ==> forall k :: 0 <= k < |schema| ==> schema[k].name != name
  {
    if schema == [] then None
    else if schema[0].name == name then Some(0)
    else
      match IndexOf(schema[1..], name)
      case None => None
      case Some(k) => Some(k + 1)
  }

  datatype PageLocation = PageLocation(offset: int, compressedSize: int, firstRow: int)

  datatype Statistics =
    | BooleanStats(minFlag: Option<bool>, maxFlag: Option<bool>, nullCount: Option<int>)
    | Int32Stats(minInt: Option<int>, maxInt: Option<int>, nullCount: Option<int>)
    | Int64Stats(minLong: Option<int>, maxLong: Option<int>, nullCount: Option<int>)
    | ByteArrayStats(minBytes: Option<Bytes>, maxBytes: Option<Bytes>, minExact: bool, maxExact: bool,
                     nullCount: Option<int>)
    | OtherStats(nullCount: Option<int>)

  /** A value as a Bloom filter hashes it. */
  datatype BloomKey = Key32(i: int) | Key64(l: int) | KeyBytes(bytes: Bytes)

  /** What asking for a column's Bloom filter yields: none in time or budget, corruption, or a filter. */
  datatype BloomSource = Unavailable | Corrupt | Loaded(check: BloomKey -> bool)

  type FileRow = seq<Option<Datum>>

  datatype RowGroup = RowGroup(
    rows: seq<FileRow>,
    statistics: map<nat, Statistics>,
    columnIndex: map<nat, ColumnIndex>,
    offsetIndex: map<nat, seq<PageLocation>>,
    blooms: map<nat, BloomSource>)

  /** `leafRoots[l]` is the file column that leaf `l` belongs to. */
  datatype ParquetFile = ParquetFile(schema: Schema, leafRoots: seq<nat>, groups: seq<RowGroup>)

  function FirstLeaf(roots: seq<nat>, column: nat, from: nat): (leaf: Option<nat>)
    requires from <= |roots|
    ensures leaf.Some? ==> from <= leaf.value < |roots| && roots[leaf.value] == column
    ensures forall l :: from <= l < (if leaf.Some? then leaf.value else |roots|) ==> roots[l] != column
    decreases |roots| - from
  {
    if from == |roots| then None
    else if roots[from] == column then Some(from)
    else FirstLeaf(roots, column, from + 1)
  }

  /** The leaf is the only one of its column. */
  ghost predicate IsSoleLeaf(roots: seq<nat>, leaf: nat) {
    leaf < |roots| && forall l :: 0 <= l < |roots| && roots[l] == roots[leaf] ==> l == leaf
  }

  /** The file column and the only leaf behind a table column, if there is exactly one. */
  function ColumnLeaf(file: ParquetFile, table: Schema, column: nat): (at: Option<(nat, nat)>)
    ensures at.Some? ==>
              && at.value.0 < |file.schema| && column < |table|
              && IndexOf(file.schema, table[column].name) == Some(at.value.0)
              && IsSoleLeaf(file.leafRoots, at.value.1) && file.leafRoots[at.value.1] == at.value.0
    ensures at.None? && column < |table| && IndexOf(file.schema, table[column].name).Some? ==>
              forall leaf: nat :: IsSoleLeaf(file.leafRoots, leaf) ==>
                file.leafRoots[leaf] != IndexOf(file.schema, table[column].name).value
  {
    if column >= |table| then None
    else
      match IndexOf(file.schema, table[column].name)
      case None => None
      case Some(fileColumn) =>
        match FirstLeaf(file.leafRoots, fileColumn, 0)
        case None => None
        case Some(leaf) =>
          if FirstLeaf(file.leafRoots, fileColumn, leaf + 1).Some? then None else Some((fileColumn, leaf))
  }

  /**
   A row as the table sees it: `fixed` columns (partition values) are constant, columns the file has
   come from the file, and any other column is null.
   */
  function TableRow(file: ParquetFile, table: Schema, fixed: map<nat, Cell>, row: FileRow): (r: Row)
    requires |row| == |file.schema|
    ensures |r| == |table|
  {
    seq(|table|, c requires 0 <= c < |table| => TableCell(file, table, fixed, row, c))
  }

  function TableCell(file: ParquetFile, table: Schema, fixed: map<nat, Cell>, row: FileRow, column: nat): Cell
    requires |row| == |file.schema| && column < |table|
  {
    if column in fixed then fixed[column]
    else
      match IndexOf(file.schema, table[column].name)
      case Some(f) => Cell(file.schema[f].dataType, row[f])
      case None => Cell(table[column].dataType, None)
  }

  /** The file has no column of its own where the table has a fixed one. */
  ghost predicate FixedAbsent(file: ParquetFile, table: Schema, fixed: map<nat, Cell>) {
    forall c :: c in fixed && c < |table| ==> IndexOf(file.schema, table[c].name).None?
  }

  // ---------------------------------------------------------------- contracts

  ghost predicate FileRowValid(file: ParquetFile, row: FileRow) {
    && |row| == |file.schema|
    && forall f :: 0 <= f < |row| ==> CellWellTyped(Cell(file.schema[f].dataType, row[f]))
  }

  ghost predicate FixedValid(fixed: map<nat, Cell>) {
    forall c :: c in fixed ==> CellWellTyped(fixed[c])
  }

  lemma TableRowWellTyped(file: ParquetFile, table: Schema, fixed: map<nat, Cell>, row: FileRow)
    requires FileRowValid(file, row) && FixedValid(fixed)
    ensures RowWellTyped(TableRow(file, table, fixed, row))
  {
    var r := TableRow(file, table, fixed, row);
    forall k | 0 <= k < |r| ensures CellWellTyped(r[k]) {
      var f := IndexOf(file.schema, table[k].name);
      if f.Some? { assert CellWellTyped(Cell(file.schema[f.value].dataType, row[f.value])); }
    }
  }

  function FileCell(g: RowGroup, row: int, column: nat): Option<Datum> {
    if 0 <= row < |g.rows| && column < |g.rows[row]| then g.rows[row][column] else None
  }

  ghost function NullRows(g: RowGroup, column: nat, low: int, high: int): set<int> {
    set r | low <= r < high && FileCell(g, r, column).None?
  }

  /** Page starts are increasing, begin at row zero and stay inside the row group. */
  predicate ValidLocations(locations: seq<PageLocation>, rows: nat) {
    && (forall p :: 0 <= p < |locations| ==>
          locations[p].offset >= 0 && locations[p].compressedSize > 0 && 0 <= locations[p].firstRow < rows)
    && (forall p :: 0 < p < |locations| ==> locations[p - 1].firstRow < locations[p].firstRow)
    && (locations != [] ==> locations[0].firstRow == 0)
  }

  function PageStart(locations: seq<PageLocation>, page: nat): int
    requires page < |locations|
  {
    locations[page].firstRow
  }

  function PageEnd(locations: seq<PageLocation>, rows: nat, page: nat): int
    requires page < |locations|
  {
    if page + 1 < |locations| then locations[page + 1].firstRow else rows
  }

  /**
   What a leaf's null count says about the nulls of its column: in a flat column they are the same, in
   a nested one a value may be present although its leaf is null, never the other way round.
   */
  ghost predicate NullsCounted(t: DataType, count: Option<int>, nulls: nat) {
    count.Some? ==> if t.Nested? then count.value >= nulls else count.value == nulls
  }

  /**
   What the page index promises about one page: nulls are counted and values enclosed.  A null page of
   a nested column may hold values with null leaves.
   */
  ghost predicate PageContract(t: DataType, g: RowGroup, column: nat, index: ColumnIndex, page: nat, low: int, high: int)
    requires page < NumPages(index)
  {
    && NullsCounted(t, NullCount(index, page), |NullRows(g, column, low, high)|)
    && forall r :: low <= r < high && FileCell(g, r, column).Some? && !t.Nested? ==>
         !IsNullPage(index, page) && WithinBounds(index, t, page, FileCell(g, r, column).value)
  }

  ghost predicate IndexContract(t: DataType, g: RowGroup, column: nat, index: ColumnIndex, locations: seq<PageLocation>) {
    |locations| == NumPages(index) && ValidLocations(locations, |g.rows|) ==>
      forall page :: 0 <= page < |locations| ==>
        PageContract(t, g, column, index, page, PageStart(locations, page), PageEnd(locations, |g.rows|, page))
  }

  /** Row-group statistics count the nulls and enclose the values. */
  ghost predicate StatisticsContract(t: DataType, g: RowGroup, column: nat, stats: Statistics) {
    && NullsCounted(t, stats.nullCount, |NullRows(g, column, 0, |g.rows|)|)
    && forall r :: 0 <= r < |g.rows| && FileCell(g, r, column).Some? ==>
         StatisticsEnclose(stats, t, FileCell(g, r, column).value)
  }

  /**
   The bounds enclose the value in the column's own order, for the types whose row-group bounds are
   read.  Byte-array bounds count only when both are marked exact.
   */
  predicate StatisticsEnclose(stats: Statistics, t: DataType, d: Datum) {
    match stats
    case BooleanStats(min, max, _) =>
      t.Boolean? && d.Flag? ==> BetweenInt(MapFlag(min), MapFlag(max), FlagRank(d.flag))
    case Int32Stats(min, max, _) => (t.Int32? || t.Date32?) && d.Whole? ==> BetweenInt(min, max, d.whole)
    case Int64Stats(min, max, _) => t.Int64? && d.Whole? ==> BetweenInt(min, max, d.whole)
    case ByteArrayStats(min, max, minExact, maxExact, _) =>
      t.Utf8? && d.Raw? && minExact && maxExact ==> BetweenBytes(min, max, d.raw)
    case OtherStats(_) => true
  }

  /** The types whose Bloom filters can be asked: their stored values have one known encoding. */
  predicate HasBloomKey(t: DataType) {
    || t.Int8? || t.Int16? || t.Int32? || t.Int64? || t.UInt8? || t.UInt16? || t.UInt32? || t.UInt64?
    || t.Date32? || t.Timestamp? || t.Utf8? || t.LargeUtf8? || t.Binary? || t.LargeBinary? || t.FixedSizeBinary?
  }

  /** The key under which a stored value of such a type was added to its column's Bloom filter. */
  function StoredKey(t: DataType, d: Datum): BloomKey {
    match d
    case Flag(flag) => Key32(FlagRank(flag))
    case Raw(raw) => KeyBytes(raw)
    case Whole(whole) =>
      match t
      case Int64 => Key64(whole)
      case Timestamp(_, _) => Key64(whole)
      case UInt32 => Key32(AsSigned(whole, TWO_32))
      case UInt64 => Key64(AsSigned(whole, TWO_64))
      case _ => Key32(whole)
  }

  /** Reinterpreting an unsigned integer of `2^bits == modulus` values as signed. */
  function AsSigned(x: int, modulus: int): int { if 2 * x >= modulus then x - modulus else x }

  /** A Bloom filter has no false negatives. */
  ghost predicate BloomContract(t: DataType, g: RowGroup, column: nat, check: BloomKey -> bool) {
    forall r :: 0 <= r < |g.rows| && FileCell(g, r, column).Some? && HasBloomKey(t) ==>
      check(StoredKey(t, FileCell(g, r, column).value))
  }

  /** What the format promises about the chunk of a column's sole leaf. */
  ghost predicate LeafValid(file: ParquetFile, g: RowGroup, leaf: nat, column: nat)
    requires column < |file.schema|
  {
    var t := file.schema[column].dataType;
    && (leaf in g.columnIndex && leaf in g.offsetIndex ==>
          IndexContract(t, g, column, g.columnIndex[leaf], g.offsetIndex[leaf]))
    && (leaf in g.statistics ==> StatisticsContract(t, g, column, g.statistics[leaf]))
    && (leaf in g.blooms && g.blooms[leaf].Loaded? ==> BloomContract(t, g, column, g.blooms[leaf].check))
  }

  /** Everything the format promises about a row group. */
  ghost predicate GroupValid(file: ParquetFile, g: RowGroup) {
    && (forall r :: 0 <= r < |g.rows| ==> FileRowValid(file, g.rows[r]))
    && |g.rows| <= I64_MAX
    && (forall leaf: nat :: IsSoleLeaf(file.leafRoots, leaf) && file.leafRoots[leaf] < |file.schema| ==>
          LeafValid(file, g, leaf, file.leafRoots[leaf]))
  }

  ghost predicate FileValid(file: ParquetFile) {
    forall k :: 0 <= k < |file.groups| ==> GroupValid(file, file.groups[k])
  }

  /**
   What is not demanded: a file may hold unsigned values past the signed range under bounds stored as
   signed, a struct of two leaves with null counts of their own, and a decimal with a Bloom filter that
   hashes it in some way not known here.
   */
  lemma UnreadMetadataIsFree(structNulls: int, check: BloomKey -> bool)
    ensures var wrapped := 3_000_000_000 - TWO_32;
            var schema := [Field("u", UInt32), Field("s", Nested(0)), Field("d", Decimal128(38, 2))];
            var row := [Some(Whole(3_000_000_000)), Some(Flag(true)), Some(Whole(1))];
            var statistics := map[0 := Int32Stats(Some(wrapped), Some(wrapped), Some(0)),
                                  1 := OtherStats(Some(structNulls)), 2 := OtherStats(Some(structNulls))];
            FileValid(ParquetFile(schema, [0, 1, 1, 2],
                                  [RowGroup([row], statistics, map[], map[], map[3 := Loaded(check)])]))
  {
    var wrapped := 3_000_000_000 - TWO_32;
    var schema := [Field("u", UInt32), Field("s", Nested(0)), Field("d", Decimal128(38, 2))];
    var row: FileRow := [Some(Whole(3_000_000_000)), Some(Flag(true)), Some(Whole(1))];
    var statistics := map[0 := Int32Stats(Some(wrapped), Some(wrapped), Some(0)),
                          1 := OtherStats(Some(structNulls)), 2 := OtherStats(Some(structNulls))];
    var g := RowGroup([row], statistics, map[], map[], map[3 := Loaded(check)]);
    var file := ParquetFile(schema, [0, 1, 1, 2], [g]);
    assert FileRowValid(file, row);
    assert NullRows(g, 0, 0, 1) == {};
    assert !IsSoleLeaf(file.leafRoots, 1) by { assert file.leafRoots[2] == 1; }
    assert !IsSoleLeaf(file.leafRoots, 2) by { assert file.leafRoots[1] == 1; }
    assert LeafValid(file, g, 0, 0) && LeafValid(file, g, 3, 2);
    assert GroupValid(file, g);
  }
}
