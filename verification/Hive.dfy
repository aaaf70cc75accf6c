/** Hive partition columns: inference from paths, materialisation, and file pruning. */
module Hive {
  import opened Common
  import opened Predicates
  import opened ParquetFiles
  import opened HiveValues

  datatype PartitionColumn = PartitionColumn(name: string, dataType: DataType, nullable: bool)

  type PartitionMap = seq<(string, Option<Bytes>)>

  datatype HivePartitions = HivePartitions(
    columns: seq<PartitionColumn>,
    files: seq<seq<Option<Bytes>>>,
    physicalColumns: nat)

  // ---------------------------------------------------------------- inference

  datatype InferredType = InferBoolean | InferInt64 | InferDate32 | InferUtf8

  function InferValue(s: Bytes): InferredType {
    if ParseBool(s).Some? then InferBoolean
    else if ParseI64(s).Some? then InferInt64
    else if ParseDate32(s).Some? then InferDate32
    else InferUtf8
  }

  ghost predicate IsFlag(s: Bytes) { exists flag :: SpellsFlag(s, flag) }

  ghost predicate IsInteger(s: Bytes) { exists n :: SpellsSigned(s, n) && I64_MIN <= n <= I64_MAX }

  ghost predicate IsDate(s: Bytes) { exists n :: DenotesDay(s, n) }

  /** A value is a flag if it spells one, else an integer, else a date, else text. */
  lemma InferValueExact(s: Bytes)
    ensures InferValue(s) ==
            if IsFlag(s) then InferBoolean
            else if IsInteger(s) then InferInt64
            else if IsDate(s) then InferDate32
            else InferUtf8
  {
    hide ParseBool, ParseInteger, ParseDate32, SpellsFlag, SpellsSigned, DenotesDay;
    ParseBoolExact(s);
    forall n ensures ParseI64(s) == Some(n) <==> SpellsSigned(s, n) && I64_MIN <= n <= I64_MAX {
      ParseSignedExact(s, I64_MIN, I64_MAX, n);
    }
    forall n ensures ParseDate32(s) == Some(n) <==> DenotesDay(s, n) { ParsesToDenotedDay(s, n); }
    assert ParseBool(s).Some? ==> SpellsFlag(s, ParseBool(s).value);
    assert ParseI64(s).Some? ==> SpellsSigned(s, ParseI64(s).value);
    assert ParseDate32(s).Some? ==> DenotesDay(s, ParseDate32(s).value);
  }

  function TypeOf(t: InferredType): DataType {
    match t
    case InferBoolean => Boolean
    case InferInt64 => Int64
    case InferDate32 => Date32
    case InferUtf8 => Utf8
  }

  /** All non-null values infer to the type, and there is one. */
  predicate Uniform(values: seq<Option<Bytes>>, t: InferredType) {
    && (exists k :: 0 <= k < |values| && values[k].Some?)
    && (forall k :: 0 <= k < |values| && values[k].Some? ==> InferValue(values[k].value) == t)
  }

  /** A column takes the one type its values share, else text; it is nullable when a value is missing. */
  method InferColumn(values: seq<Option<Bytes>>) returns (dataType: DataType, nullable: bool)
    ensures nullable <==> exists k :: 0 <= k < |values| && values[k].None?
    ensures forall t :: Uniform(values, t) ==> dataType == TypeOf(t)
    ensures (forall t :: !Uniform(values, t)) ==> dataType == Utf8
  {
    hide InferValue;
    var inferred: Option<InferredType> := None;
    nullable := false;
    for n := 0 to |values|
      invariant nullable <==> exists k :: 0 <= k < n && values[k].None?
      invariant inferred.None? <==> forall k :: 0 <= k < n ==> values[k].None?
      invariant inferred.Some? && !inferred.value.InferUtf8? ==>
        forall k :: 0 <= k < n && values[k].Some? ==> InferValue(values[k].value) == inferred.value
      invariant inferred == Some(InferUtf8) ==>
        || (forall k :: 0 <= k < n && values[k].Some? ==> InferValue(values[k].value).InferUtf8?)
        || (exists j, k :: 0 <= j < k < n && values[j].Some? && values[k].Some?
                           && InferValue(values[j].value) != InferValue(values[k].value))
    {
      if values[n].None? {
        nullable := true;
        continue;
      }
      var candidate := InferValue(values[n].value);
      if inferred.None? {
        inferred := Some(candidate);
      } else if inferred.value != candidate {
        if !inferred.value.InferUtf8? {
          var j :| 0 <= j < n && values[j].Some?;
          assert InferValue(values[j].value) != InferValue(values[n].value);
        }
        inferred := Some(InferUtf8);
      }
    }
    dataType := if inferred.Some? then TypeOf(inferred.value) else Utf8;
    if inferred.Some? && !inferred.value.InferUtf8? { assert Uniform(values, inferred.value); }
  }

  // ---------------------------------------------------------------- materialisation

  /** The cell every row of a file holds in a partition column. */
  function Materialised(column: PartitionColumn, raw: Option<Bytes>): Cell {
    if raw.None? then Cell(column.dataType, None)
    else
      match column.dataType
      case Boolean =>
        var b := ParseBool(raw.value);
        Cell(Boolean, if b.Some? then Some(Flag(b.value)) else None)
      case Int64 =>
        var i := ParseI64(raw.value);
        Cell(Int64, if i.Some? then Some(Whole(i.value)) else None)
      case Date32 =>
        var d := ParseDate32(raw.value);
        Cell(Date32, if d.Some? then Some(Whole(d.value)) else None)
      case _ => Cell(Utf8, Some(Raw(raw.value)))
  }

  lemma MaterialisedWellTyped(column: PartitionColumn, raw: Option<Bytes>)
    ensures CellWellTyped(Materialised(column, raw))
  {
    hide ParseBool, ParseInteger, ParseDate32;
    if raw.Some? { ParsedInRange(raw.value); }
  }

  /** A partition cell holds what its path spells: a flag, a signed number, the day of a date, or the text. */
  lemma MaterialisedExact(column: PartitionColumn, raw: Bytes)
    ensures column.dataType.Boolean? ==>
              forall flag :: Materialised(column, Some(raw)).value == Some(Flag(flag)) <==> SpellsFlag(raw, flag)
    ensures column.dataType.Int64? ==>
              forall n :: Materialised(column, Some(raw)).value == Some(Whole(n))
                          <==> SpellsSigned(raw, n) && I64_MIN <= n <= I64_MAX
    ensures column.dataType.Date32? ==>
              forall n :: Materialised(column, Some(raw)).value == Some(Whole(n)) <==> DenotesDay(raw, n)
    ensures column.dataType.Utf8? ==> Materialised(column, Some(raw)).value == Some(Raw(raw))
    ensures Materialised(column, None).value == None
  {
    hide ParseBool, ParseInteger, ParseDate32, SpellsFlag, SpellsSigned, DenotesDay;
    ParseBoolExact(raw);
    forall n ensures ParseI64(raw) == Some(n) <==> SpellsSigned(raw, n) && I64_MIN <= n <= I64_MAX {
      ParseSignedExact(raw, I64_MIN, I64_MAX, n);
    }
    forall n ensures ParseDate32(raw) == Some(n) <==> DenotesDay(raw, n) { ParsesToDenotedDay(raw, n); }
  }

  /** A column whose type and nullability were inferred from `values`. */
  ghost predicate InferredFrom(column: PartitionColumn, values: seq<Option<Bytes>>) {
    && (column.nullable <==> exists k :: 0 <= k < |values| && values[k].None?)
    && (forall t :: Uniform(values, t) ==> column.dataType == TypeOf(t))
    && ((forall t :: !Uniform(values, t)) ==> column.dataType == Utf8)
  }

  /** Every present value parses under its inferred type, and a non-nullable column has no null cell. */
  lemma InferredValuesParse(column: PartitionColumn, values: seq<Option<Bytes>>, k: nat)
    requires InferredFrom(column, values) && k < |values|
    ensures values[k].Some? <==> Materialised(column, values[k]).value.Some?
    ensures Materialised(column, values[k]).dataType == column.dataType
    ensures !column.nullable ==> Materialised(column, values[k]).value.Some?
  {
    hide ParseBool, ParseI64, ParseDate32;
    if exists t :: Uniform(values, t) {
      var t :| Uniform(values, t);
      assert values[k].Some? ==> InferValue(values[k].value) == t;
    }
  }

  // ---------------------------------------------------------------- discovery

  predicate SameName(a: string, b: string) {
    |a| == |b| && forall k :: 0 <= k < |a| ==> LowerChar(a[k]) == LowerChar(b[k])
  }

  lemma SameNameExact(a: string, b: string)
    ensures SameName(a, b) <==> |a| == |b| && forall k :: 0 <= k < |a| ==> SameLetter(a[k], b[k])
  {
    hide LowerChar, SameLetter;
    forall k | 0 <= k < |a| && k < |b| ensures LowerChar(a[k]) == LowerChar(b[k]) <==> SameLetter(a[k], b[k]) {
      LowerCharExact(a[k], b[k]);
    }
  }

  datatype HiveError = ConflictsWithColumn | InconsistentCasing

  predicate Conflicts(physical: Schema, name: string) {
    exists k :: 0 <= k < |physical| && SameName(physical[k].name, name)
  }

  function Keys(file: PartitionMap): seq<string> {
    if file == [] then [] else [file[0].0] + Keys(file[1..])
  }

  function AllKeys(files: seq<PartitionMap>): seq<string> {
    if files == [] then [] else Keys(files[0]) + AllKeys(files[1..])
  }

  /** The distinct names in order of first appearance. */
  function FirstSeen(keys: seq<string>): seq<string> {
    if keys == [] then []
    else
      var names := FirstSeen(keys[..|keys| - 1]);
      if keys[|keys| - 1] in names then names else names + [keys[|keys| - 1]]
  }

  /** No key is a physical column and no two keys differ only in case. */
  ghost predicate KeysConsistent(physical: Schema, keys: seq<string>) {
    && (forall a :: a in keys ==> !Conflicts(physical, a))
    && (forall a, b :: a in keys && b in keys && SameName(a, b) ==> a == b)
  }

  lemma {:induction false} FirstSeenIsKeys(keys: seq<string>)
    ensures forall a :: a in FirstSeen(keys) <==> a in keys
    ensures forall i, j :: 0 <= i < j < |FirstSeen(keys)| ==> FirstSeen(keys)[i] != FirstSeen(keys)[j]
    decreases |keys|
  {
    if keys != [] {
      var init, last := keys[..|keys| - 1], keys[|keys| - 1];
      FirstSeenIsKeys(init);
      assert keys == init + [last];
    }
  }

  /** Adds one key, or reports why it cannot be a partition column. */
  method AddName(physical: Schema, names: seq<string>, name: string, ghost keys: seq<string>)
    returns (r: Result<seq<string>, HiveError>)
    requires names == FirstSeen(keys) && KeysConsistent(physical, keys)
    ensures r.Ok? <==> KeysConsistent(physical, keys + [name])
    ensures r.Ok? ==> r.value == FirstSeen(keys + [name])
  {
    FirstSeenIsKeys(keys);
    assert (keys + [name])[..|keys + [name]| - 1] == keys;
    assert name in keys + [name];
    for k := 0 to |physical|
      invariant forall j :: 0 <= j < k ==> !SameName(physical[j].name, name)
    {
      if SameName(physical[k].name, name) { return Err(ConflictsWithColumn); }
    }
    for k := 0 to |names|
      invariant forall j :: 0 <= j < k ==> !SameName(names[j], name)
    {
      if SameName(names[k], name) {
        assert names[k] in keys + [name];
        if names[k] != name { return Err(InconsistentCasing); }
        assert keys + [name] == keys + [name] && name in keys;
        KeysConsistentAgain(physical, keys, name);
        return Ok(names);
      }
    }
    NewKeyConsistent(physical, keys, name);
    return Ok(names + [name]);
  }

  lemma KeysConsistentAgain(physical: Schema, keys: seq<string>, name: string)
    requires KeysConsistent(physical, keys) && name in keys
    ensures KeysConsistent(physical, keys + [name])
  {
    assert forall a :: a in keys + [name] <==> a in keys;
  }

  lemma NewKeyConsistent(physical: Schema, keys: seq<string>, name: string)
    requires KeysConsistent(physical, keys) && !Conflicts(physical, name)
    requires forall a :: a in FirstSeen(keys) ==> !SameName(a, name)
    ensures KeysConsistent(physical, keys + [name]) && name !in FirstSeen(keys)
  {
    FirstSeenIsKeys(keys);
    assert SameName(name, name);
    forall a, b | a in keys + [name] && b in keys + [name] && SameName(a, b) ensures a == b {
      assert SameName(b, a);
    }
  }

  lemma {:induction false} KeysAppend(file: PartitionMap, n: nat)
    requires n < |file|
    ensures Keys(file[..n + 1]) == Keys(file[..n]) + [file[n].0]
    decreases n
  {
    if n == 0 {
      assert file[..1] == [file[0]] && file[..0] == [];
      assert [file[0]][1..] == [];
      assert Keys([]) == [];
    } else {
      KeysAppend(file[1..], n - 1);
      assert file[..n + 1][1..] == file[1..][..n];
      assert file[..n][1..] == file[1..][..n - 1];
    }
  }

  lemma {:induction false} AllKeysAppend(files: seq<PartitionMap>, n: nat)
    requires n < |files|
    ensures AllKeys(files[..n + 1]) == AllKeys(files[..n]) + Keys(files[n])
    decreases n
  {
    if n == 0 {
      assert files[..1] == [files[0]] && files[..0] == [];
      assert [files[0]][1..] == [];
      assert AllKeys([]) == [];
    } else {
      AllKeysAppend(files[1..], n - 1);
      assert files[..n + 1][1..] == files[1..][..n];
      assert files[..n][1..] == files[1..][..n - 1];
    }
  }

  lemma {:induction false} ConsistentPrefix(physical: Schema, keys: seq<string>, more: seq<string>)
    requires KeysConsistent(physical, keys + more)
    ensures KeysConsistent(physical, keys)
  {
    assert forall a :: a in keys ==> a in keys + more;
  }

  /** The partition columns of all files, in order of first appearance. */
  method CollectNames(physical: Schema, files: seq<PartitionMap>) returns (r: Result<seq<string>, HiveError>)
    ensures r.Ok? <==> KeysConsistent(physical, AllKeys(files))
    ensures r.Ok? ==> r.value == FirstSeen(AllKeys(files))
  {
    var names: seq<string> := [];
    for n := 0 to |files|
      invariant KeysConsistent(physical, AllKeys(files[..n])) && names == FirstSeen(AllKeys(files[..n]))
    {
      ghost var before := AllKeys(files[..n]);
      assert before + Keys(files[n][..0]) == before;
      for k := 0 to |files[n]|
        invariant KeysConsistent(physical, before + Keys(files[n][..k]))
        invariant names == FirstSeen(before + Keys(files[n][..k]))
      {
        KeysAppend(files[n], k);
        ghost var seen := before + Keys(files[n][..k]);
        assert before + Keys(files[n][..k + 1]) == seen + [files[n][k].0];
        var added := AddName(physical, names, files[n][k].0, seen);
        if added.Err? {
          InconsistentPrefix(physical, files, n, k);
          return Err(added.error);
        }
        names := added.value;
      }
      AllKeysAppend(files, n);
      assert files[n][..|files[n]|] == files[n];
    }
    assert files[..|files|] == files;
    return Ok(names);
  }

  lemma InconsistentPrefix(physical: Schema, files: seq<PartitionMap>, n: nat, k: nat)
    requires n < |files| && k < |files[n]|
    requires !KeysConsistent(physical, AllKeys(files[..n]) + Keys(files[n][..k + 1]))
    ensures !KeysConsistent(physical, AllKeys(files))
  {
    KeysDecompose(files, n, k);
    if KeysConsistent(physical, AllKeys(files)) {
      ConsistentPrefix(physical, AllKeys(files[..n]) + Keys(files[n][..k + 1]),
                       Keys(files[n][k + 1..]) + AllKeys(files[n + 1..]));
    }
  }

  lemma KeysDecompose(files: seq<PartitionMap>, n: nat, k: nat)
    requires n < |files| && k < |files[n]|
    ensures AllKeys(files) == (AllKeys(files[..n]) + Keys(files[n][..k + 1]))
                              + (Keys(files[n][k + 1..]) + AllKeys(files[n + 1..]))
  {
    KeysSplit(files[n], k + 1);
    AllKeysAppend(files, n);
    AllKeysSplit(files, n + 1);
  }

  lemma {:induction false} KeysSplit(file: PartitionMap, n: nat)
    requires n <= |file|
    ensures Keys(file) == Keys(file[..n]) + Keys(file[n..])
    decreases n
  {
    if n == 0 {
      assert file[..0] == [] && file[0..] == file;
    } else {
      var rest := file[1..];
      KeysSplit(rest, n - 1);
      assert file[..n][1..] == rest[..n - 1] && rest[n - 1..] == file[n..];
      assert Keys(file[..n]) == [file[0].0] + Keys(rest[..n - 1]);
    }
  }

  lemma {:induction false} AllKeysSplit(files: seq<PartitionMap>, n: nat)
    requires n <= |files|
    ensures AllKeys(files) == AllKeys(files[..n]) + AllKeys(files[n..])
    decreases n
  {
    if n == 0 {
      assert files[..0] == [] && files[0..] == files;
    } else {
      var rest := files[1..];
      AllKeysSplit(rest, n - 1);
      assert files[..n][1..] == rest[..n - 1] && rest[n - 1..] == files[n..];
      assert AllKeys(files[..n]) == Keys(files[0]) + AllKeys(rest[..n - 1]);
    }
  }

  /** A file's value for a name: the last entry with it, and null when there is none. */
  function Lookup(file: PartitionMap, name: string): Option<Bytes> {
    if file == [] then None
    else if file[|file| - 1].0 == name then file[|file| - 1].1
    else Lookup(file[..|file| - 1], name)
  }

  function ValuesOf(file: PartitionMap, names: seq<string>): seq<Option<Bytes>> {
    seq(|names|, k requires 0 <= k < |names| => Lookup(file, names[k]))
  }

  ghost function ColumnValues(files: seq<seq<Option<Bytes>>>, column: nat): seq<Option<Bytes>>
    requires forall f :: 0 <= f < |files| ==> column < |files[f]|
  {
    seq(|files|, f requires 0 <= f < |files| => files[f][column])
  }

  /** The value a path carries for a name: that of its last part with the name, if there is one. */
  ghost predicate Carries(file: PartitionMap, name: string, value: Option<Bytes>) {
    || (value.None? && forall k :: 0 <= k < |file| ==> file[k].0 != name)
    || exists k :: 0 <= k < |file| && file[k] == (name, value) && forall j :: k < j < |file| ==> file[j].0 != name
  }

  lemma {:induction false} LookupIsLast(file: PartitionMap, name: string) returns (at: Option<nat>)
    ensures at.Some? ==> at.value < |file| && file[at.value] == (name, Lookup(file, name))
    ensures at.None? ==> Lookup(file, name).None?
    ensures forall j :: (if at.Some? then at.value + 1 else 0) <= j < |file| ==> file[j].0 != name
  {
    if file == [] {
      at := None;
    } else if file[|file| - 1].0 == name {
      at := Some(|file| - 1);
    } else {
      at := LookupIsLast(file[..|file| - 1], name);
    }
  }

  lemma LookupCarries(file: PartitionMap, name: string)
    ensures Carries(file, name, Lookup(file, name))
  {
    hide Lookup;
    var at := LookupIsLast(file, name);
  }

  /** Of two names the earlier in the list appears earlier among the keys. */
  lemma {:induction false} FirstSeenOrder(keys: seq<string>, i: nat, j: nat) returns (m: nat)
    requires i < j < |FirstSeen(keys)|
    ensures m <= |keys| && FirstSeen(keys)[i] in keys[..m] && FirstSeen(keys)[j] !in keys[..m]
    decreases |keys|
  {
    var n := |keys| - 1;
    var before := FirstSeen(keys[..n]);
    if j < |before| {
      m := FirstSeenOrder(keys[..n], i, j);
      assert keys[..n][..m] == keys[..m];
    } else {
      m := n;
      FirstSeenIsKeys(keys[..n]);
    }
  }

  /** What discovery promises about its result. */
  ghost predicate Discovered(h: HivePartitions, files: seq<PartitionMap>, physical: Schema) {
    var names := FirstSeen(AllKeys(files));
    && h.physicalColumns == |physical|
    && |h.columns| == |names| && (forall k :: 0 <= k < |names| ==> h.columns[k].name == names[k])
    && |h.files| == |files| && (forall f :: 0 <= f < |files| ==> h.files[f] == ValuesOf(files[f], names))
    && (forall k :: 0 <= k < |names| ==> InferredFrom(h.columns[k], ColumnValues(h.files, k)))
  }

  lemma InferredBy(column: PartitionColumn, values: seq<Option<Bytes>>)
    requires column.nullable <==> exists k :: 0 <= k < |values| && values[k].None?
    requires forall t :: Uniform(values, t) ==> column.dataType == TypeOf(t)
    requires (forall t :: !Uniform(values, t)) ==> column.dataType == Utf8
    ensures InferredFrom(column, values)
  {
  }

  method InferColumns(rows: seq<seq<Option<Bytes>>>, names: seq<string>) returns (columns: seq<PartitionColumn>)
    requires forall f :: 0 <= f < |rows| ==> |rows[f]| == |names|
    ensures |columns| == |names|
    ensures forall j :: 0 <= j < |names| ==>
              columns[j].name == names[j] && InferredFrom(columns[j], ColumnValues(rows, j))
  {
    hide InferredFrom;
    columns := [];
    for k := 0 to |names|
      invariant |columns| == k
      invariant forall j :: 0 <= j < k ==>
        columns[j].name == names[j] && InferredFrom(columns[j], ColumnValues(rows, j))
    {
      var values := seq(|rows|, f requires 0 <= f < |rows| => rows[f][k]);
      var dataType, nullable := InferColumn(values);
      assert values == ColumnValues(rows, k);
      var column := PartitionColumn(names[k], dataType, nullable);
      InferredBy(column, values);
      columns := columns + [column];
    }
  }

  method FromMaps(files: seq<PartitionMap>, physical: Schema) returns (r: Result<Option<HivePartitions>, HiveError>)
    ensures r.Ok? <==> KeysConsistent(physical, AllKeys(files))
    ensures r == Ok(None) <==> AllKeys(files) == []
    ensures r.Ok? && r.value.Some? ==> Discovered(r.value.value, files, physical)
  {
    hide InferredFrom, Lookup;
    var collected := CollectNames(physical, files);
    FirstSeenIsKeys(AllKeys(files));
    if collected.Err? { return Err(collected.error); }
    var names := collected.value;
    if AllKeys(files) != [] { assert AllKeys(files)[0] in names; }
    if names == [] { return Ok(None); }
    var rows := seq(|files|, f requires 0 <= f < |files| => ValuesOf(files[f], names));
    var columns := InferColumns(rows, names);
    return Ok(Some(HivePartitions(columns, rows, |physical|)));
  }

  // ---------------------------------------------------------------- pruning

  function PartitionValue(h: HivePartitions, file: nat, column: nat): Option<Option<Bytes>> {
    if column < h.physicalColumns || file >= |h.files| then None
    else
      var k := column - h.physicalColumns;
      if k < |h.files[file]| then Some(h.files[file][k]) else None
  }

  predicate ComparisonPrunes(h: HivePartitions, file: nat, k: nat, op: ComparisonOp, v: PredicateValue) {
    if k >= |h.columns| || file >= |h.files| || k >= |h.files[file]| then false
    else
      match h.files[file][k]
      case None => true
      case Some(raw) =>
        match h.columns[k].dataType
        case Boolean =>
          v.BooleanValue? && ParseBool(raw).Some?
          && !OpHolds(op, CompareInt(FlagRank(ParseBool(raw).value), FlagRank(v.flag)))
        case Int64 => v.Int64Value? && ParseI64(raw).Some? && !OpHolds(op, CompareInt(ParseI64(raw).value, v.i))
        case Date32 => v.Date32Value? && ParseDate32(raw).Some? && !OpHolds(op, CompareInt(ParseDate32(raw).value, v.day))
        case Utf8 => v.Utf8Value? && !OpHolds(op, CompareBytes(raw, v.text))
        case _ => false
  }

  predicate PredicatePrunes(h: HivePartitions, file: nat, p: ScanPredicate) {
    match p
    case And(all) => exists q :: q in all && PredicatePrunes(h, file, q)
    case Or(any) => forall q :: q in any ==> PredicatePrunes(h, file, q)
    case Comparison(column, op, value) =>
      column >= h.physicalColumns && ComparisonPrunes(h, file, column - h.physicalColumns, op, value)
    case IsNull(column) => PartitionValue(h, file, column).Some? && PartitionValue(h, file, column).value.Some?
    case IsNotNull(column) => PartitionValue(h, file, column).Some? && PartitionValue(h, file, column).value.None?
  }

  /** Shape shared by every discovered table: one value per file and column, types among the four. */
  ghost predicate HiveValid(h: HivePartitions) {
    && (forall f :: 0 <= f < |h.files| ==> |h.files[f]| == |h.columns|)
    && (forall k :: 0 <= k < |h.columns| ==> InferredFrom(h.columns[k], ColumnValues(h.files, k)))
  }

  lemma DiscoveredIsValid(h: HivePartitions, files: seq<PartitionMap>, physical: Schema)
    requires Discovered(h, files, physical)
    ensures HiveValid(h)
    ensures forall i, j :: 0 <= i < j < |h.columns| ==> h.columns[i].name != h.columns[j].name
  {
    FirstSeenIsKeys(AllKeys(files));
  }

  /** Each file has the values its path carries; the columns are the names of all paths as they first appear. */
  lemma DiscoveredCarries(h: HivePartitions, files: seq<PartitionMap>, physical: Schema)
    requires Discovered(h, files, physical)
    ensures forall f, k :: 0 <= f < |files| && 0 <= k < |h.columns| ==>
              Carries(files[f], h.columns[k].name, h.files[f][k])
    ensures forall name :: name in AllKeys(files) <==> exists k :: 0 <= k < |h.columns| && h.columns[k].name == name
    ensures forall i, j :: 0 <= i < j < |h.columns| ==> AppearsBefore(AllKeys(files), h.columns[i].name, h.columns[j].name)
  {
    hide Lookup, FirstSeen, AllKeys, Carries;
    var names := FirstSeen(AllKeys(files));
    FirstSeenIsKeys(AllKeys(files));
    forall f, k | 0 <= f < |files| && 0 <= k < |h.columns|
      ensures Carries(files[f], h.columns[k].name, h.files[f][k])
    {
      LookupCarries(files[f], names[k]);
    }
    forall i, j | 0 <= i < j < |h.columns|
      ensures AppearsBefore(AllKeys(files), h.columns[i].name, h.columns[j].name)
    {
      var m := FirstSeenOrder(AllKeys(files), i, j);
    }
  }

  ghost predicate AppearsBefore(keys: seq<string>, a: string, b: string) {
    exists m: nat :: m <= |keys| && a in keys[..m] && b !in keys[..m]
  }

  /** Every partition column of the row holds the file's materialised value. */
  ghost predicate RowOfFile(h: HivePartitions, file: nat, row: Row)
    requires HiveValid(h) && file < |h.files|
  {
    forall k :: 0 <= k < |h.columns| ==>
      CellAt(row, h.physicalColumns + k) == Materialised(h.columns[k], h.files[file][k])
  }

  /** On a partition column a comparison is pruned exactly when it is not TRUE there, if pruning knows the pair. */
  lemma ComparisonPrunesExact(sql: Coercion, h: HivePartitions, file: nat, k: nat, op: ComparisonOp, v: PredicateValue)
    requires HiveValid(h) && file < |h.files| && k < |h.columns|
    ensures var cell := Materialised(h.columns[k], h.files[file][k]);
            && (ComparisonPrunes(h, file, k, op, v) ==> EvalComparison(sql, cell, op, v) != True)
            && (cell.value.None? || ComparePair(cell.dataType, cell.value.value, v).Some? ==>
                  (ComparisonPrunes(h, file, k, op, v) <==> EvalComparison(sql, cell, op, v) != True))
  {
    hide ParseBool, ParseI64, ParseDate32;
    var values := ColumnValues(h.files, k);
    assert values[file] == h.files[file][k];
    InferredValuesParse(h.columns[k], values, file);
  }

  lemma PrunesPartitionColumn(h: HivePartitions, file: nat, k: nat, op: ComparisonOp, v: PredicateValue)
    requires ComparisonPrunes(h, file, k, op, v)
    ensures k < |h.columns|
  {
  }

  /** A pruned file has no row on which the predicate is TRUE. */
  lemma {:induction false} PredicatePrunesSound(sql: Coercion, h: HivePartitions, file: nat, p: ScanPredicate, row: Row)
    requires HiveValid(h) && file < |h.files| && RowOfFile(h, file, row)
    requires PredicatePrunes(h, file, p)
    ensures Eval(sql, row, p) != True
    decreases p
  {
    hide Materialised, ComparePair, ComparisonPrunes, InferredFrom;
    match p {
      case And(all) =>
        var q :| q in all && PredicatePrunes(h, file, q);
        PredicatePrunesSound(sql, h, file, q, row);
      case Or(any) =>
        forall q | q in any ensures Eval(sql, row, q) != True { PredicatePrunesSound(sql, h, file, q, row); }
      case Comparison(column, op, value) =>
        PrunesPartitionColumn(h, file, column - h.physicalColumns, op, value);
        ComparisonPrunesExact(sql, h, file, column - h.physicalColumns, op, value);
      case IsNull(column) => NullTestCell(h, file, column, row);
      case IsNotNull(column) => NullTestCell(h, file, column, row);
    }
  }

  lemma NullTestCell(h: HivePartitions, file: nat, column: nat, row: Row)
    requires HiveValid(h) && file < |h.files| && RowOfFile(h, file, row)
    requires PartitionValue(h, file, column).Some?
    ensures CellAt(row, column).value.Some? <==> PartitionValue(h, file, column).value.Some?
  {
    hide Materialised;
    var k := column - h.physicalColumns;
    assert ColumnValues(h.files, k)[file] == h.files[file][k];
    InferredValuesParse(h.columns[k], ColumnValues(h.files, k), file);
  }

  /** Every leaf tests a partition column, with a literal pruning can compare to its value. */
  ghost predicate Decided(h: HivePartitions, file: nat, p: ScanPredicate)
    requires HiveValid(h) && file < |h.files|
  {
    match p
    case And(all) => forall q :: q in all ==> Decided(h, file, q)
    case Or(any) => forall q :: q in any ==> Decided(h, file, q)
    case IsNull(column) => h.physicalColumns <= column < h.physicalColumns + |h.columns|
    case IsNotNull(column) => h.physicalColumns <= column < h.physicalColumns + |h.columns|
    case Comparison(column, op, value) =>
      && h.physicalColumns <= column < h.physicalColumns + |h.columns|
      && var k := column - h.physicalColumns;
         var cell := Materialised(h.columns[k], h.files[file][k]);
         cell.value.None? || ComparePair(cell.dataType, cell.value.value, value).Some?
  }

  /** For a predicate on partition columns, a file is pruned if and only if none of its rows satisfies it. */
  lemma {:induction false} PredicatePrunesExact(sql: Coercion, h: HivePartitions, file: nat, p: ScanPredicate, row: Row)
    requires HiveValid(h) && file < |h.files| && RowOfFile(h, file, row) && Decided(h, file, p)
    ensures PredicatePrunes(h, file, p) <==> Eval(sql, row, p) != True
    decreases p
  {
    hide Materialised, ComparePair, ComparisonPrunes, InferredFrom;
    match p {
      case And(all) =>
        forall q | q in all ensures PredicatePrunes(h, file, q) <==> Eval(sql, row, q) != True {
          PredicatePrunesExact(sql, h, file, q, row);
        }
      case Or(any) =>
        forall q | q in any ensures PredicatePrunes(h, file, q) <==> Eval(sql, row, q) != True {
          PredicatePrunesExact(sql, h, file, q, row);
        }
      case Comparison(column, op, value) =>
        ComparisonPrunesExact(sql, h, file, column - h.physicalColumns, op, value);
      case IsNull(column) => NullTestCell(h, file, column, row);
      case IsNotNull(column) => NullTestCell(h, file, column, row);
    }
  }
}
