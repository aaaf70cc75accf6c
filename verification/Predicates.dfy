/**
 Scan predicates, the values they compare, and their SQL three-valued meaning.

 A cell holds a value in its file's own type.  `ComparePair` fixes the order for the pairs of column
 type and literal that pruning understands; every other pair is left to an arbitrary `Coercion`, so
 nothing proved here depends on how the engine compares types that pruning ignores.
 */
module Predicates {
  import opened Common

  /** A decimal scale: a signed byte. */
  type Scale = s: int | -128 <= s < 128

  datatype TimeUnit = Second | Millisecond | Microsecond | Nanosecond

  /**
   `Other` stands for every type pruning never looks at, floating point included; `Nested` for the
   structs, lists and maps, of which pruning sees only the leaves.
   */
  datatype DataType =
    | Boolean
    | Int8 | Int16 | Int32 | Int64
    | UInt8 | UInt16 | UInt32 | UInt64
    | Date32
    | Timestamp(unit: TimeUnit, zone: Option<string>)
    | Decimal128(precision: nat, scale: Scale)
    | Utf8 | LargeUtf8
    | Binary | LargeBinary | FixedSizeBinary(width: nat)
    | Nested(tag: nat)
    | Other(tag: nat)

  /** A non-null value: flags, integers (also dates, timestamps, unscaled decimals) and bytes. */
  datatype Datum = Flag(flag: bool) | Whole(whole: int) | Raw(raw: Bytes)

  datatype Cell = Cell(dataType: DataType, value: Option<Datum>)

  predicate InRange(x: int, low: int, high: int) { low <= x <= high }

  /** The values a column of the type can hold. */
  predicate WellTyped(t: DataType, v: Datum) {
    match t
    case Boolean => v.Flag?
    case Int8 => v.Whole? && InRange(v.whole, -128, 127)
    case Int16 => v.Whole? && InRange(v.whole, -32768, 32767)
    case Int32 => v.Whole? && InRange(v.whole, I32_MIN, I32_MAX)
    case Int64 => v.Whole? && InRange(v.whole, I64_MIN, I64_MAX)
    case UInt8 => v.Whole? && InRange(v.whole, 0, 255)
    case UInt16 => v.Whole? && InRange(v.whole, 0, 65535)
    case UInt32 => v.Whole? && InRange(v.whole, 0, U32_MAX)
    case UInt64 => v.Whole? && InRange(v.whole, 0, U64_MAX)
    case Date32 => v.Whole? && InRange(v.whole, I32_MIN, I32_MAX)
    case Timestamp(_, _) => v.Whole? && InRange(v.whole, I64_MIN, I64_MAX)
    case Decimal128(_, _) => v.Whole? && InRange(v.whole, I128_MIN, I128_MAX)
    case Utf8 => v.Raw?
    case LargeUtf8 => v.Raw?
    case Binary => v.Raw?
    case LargeBinary => v.Raw?
    case FixedSizeBinary(width) => v.Raw? && |v.raw| == width
    case Nested(_) => true
    case Other(_) => true
  }

  predicate CellWellTyped(c: Cell) { c.value.Some? ==> WellTyped(c.dataType, c.value.value) }

  datatype PredicateValue =
    | BooleanValue(flag: bool)
    | Int64Value(i: int)
    | UInt64Value(u: int)
    | Utf8Value(text: Bytes)
    | BinaryValue(bytes: Bytes)
    | Date32Value(day: int)
    | TimestampMicros(micros: int)
    | DecimalValue(unscaled: int, precision: nat, scale: Scale)

  datatype ComparisonOp = Eq | NotEq | Lt | LtEq | Gt | GtEq

  datatype ScanPredicate =
    | Comparison(column: nat, op: ComparisonOp, value: PredicateValue)
    | IsNull(column: nat)
    | IsNotNull(column: nat)
    | And(all: seq<ScanPredicate>)
    | Or(any: seq<ScanPredicate>)

  // ---------------------------------------------------------------- orders

  datatype Ordering = Less | Equal | Greater

  function CompareInt(a: int, b: int): Ordering {
    if a < b then Less else if a == b then Equal else Greater
  }

  function FlagRank(b: bool): int { if b then 1 else 0 }

  /** Lexicographic order on bytes. */
  function CompareBytes(a: Bytes, b: Bytes): Ordering
    decreases |a|
  {
    if a == [] then if b == [] then Equal else Less
    else if b == [] then Greater
    else if a[0] < b[0] then Less
    else if a[0] > b[0] then Greater
    else CompareBytes(a[1..], b[1..])
  }

  predicate BytesAtMost(a: Bytes, b: Bytes) { CompareBytes(a, b) != Greater }

  lemma {:induction false} CompareBytesFlip(a: Bytes, b: Bytes)
    ensures CompareBytes(a, b) == Less <==> CompareBytes(b, a) == Greater
    ensures CompareBytes(a, b) == Equal <==> a == b
    decreases |a|
  {
    if a != [] && b != [] && a[0] == b[0] {
      CompareBytesFlip(a[1..], b[1..]);
      assert a == [a[0]] + a[1..] && b == [b[0]] + b[1..];
    }
  }

  lemma {:induction false} CompareBytesTransitive(a: Bytes, b: Bytes, c: Bytes)
    requires BytesAtMost(a, b) && BytesAtMost(b, c)
    ensures BytesAtMost(a, c)
    ensures CompareBytes(a, b) == Less || CompareBytes(b, c) == Less ==> CompareBytes(a, c) == Less
    decreases |a|
  {
    if a != [] && b != [] && c != [] && a[0] == b[0] && b[0] == c[0] {
      CompareBytesTransitive(a[1..], b[1..], c[1..]);
    }
  }

  predicate OpHolds(op: ComparisonOp, o: Ordering) {
    match op
    case Eq => o == Equal
    case NotEq => o != Equal
    case Lt => o == Less
    case LtEq => o != Greater
    case Gt => o == Greater
    case GtEq => o != Less
  }

  // ---------------------------------------------------------------- meaning

  function Pow10(n: nat): (p: int)
    ensures p >= 1
  {
    if n == 0 then 1 else 10 * Pow10(n - 1)
  }

  function NanosPer(unit: TimeUnit): int {
    match unit
    case Second => 1_000_000_000
    case Millisecond => 1_000_000
    case Microsecond => 1_000
    case Nanosecond => 1
  }

  /**
   The order of two decimals as rationals: `a / 10^aScale` against `b / 10^bScale`, with both sides
   multiplied by the positive `10^(aScale + bScale + 256)`.
   */
  function CompareDecimal(a: int, aScale: Scale, b: int, bScale: Scale): Ordering {
    CompareInt(a * Pow10(bScale + 256), b * Pow10(aScale + 256))
  }

  function CompareWhole(d: Datum, v: int): Option<Ordering> {
    if d.Whole? then Some(CompareInt(d.whole, v)) else None
  }

  function CompareRaw(d: Datum, v: Bytes): Option<Ordering> {
    if d.Raw? then Some(CompareBytes(d.raw, v)) else None
  }

  /** The order between a stored value and a literal, for the pairs pruning understands. */
  function ComparePair(t: DataType, d: Datum, v: PredicateValue): Option<Ordering> {
    match (t, v)
    case (Boolean, BooleanValue(b)) =>
      if d.Flag? then Some(CompareInt(FlagRank(d.flag), FlagRank(b))) else None
    case (Int8, Int64Value(i)) => CompareWhole(d, i)
    case (Int16, Int64Value(i)) => CompareWhole(d, i)
    case (Int32, Int64Value(i)) => CompareWhole(d, i)
    case (Int64, Int64Value(i)) => CompareWhole(d, i)
    case (UInt8, UInt64Value(u)) => CompareWhole(d, u)
    case (UInt16, UInt64Value(u)) => CompareWhole(d, u)
    case (UInt32, UInt64Value(u)) => CompareWhole(d, u)
    case (UInt64, UInt64Value(u)) => CompareWhole(d, u)
    case (Date32, Date32Value(day)) => CompareWhole(d, day)
    case (Timestamp(unit, _), TimestampMicros(micros)) =>
      if d.Whole? then Some(CompareInt(d.whole * NanosPer(unit), micros * NanosPer(Microsecond))) else None
    case (Decimal128(_, scale), DecimalValue(unscaled, _, valueScale)) =>
      if d.Whole? then Some(CompareDecimal(d.whole, scale, unscaled, valueScale)) else None
    case (Utf8, Utf8Value(text)) => CompareRaw(d, text)
    case (LargeUtf8, Utf8Value(text)) => CompareRaw(d, text)
    case (Binary, BinaryValue(bytes)) => CompareRaw(d, bytes)
    case (LargeBinary, BinaryValue(bytes)) => CompareRaw(d, bytes)
    case (FixedSizeBinary(_), BinaryValue(bytes)) => CompareRaw(d, bytes)
    case _ => None
  }

  datatype Tri = True | False | Unknown

  function Truth(b: bool): Tri { if b then True else False }

  /** How the engine compares the pairs pruning does not understand: anything at all. */
  type Coercion = (DataType, Datum, ComparisonOp, PredicateValue) -> Tri

  function EvalComparison(sql: Coercion, c: Cell, op: ComparisonOp, v: PredicateValue): Tri {
    if c.value.None? then Unknown
    else
      match ComparePair(c.dataType, c.value.value, v)
      case Some(order) => Truth(OpHolds(op, order))
      case None => sql(c.dataType, c.value.value, op, v)
  }

  type Row = seq<Cell>

  ghost predicate RowWellTyped(row: Row) { forall k :: 0 <= k < |row| ==> CellWellTyped(row[k]) }

  /** A column the table does not have reads as null. */
  function CellAt(row: Row, column: nat): Cell {
    if column < |row| then row[column] else Cell(Other(0), None)
  }

  /** SQL three-valued evaluation; an empty conjunction is TRUE, an empty disjunction FALSE. */
  ghost function Eval(sql: Coercion, row: Row, p: ScanPredicate): Tri
    decreases p
  {
    match p
    case Comparison(column, op, value) => EvalComparison(sql, CellAt(row, column), op, value)
    case IsNull(column) => Truth(CellAt(row, column).value.None?)
    case IsNotNull(column) => Truth(CellAt(row, column).value.Some?)
    case And(all) =>
      if forall q :: q in all ==> Eval(sql, row, q) == True then True
      else if exists q :: q in all && Eval(sql, row, q) == False then False
      else Unknown
    case Or(any) =>
      if exists q :: q in any && Eval(sql, row, q) == True then True
      else if forall q :: q in any ==> Eval(sql, row, q) == False then False
      else Unknown
  }

  /** Whether a tree is TRUE when each leaf is TRUE exactly as `truth` says. */
  ghost predicate TrueUnder(truth: ScanPredicate -> bool, p: ScanPredicate)
    decreases p
  {
    match p
    case And(all) => forall q :: q in all ==> TrueUnder(truth, q)
    case Or(any) => exists q :: q in any && TrueUnder(truth, q)
    case _ => truth(p)
  }

  /** TRUE depends on the leaves only through which of them are TRUE, and more TRUE leaves never hurt. */
  lemma {:induction false} TrueFromLeaves(sql: Coercion, row: Row, p: ScanPredicate, truth: ScanPredicate -> bool)
    requires forall q :: Eval(sql, row, q) == True && !q.And? && !q.Or? ==> truth(q)
    requires Eval(sql, row, p) == True
    ensures TrueUnder(truth, p)
    decreases p
  {
    match p {
      case And(all) => forall q | q in all ensures TrueUnder(truth, q) { TrueFromLeaves(sql, row, q, truth); }
      case Or(any) =>
        var q :| q in any && Eval(sql, row, q) == True;
        TrueFromLeaves(sql, row, q, truth);
      case _ =>
    }
  }
}
