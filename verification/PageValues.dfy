/** Comparing a literal with the bounds of a page or row group. */
module PageValues {
  import opened Common
  import opened Predicates
  import opened Decimals

  // ---------------------------------------------------------------- bounds against a literal

  /** Decides from how the two bounds compare with the literal whether every value fails `op`. */
  predicate ExcludesOrdering(min: Ordering, max: Ordering, minEqualsMax: bool, op: ComparisonOp) {
    match op
    case Eq => min == Greater || max == Less
    case NotEq => minEqualsMax && min == Equal
    case Lt => min == Equal || min == Greater
    case LtEq => min == Greater
    case Gt => max == Equal || max == Less
    case GtEq => max == Less
  }

  predicate ExcludesInt(min: Option<int>, max: Option<int>, op: ComparisonOp, v: int) {
    && min.Some? && max.Some?
    && ExcludesOrdering(CompareInt(min.value, v), CompareInt(max.value, v), min.value == max.value, op)
  }

  predicate ExcludesBytes(min: Option<Bytes>, max: Option<Bytes>, op: ComparisonOp, v: Bytes) {
    && min.Some? && max.Some?
    && ExcludesOrdering(CompareBytes(min.value, v), CompareBytes(max.value, v), min.value == max.value, op)
  }

  lemma IntExample(min: int, max: int, op: ComparisonOp, v: int) returns (x: int)
    requires min <= max && !ExcludesInt(Some(min), Some(max), op, v)
    ensures min <= x <= max && OpHolds(op, CompareInt(x, v))
  {
    x := if op.Eq? then v else if OpHolds(op, CompareInt(min, v)) then min else max;
  }

  lemma BytesExample(min: Bytes, max: Bytes, op: ComparisonOp, v: Bytes) returns (x: Bytes)
    requires BytesAtMost(min, max) && !ExcludesBytes(Some(min), Some(max), op, v)
    ensures BytesAtMost(min, x) && BytesAtMost(x, max) && OpHolds(op, CompareBytes(x, v))
    ensures x == if op.Eq? then v else if OpHolds(op, CompareBytes(min, v)) then min else max
  {
    CompareBytesFlip(min, v);
    CompareBytesFlip(max, v);
    CompareBytesFlip(v, v);
    CompareBytesFlip(min, min);
    CompareBytesFlip(max, max);
    x := if op.Eq? then v else if OpHolds(op, CompareBytes(min, v)) then min else max;
  }

  /** Integer bounds exclude a comparison exactly when no integer between them satisfies it. */
  lemma ExcludesIntExact(min: int, max: int, op: ComparisonOp, v: int)
    requires min <= max
    ensures ExcludesInt(Some(min), Some(max), op, v)
            <==> forall x :: min <= x <= max ==> !OpHolds(op, CompareInt(x, v))
  {
    if !ExcludesInt(Some(min), Some(max), op, v) {
      var example := IntExample(min, max, op, v);
      assert min <= example <= max && OpHolds(op, CompareInt(example, v));
    }
  }

  /** The same for byte strings in lexicographic order. */
  lemma ExcludesBytesExact(min: Bytes, max: Bytes, op: ComparisonOp, v: Bytes)
    requires BytesAtMost(min, max)
    ensures ExcludesBytes(Some(min), Some(max), op, v)
            <==> forall x :: BytesAtMost(min, x) && BytesAtMost(x, max) ==> !OpHolds(op, CompareBytes(x, v))
  {
    if ExcludesBytes(Some(min), Some(max), op, v) {
      forall x | BytesAtMost(min, x) && BytesAtMost(x, max) ensures !OpHolds(op, CompareBytes(x, v)) {
        ExcludesBytesSound(min, max, op, v, x);
      }
    } else {
      var example := BytesExample(min, max, op, v);
      assert BytesAtMost(min, example) && BytesAtMost(example, max) && OpHolds(op, CompareBytes(example, v));
    }
  }

  lemma ExcludesBytesSound(min: Bytes, max: Bytes, op: ComparisonOp, v: Bytes, x: Bytes)
    requires BytesAtMost(min, x) && BytesAtMost(x, max)
    requires ExcludesBytes(Some(min), Some(max), op, v)
    ensures !OpHolds(op, CompareBytes(x, v))
  {
    CompareBytesFlip(min, v);
    CompareBytesFlip(max, v);
    CompareBytesFlip(x, v);
    CompareBytesFlip(min, x);
    CompareBytesFlip(x, max);
    if CompareBytes(v, min) != Greater { CompareBytesTransitive(v, min, x); }
    if CompareBytes(max, v) != Greater { CompareBytesTransitive(x, max, v); }
    CompareBytesFlip(v, x);
  }

  // ---------------------------------------------------------------- page bounds

  datatype PageBounds<+T> = PageBounds(nullPage: bool, nullCount: Option<int>, min: Option<T>, max: Option<T>)

  /** The column index of one column chunk, by physical type. */
  datatype ColumnIndex =
    | NoIndex
    | BooleanIndex(flags: seq<PageBounds<bool>>)
    | Int32Index(ints: seq<PageBounds<int>>)
    | Int64Index(longs: seq<PageBounds<int>>)
    | ByteArrayIndex(arrays: seq<PageBounds<Bytes>>)
    | FixedLenIndex(fixed: seq<PageBounds<Bytes>>)
    | OtherIndex(others: seq<PageBounds<int>>)

  function NumPages(index: ColumnIndex): nat {
    match index
    case NoIndex => 0
    case BooleanIndex(ps) => |ps|
    case Int32Index(ps) => |ps|
    case Int64Index(ps) => |ps|
    case ByteArrayIndex(ps) => |ps|
    case FixedLenIndex(ps) => |ps|
    case OtherIndex(ps) => |ps|
  }

  predicate IsNullPage(index: ColumnIndex, page: nat)
    requires page < NumPages(index)
  {
    match index
    case BooleanIndex(ps) => ps[page].nullPage
    case Int32Index(ps) => ps[page].nullPage
    case Int64Index(ps) => ps[page].nullPage
    case ByteArrayIndex(ps) => ps[page].nullPage
    case FixedLenIndex(ps) => ps[page].nullPage
    case OtherIndex(ps) => ps[page].nullPage
  }

  function NullCount(index: ColumnIndex, page: nat): Option<int>
    requires page < NumPages(index)
  {
    match index
    case BooleanIndex(ps) => ps[page].nullCount
    case Int32Index(ps) => ps[page].nullCount
    case Int64Index(ps) => ps[page].nullCount
    case ByteArrayIndex(ps) => ps[page].nullCount
    case FixedLenIndex(ps) => ps[page].nullCount
    case OtherIndex(ps) => ps[page].nullCount
  }

  /** Reinterpreting a signed integer of `2^bits == modulus` values as unsigned. */
  function AsUnsigned(x: int, modulus: int): int { if x < 0 then x + modulus else x }

  const TWO_32: int := U32_MAX + 1
  const TWO_64: int := U64_MAX + 1

  function MapUnsigned(x: Option<int>, modulus: int): Option<int> {
    if x.Some? then Some(AsUnsigned(x.value, modulus)) else None
  }

  function MapScaled(x: Option<int>, scale: int): Option<int> {
    if x.Some? then Some(x.value * scale) else None
  }

  function MapFlag(x: Option<bool>): Option<int> {
    if x.Some? then Some(FlagRank(x.value)) else None
  }

  /** A stored decimal bound counts only at the width its precision requires. */
  function MapDecimal(x: Option<Bytes>, width: nat): Option<int> {
    if x.Some? && |x.value| == width then Decode(x.value) else None
  }

  predicate DecimalExcludes(min: Option<int>, max: Option<int>, op: ComparisonOp, v: PredicateValue, fileScale: Scale)
    requires v.DecimalValue?
  {
    var literal := RescaleDecimal(v.unscaled, v.scale, fileScale);
    literal.Some? && ExcludesInt(min, max, op, literal.value)
  }

  /** Whether the bounds of `page` prove that no value in it satisfies the comparison. */
  predicate ComparisonExcludes(index: ColumnIndex, t: DataType, op: ComparisonOp, v: PredicateValue, page: nat)
    requires page < NumPages(index)
  {
    match index
    case BooleanIndex(ps) =>
      t.Boolean? && v.BooleanValue? && ExcludesInt(MapFlag(ps[page].min), MapFlag(ps[page].max), op, FlagRank(v.flag))
    case Int32Index(ps) => Int32Excludes(ps[page], t, op, v)
    case Int64Index(ps) => Int64Excludes(ps[page], t, op, v)
    case ByteArrayIndex(ps) =>
      if t.Utf8? || t.LargeUtf8? then v.Utf8Value? && ExcludesBytes(ps[page].min, ps[page].max, op, v.text)
      else (t.Binary? || t.LargeBinary?) && v.BinaryValue? && ExcludesBytes(ps[page].min, ps[page].max, op, v.bytes)
    case FixedLenIndex(ps) => FixedLenExcludes(ps[page], t, op, v)
    case _ => false
  }

  predicate Int32Excludes(p: PageBounds<int>, t: DataType, op: ComparisonOp, v: PredicateValue) {
    match t
    case Int8 => SmallIntExcludes(p, op, v)
    case Int16 => SmallIntExcludes(p, op, v)
    case Int32 => SmallIntExcludes(p, op, v)
    case UInt8 => SmallUIntExcludes(p, op, v)
    case UInt16 => SmallUIntExcludes(p, op, v)
    case UInt32 => SmallUIntExcludes(p, op, v)
    case Date32 => v.Date32Value? && ExcludesInt(p.min, p.max, op, v.day)
    case Decimal128(_, scale) => v.DecimalValue? && DecimalExcludes(p.min, p.max, op, v, scale)
    case _ => false
  }

  predicate SmallIntExcludes(p: PageBounds<int>, op: ComparisonOp, v: PredicateValue) {
    v.Int64Value? && InRange(v.i, I32_MIN, I32_MAX) && ExcludesInt(p.min, p.max, op, v.i)
  }

  predicate SmallUIntExcludes(p: PageBounds<int>, op: ComparisonOp, v: PredicateValue) {
    && v.UInt64Value? && InRange(v.u, 0, U32_MAX)
    && ExcludesInt(MapUnsigned(p.min, TWO_32), MapUnsigned(p.max, TWO_32), op, v.u)
  }

  predicate Int64Excludes(p: PageBounds<int>, t: DataType, op: ComparisonOp, v: PredicateValue) {
    match t
    case Int64 => v.Int64Value? && ExcludesInt(p.min, p.max, op, v.i)
    case UInt64 => v.UInt64Value? && ExcludesInt(MapUnsigned(p.min, TWO_64), MapUnsigned(p.max, TWO_64), op, v.u)
    case Decimal128(_, scale) => v.DecimalValue? && DecimalExcludes(p.min, p.max, op, v, scale)
    case Timestamp(unit, _) =>
      && v.TimestampMicros?
      && ExcludesInt(MapScaled(p.min, NanosPer(unit)), MapScaled(p.max, NanosPer(unit)), op, v.micros * 1_000)
    case _ => false
  }

  predicate FixedLenExcludes(p: PageBounds<Bytes>, t: DataType, op: ComparisonOp, v: PredicateValue) {
    match t
    case FixedSizeBinary(_) => v.BinaryValue? && ExcludesBytes(p.min, p.max, op, v.bytes)
    case Decimal128(precision, scale) =>
      var width := DecimalByteWidth(precision);
      && v.DecimalValue? && width.Some?
      && DecimalExcludes(MapDecimal(p.min, width.value), MapDecimal(p.max, width.value), op, v, scale)
    case _ => false
  }

  // ---------------------------------------------------------------- the bounds contract

  predicate BetweenInt(min: Option<int>, max: Option<int>, x: int) {
    (min.Some? ==> min.value <= x) && (max.Some? ==> x <= max.value)
  }

  predicate BetweenBytes(min: Option<Bytes>, max: Option<Bytes>, x: Bytes) {
    (min.Some? ==> BytesAtMost(min.value, x)) && (max.Some? ==> BytesAtMost(x, max.value))
  }

  /**
   The contract of a page's bounds: they enclose the value in the column order of its logical type.
   Unsigned types order their raw integers as unsigned, decimals as two's-complement integers.
   */
  predicate WithinBounds(index: ColumnIndex, t: DataType, page: nat, d: Datum)
    requires page < NumPages(index)
  {
    match index
    case BooleanIndex(ps) =>
      t.Boolean? && d.Flag? ==> BetweenInt(MapFlag(ps[page].min), MapFlag(ps[page].max), FlagRank(d.flag))
    case Int32Index(ps) =>
      ReadsInt32(t) && d.Whole? ==> EncloseInts(ps[page].min, ps[page].max, IsUInt32(t), TWO_32, d.whole)
    case Int64Index(ps) =>
      ReadsInt64(t) && d.Whole? ==> EncloseInts(ps[page].min, ps[page].max, t.UInt64?, TWO_64, d.whole)
    case ByteArrayIndex(ps) => ReadsBytes(t) && d.Raw? ==> BetweenBytes(ps[page].min, ps[page].max, d.raw)
    case FixedLenIndex(ps) => WithinFixed(ps[page], t, d)
    case _ => true
  }

  predicate IsUInt32(t: DataType) { t.UInt8? || t.UInt16? || t.UInt32? }

  /** The types whose values a 32-bit integer column holds. */
  predicate ReadsInt32(t: DataType) {
    t.Int8? || t.Int16? || t.Int32? || IsUInt32(t) || t.Date32? || t.Decimal128?
  }

  predicate ReadsInt64(t: DataType) { t.Int64? || t.UInt64? || t.Timestamp? || t.Decimal128? }

  predicate ReadsBytes(t: DataType) { t.Utf8? || t.LargeUtf8? || t.Binary? || t.LargeBinary? }

  predicate EncloseInts(min: Option<int>, max: Option<int>, unsigned: bool, modulus: int, x: int) {
    if unsigned then BetweenInt(MapUnsigned(min, modulus), MapUnsigned(max, modulus), x) else BetweenInt(min, max, x)
  }

  predicate WithinFixed(p: PageBounds<Bytes>, t: DataType, d: Datum) {
    && (t.Decimal128? && d.Whole? ==> BetweenInt(DecodeBound(p.min), DecodeBound(p.max), d.whole))
    && (t.FixedSizeBinary? && d.Raw? ==> BetweenBytes(p.min, p.max, d.raw))
  }

  function DecodeBound(x: Option<Bytes>): Option<int> {
    if x.Some? && 1 <= |x.value| <= 16 then Some(TwosComplement(x.value)) else None
  }

  // ---------------------------------------------------------------- soundness

  lemma ScaledBetween(min: Option<int>, max: Option<int>, x: int, scale: int)
    requires BetweenInt(min, max, x) && scale > 0
    ensures BetweenInt(MapScaled(min, scale), MapScaled(max, scale), x * scale)
  {
    if min.Some? { Multiply(scale, min.value, x); }
    if max.Some? { Multiply(scale, x, max.value); }
  }

  lemma ExcludesIntSound(min: Option<int>, max: Option<int>, op: ComparisonOp, v: int, x: int)
    requires BetweenInt(min, max, x) && ExcludesInt(min, max, op, v)
    ensures !OpHolds(op, CompareInt(x, v))
  {
  }

  lemma DecimalExcludesSound(min: Option<int>, max: Option<int>, op: ComparisonOp, v: PredicateValue, scale: Scale, x: int)
    requires v.DecimalValue?
    requires BetweenInt(min, max, x) && DecimalExcludes(min, max, op, v, scale)
    ensures !OpHolds(op, CompareDecimal(x, scale, v.unscaled, v.scale))
  {
    RescaledComparison(x, scale, v.unscaled, v.scale);
    ExcludesIntSound(min, max, op, RescaleDecimal(v.unscaled, v.scale, scale).value, x);
  }

  lemma MapDecimalBetween(p: PageBounds<Bytes>, width: nat, x: int)
    requires BetweenInt(DecodeBound(p.min), DecodeBound(p.max), x)
    ensures BetweenInt(MapDecimal(p.min, width), MapDecimal(p.max, width), x)
  {
    if p.min.Some? { DecodeIsTwosComplement(p.min.value); }
    if p.max.Some? { DecodeIsTwosComplement(p.max.value); }
  }

  lemma FixedLenSound(p: PageBounds<Bytes>, t: DataType, op: ComparisonOp, v: PredicateValue, d: Datum)
    requires WellTyped(t, d) && FixedLenExcludes(p, t, op, v)
    requires WithinFixed(p, t, d)
    ensures var order := ComparePair(t, d, v); order.Some? && !OpHolds(op, order.value)
  {
    if t.Decimal128? {
      var width := DecimalByteWidth(t.precision).value;
      MapDecimalBetween(p, width, d.whole);
      DecimalExcludesSound(MapDecimal(p.min, width), MapDecimal(p.max, width), op, v, t.scale, d.whole);
    } else {
      ExcludesBytesSound(p.min.value, p.max.value, op, v.bytes, d.raw);
    }
  }

  lemma Int64Sound(p: PageBounds<int>, t: DataType, op: ComparisonOp, v: PredicateValue, d: Datum)
    requires WellTyped(t, d) && Int64Excludes(p, t, op, v)
    requires d.Whole? ==> EncloseInts(p.min, p.max, t.UInt64?, TWO_64, d.whole)
    ensures var order := ComparePair(t, d, v); order.Some? && !OpHolds(op, order.value)
  {
    if t.Decimal128? {
      DecimalExcludesSound(p.min, p.max, op, v, t.scale, d.whole);
    } else if t.Timestamp? {
      ScaledBetween(p.min, p.max, d.whole, NanosPer(t.unit));
      ExcludesIntSound(MapScaled(p.min, NanosPer(t.unit)), MapScaled(p.max, NanosPer(t.unit)),
                       op, v.micros * 1_000, d.whole * NanosPer(t.unit));
    }
  }

  lemma Int32Sound(p: PageBounds<int>, t: DataType, op: ComparisonOp, v: PredicateValue, d: Datum)
    requires WellTyped(t, d) && Int32Excludes(p, t, op, v)
    requires d.Whole? ==> EncloseInts(p.min, p.max, IsUInt32(t), TWO_32, d.whole)
    ensures var order := ComparePair(t, d, v); order.Some? && !OpHolds(op, order.value)
  {
    if t.Decimal128? { DecimalExcludesSound(p.min, p.max, op, v, t.scale, d.whole); }
  }

  /** An excluded page holds no value on which the comparison is TRUE: on every value it is FALSE. */
  lemma ComparisonExcludesSound(sql: Coercion, index: ColumnIndex, c: Cell, op: ComparisonOp, v: PredicateValue, page: nat)
    requires page < NumPages(index) && CellWellTyped(c)
    requires c.value.Some? ==> WithinBounds(index, c.dataType, page, c.value.value)
    requires ComparisonExcludes(index, c.dataType, op, v, page)
    ensures EvalComparison(sql, c, op, v) == if c.value.Some? then False else Unknown
  {
    if c.value.Some? {
      var t, d := c.dataType, c.value.value;
      match index {
        case Int32Index(ps) => Int32Sound(ps[page], t, op, v, d);
        case Int64Index(ps) => Int64Sound(ps[page], t, op, v, d);
        case FixedLenIndex(ps) => FixedLenSound(ps[page], t, op, v, d);
        case BooleanIndex(_) =>
        case ByteArrayIndex(ps) =>
          var literal := if v.Utf8Value? then v.text else v.bytes;
          ExcludesBytesSound(ps[page].min.value, ps[page].max.value, op, literal, d.raw);
      }
    }
  }

  // ---------------------------------------------------------------- exactness

  lemma ScaledExample(min: int, max: int, scale: int, op: ComparisonOp, v: int) returns (x: int)
    requires min <= max && scale > 0 && (op.Eq? ==> v % scale == 0)
    requires !ExcludesInt(Some(min * scale), Some(max * scale), op, v)
    ensures min <= x <= max && OpHolds(op, CompareInt(x * scale, v))
  {
    if op.Eq? {
      x := v / scale;
      assert x * scale == v;
      if x < min { Multiply(scale, x + 1, min); }
      if max < x { Multiply(scale, max + 1, x); }
    } else {
      Multiply(scale, min, max);
      x := if OpHolds(op, CompareInt(min * scale, v)) then min else max;
    }
  }

  ghost predicate IntBounds(t: DataType, min: Option<int>, max: Option<int>) {
    && min.Some? && max.Some? && min.value <= max.value
    && WellTyped(t, Whole(min.value)) && WellTyped(t, Whole(max.value))
  }

  ghost predicate BytesBounds(t: DataType, min: Option<Bytes>, max: Option<Bytes>, op: ComparisonOp, v: Bytes) {
    && min.Some? && max.Some? && BytesAtMost(min.value, max.value)
    && WellTyped(t, Raw(min.value)) && WellTyped(t, Raw(max.value)) && (op.Eq? ==> WellTyped(t, Raw(v)))
  }

  /**
   The page has both bounds, in the column's own order, and the literal is one the code can place
   between them: for equality it must also be a value the column could hold.
   */
  ghost predicate Decidable(index: ColumnIndex, t: DataType, op: ComparisonOp, v: PredicateValue, page: nat)
    requires page < NumPages(index)
  {
    match index
    case BooleanIndex(ps) =>
      && t.Boolean? && v.BooleanValue? && ps[page].min.Some? && ps[page].max.Some?
      && FlagRank(ps[page].min.value) <= FlagRank(ps[page].max.value)
    case Int32Index(ps) =>
      || ((t.Int8? || t.Int16? || t.Int32?) && v.Int64Value? && InRange(v.i, I32_MIN, I32_MAX)
          && IntBounds(t, ps[page].min, ps[page].max))
      || ((t.UInt8? || t.UInt16? || t.UInt32?) && v.UInt64Value? && InRange(v.u, 0, U32_MAX)
          && IntBounds(t, MapUnsigned(ps[page].min, TWO_32), MapUnsigned(ps[page].max, TWO_32)))
      || (t.Date32? && v.Date32Value? && IntBounds(t, ps[page].min, ps[page].max))
      || DecimalDecidable(t, v, ps[page].min, ps[page].max)
    case Int64Index(ps) =>
      || (t.Int64? && v.Int64Value? && IntBounds(t, ps[page].min, ps[page].max))
      || (t.UInt64? && v.UInt64Value?
          && IntBounds(t, MapUnsigned(ps[page].min, TWO_64), MapUnsigned(ps[page].max, TWO_64)))
      || (t.Timestamp? && v.TimestampMicros? && IntBounds(t, ps[page].min, ps[page].max)
          && (op.Eq? ==> v.micros * 1_000 % NanosPer(t.unit) == 0))
      || DecimalDecidable(t, v, ps[page].min, ps[page].max)
    case ByteArrayIndex(ps) =>
      || ((t.Utf8? || t.LargeUtf8?) && v.Utf8Value? && BytesBounds(t, ps[page].min, ps[page].max, op, v.text))
      || ((t.Binary? || t.LargeBinary?) && v.BinaryValue? && BytesBounds(t, ps[page].min, ps[page].max, op, v.bytes))
    case FixedLenIndex(ps) =>
      || (t.FixedSizeBinary? && v.BinaryValue? && BytesBounds(t, ps[page].min, ps[page].max, op, v.bytes))
      || (t.Decimal128? && DecimalByteWidth(t.precision).Some?
          && var width := DecimalByteWidth(t.precision).value;
             DecimalDecidable(t, v, MapDecimal(ps[page].min, width), MapDecimal(ps[page].max, width)))
    case _ => false
  }

  ghost predicate DecimalDecidable(t: DataType, v: PredicateValue, min: Option<int>, max: Option<int>) {
    && t.Decimal128? && v.DecimalValue? && IntBounds(t, min, max)
    && RescaleDecimal(v.unscaled, v.scale, t.scale).Some?
  }

  lemma DecimalExample(t: DataType, op: ComparisonOp, v: PredicateValue, min: Option<int>, max: Option<int>)
    returns (x: int)
    requires DecimalDecidable(t, v, min, max) && !DecimalExcludes(min, max, op, v, t.scale)
    ensures min.value <= x <= max.value && OpHolds(op, CompareDecimal(x, t.scale, v.unscaled, v.scale))
  {
    x := IntExample(min.value, max.value, op, RescaleDecimal(v.unscaled, v.scale, t.scale).value);
    RescaledComparison(x, t.scale, v.unscaled, v.scale);
  }

  /** A value between the bounds that satisfies the comparison. */
  ghost predicate IsExample(index: ColumnIndex, t: DataType, op: ComparisonOp, v: PredicateValue, page: nat, d: Datum)
    requires page < NumPages(index)
  {
    && WellTyped(t, d) && WithinBounds(index, t, page, d)
    && ComparePair(t, d, v).Some? && OpHolds(op, ComparePair(t, d, v).value)
  }

  lemma Int32Example(ps: seq<PageBounds<int>>, t: DataType, op: ComparisonOp, v: PredicateValue, page: nat)
    returns (d: Datum)
    requires page < |ps| && Decidable(Int32Index(ps), t, op, v, page) && !Int32Excludes(ps[page], t, op, v)
    ensures IsExample(Int32Index(ps), t, op, v, page, d)
  {
    var p := ps[page];
    var x: int;
    if t.Decimal128? {
      x := DecimalExample(t, op, v, p.min, p.max);
    } else if t.UInt8? || t.UInt16? || t.UInt32? {
      x := IntExample(AsUnsigned(p.min.value, TWO_32), AsUnsigned(p.max.value, TWO_32), op, v.u);
    } else {
      x := IntExample(p.min.value, p.max.value, op, if t.Date32? then v.day else v.i);
    }
    d := Whole(x);
  }

  lemma Int64Example(ps: seq<PageBounds<int>>, t: DataType, op: ComparisonOp, v: PredicateValue, page: nat)
    returns (d: Datum)
    requires page < |ps| && Decidable(Int64Index(ps), t, op, v, page) && !Int64Excludes(ps[page], t, op, v)
    ensures IsExample(Int64Index(ps), t, op, v, page, d)
  {
    var p := ps[page];
    var x: int;
    if t.Decimal128? {
      x := DecimalExample(t, op, v, p.min, p.max);
    } else if t.Timestamp? {
      x := ScaledExample(p.min.value, p.max.value, NanosPer(t.unit), op, v.micros * 1_000);
    } else if t.UInt64? {
      x := IntExample(AsUnsigned(p.min.value, TWO_64), AsUnsigned(p.max.value, TWO_64), op, v.u);
    } else {
      x := IntExample(p.min.value, p.max.value, op, v.i);
    }
    d := Whole(x);
  }

  lemma FixedLenExample(ps: seq<PageBounds<Bytes>>, t: DataType, op: ComparisonOp, v: PredicateValue, page: nat)
    returns (d: Datum)
    requires page < |ps| && Decidable(FixedLenIndex(ps), t, op, v, page) && !FixedLenExcludes(ps[page], t, op, v)
    ensures IsExample(FixedLenIndex(ps), t, op, v, page, d)
  {
    var p := ps[page];
    if t.Decimal128? {
      var width := DecimalByteWidth(t.precision).value;
      DecodeIsTwosComplement(p.min.value);
      DecodeIsTwosComplement(p.max.value);
      var x := DecimalExample(t, op, v, MapDecimal(p.min, width), MapDecimal(p.max, width));
      d := Whole(x);
    } else {
      var x := BytesExample(p.min.value, p.max.value, op, v.bytes);
      d := Raw(x);
    }
  }

  /** On decidable pages the test is exact: it excludes a page if and only if no value between the bounds can match. */
  lemma ComparisonExcludesExact(sql: Coercion, index: ColumnIndex, t: DataType, op: ComparisonOp, v: PredicateValue,
                                page: nat)
    requires page < NumPages(index) && Decidable(index, t, op, v, page)
    ensures ComparisonExcludes(index, t, op, v, page)
            <==> forall d :: WellTyped(t, d) && WithinBounds(index, t, page, d) ==>
                   EvalComparison(sql, Cell(t, Some(d)), op, v) == False
  {
    hide ComparisonExcludes, Decidable, WellTyped, WithinBounds, ComparePair;
    if ComparisonExcludes(index, t, op, v, page) {
      forall d | WellTyped(t, d) && WithinBounds(index, t, page, d)
        ensures EvalComparison(sql, Cell(t, Some(d)), op, v) == False
      {
        ComparisonExcludesSound(sql, index, Cell(t, Some(d)), op, v, page);
      }
    } else {
      var d := PageExample(index, t, op, v, page);
      assert EvalComparison(sql, Cell(t, Some(d)), op, v) == True;
    }
  }

  lemma PageExample(index: ColumnIndex, t: DataType, op: ComparisonOp, v: PredicateValue, page: nat) returns (d: Datum)
    requires page < NumPages(index) && Decidable(index, t, op, v, page)
    requires !ComparisonExcludes(index, t, op, v, page)
    ensures IsExample(index, t, op, v, page, d)
  {
    match index {
      case Int32Index(ps) => d := Int32Example(ps, t, op, v, page);
      case Int64Index(ps) => d := Int64Example(ps, t, op, v, page);
      case FixedLenIndex(ps) => d := FixedLenExample(ps, t, op, v, page);
      case BooleanIndex(ps) =>
        var x := IntExample(FlagRank(ps[page].min.value), FlagRank(ps[page].max.value), op, FlagRank(v.flag));
        d := Flag(x == 1);
      case ByteArrayIndex(ps) =>
        var x := BytesExample(ps[page].min.value, ps[page].max.value, op, if v.Utf8Value? then v.text else v.bytes);
        d := Raw(x);
    }
  }
}
