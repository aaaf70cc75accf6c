/** Skipping row groups whose Bloom filters rule out every value an equality asks for. */
module Bloom {
  import opened Common
  import opened Predicates
  import opened Decimals
  import opened PageValues
  import opened ParquetFiles
  import opened PagePruning
  import opened RowGroupPruning

  /** A literal as the column would store it, or a literal no column value can equal. */
  datatype BloomValue = Key(key: BloomKey) | DefinitelyAbsent

  function NewBloomValue(t: DataType, v: PredicateValue): Option<BloomValue> {
    match v
    case Int64Value(i) =>
      if t.Int8? || t.Int16? || t.Int32? then
        Some(if InRange(i, I32_MIN, I32_MAX) then Key(Key32(i)) else DefinitelyAbsent)
      else if t.Int64? then Some(Key(Key64(i)))
      else None
    case UInt64Value(u) =>
      if t.UInt8? || t.UInt16? || t.UInt32? then
        Some(if InRange(u, 0, U32_MAX) then Key(Key32(AsSigned(u, TWO_32))) else DefinitelyAbsent)
      else if t.UInt64? then Some(Key(Key64(AsSigned(u, TWO_64))))
      else None
    case Date32Value(day) => if t.Date32? then Some(Key(Key32(day))) else None
    case TimestampMicros(micros) =>
      if t.Timestamp? then
        match TimestampPhysical(micros, t.unit)
        case Some(stored) => Some(Key(Key64(stored)))
        case None => Some(DefinitelyAbsent)
      else None
    case Utf8Value(text) => if t.Utf8? || t.LargeUtf8? then Some(Key(KeyBytes(text))) else None
    case BinaryValue(bytes) =>
      if t.Binary? || t.LargeBinary? || t.FixedSizeBinary? then Some(Key(KeyBytes(bytes))) else None
    case _ => None
  }

  /**
   The encodings are faithful: a stored value equals the literal exactly when the literal has a key
   and it is the value's own key.  Unsigned values are hashed reinterpreted as signed, inexact
   timestamps and values out of range have no key.
   */
  lemma BloomValueIsFaithful(t: DataType, d: Datum, v: PredicateValue)
    requires WellTyped(t, d) && NewBloomValue(t, v).Some?
    requires v.UInt64Value? ==> InRange(v.u, 0, U64_MAX)
    ensures ComparePair(t, d, v) == Some(Equal) <==> NewBloomValue(t, v) == Some(Key(StoredKey(t, d)))
  {
    EqualValuesShareKey(t, d, v);
    if t.Timestamp? {
      TimestampPhysicalIsExact(v.micros, t.unit, d.whole);
    } else if d.Raw? {
      CompareBytesFlip(d.raw, if v.Utf8Value? then v.text else v.bytes);
    }
  }

  /** What pruning needs of it: an equal value is hashed under the literal's key. */
  lemma EqualValuesShareKey(t: DataType, d: Datum, v: PredicateValue)
    requires WellTyped(t, d) && NewBloomValue(t, v).Some?
    ensures ComparePair(t, d, v).Some?
    ensures ComparePair(t, d, v) == Some(Equal) ==> NewBloomValue(t, v) == Some(Key(StoredKey(t, d)))
  {
    if t.Timestamp? {
      TimestampPhysicalIsExact(v.micros, t.unit, d.whole);
    } else if d.Raw? {
      CompareBytesFlip(d.raw, if v.Utf8Value? then v.text else v.bytes);
    }
  }

  // ---------------------------------------------------------------- equality groups

  predicate IsEquality(p: ScanPredicate) { p.Comparison? && p.op.Eq? }

  /** A disjunction of equalities on one column. */
  predicate IsSameColumn(ps: seq<ScanPredicate>) {
    ps != [] && IsEquality(ps[0]) && forall q :: q in ps ==> IsEquality(q) && q.column == ps[0].column
  }

  method SameColumnEqualities(predicates: seq<ScanPredicate>) returns (group: Option<seq<ScanPredicate>>)
    ensures group == if IsSameColumn(predicates) then Some(predicates) else None
  {
    var output: seq<ScanPredicate> := [];
    var expected: Option<nat> := None;
    for n := 0 to |predicates|
      invariant output == predicates[..n]
      invariant n > 0 ==> IsEquality(predicates[0]) && expected == Some(predicates[0].column)
      invariant n == 0 ==> expected == None
      invariant forall q :: q in predicates[..n] ==> IsEquality(q) && q.column == predicates[0].column
    {
      var p := predicates[n];
      assert p in predicates;
      if !IsEquality(p) { return None; }
      if expected.Some? && expected.value != p.column { return None; }
      expected := Some(p.column);
      output := output + [p];
      assert predicates[..n + 1] == predicates[..n] + [p];
    }
    assert predicates[..|predicates|] == predicates;
    return if output != [] then Some(output) else None;
  }

  /** The groups of equalities of which one must hold for the predicate to hold. */
  function EqualityGroups(p: ScanPredicate): seq<seq<ScanPredicate>>
    decreases p, 1
  {
    match p
    case And(all) => EqualityGroupsOf(all)
    case Or(any) => if IsSameColumn(any) then [any] else []
    case Comparison(_, Eq, _) => [[p]]
    case _ => []
  }

  function EqualityGroupsOf(ps: seq<ScanPredicate>): seq<seq<ScanPredicate>>
    decreases ps, 0
  {
    if ps == [] then [] else EqualityGroups(ps[0]) + EqualityGroupsOf(ps[1..])
  }

  lemma {:induction false} EqualityGroupsOfAppend(ps: seq<ScanPredicate>, p: ScanPredicate)
    ensures EqualityGroupsOf(ps + [p]) == EqualityGroupsOf(ps) + EqualityGroups(p)
    decreases |ps|
  {
    if ps == [] {
      assert ps + [p] == [p];
      assert [p][1..] == [];
      assert EqualityGroupsOf([]) == [];
    } else {
      assert (ps + [p])[1..] == ps[1..] + [p];
      EqualityGroupsOfAppend(ps[1..], p);
    }
  }

  method CollectEqualityGroups(p: ScanPredicate, collected: seq<seq<ScanPredicate>>)
    returns (output: seq<seq<ScanPredicate>>)
    ensures output == collected + EqualityGroups(p)
    decreases p
  {
    output := collected;
    match p {
      case And(all) =>
        for n := 0 to |all|
          invariant output == collected + EqualityGroupsOf(all[..n])
        {
          output := CollectEqualityGroups(all[n], output);
          EqualityGroupsOfAppend(all[..n], all[n]);
          assert all[..n + 1] == all[..n] + [all[n]];
        }
        assert all[..|all|] == all;
      case Or(any) =>
        var group := SameColumnEqualities(any);
        if group.Some? { output := output + [group.value]; }
      case Comparison(_, op, _) =>
        if op.Eq? { output := output + [[p]]; }
      case _ =>
    }
  }

  /** Where the predicate is TRUE, some member of every group is TRUE. */
  lemma {:induction false} GroupsAreNecessary(sql: Coercion, row: Row, p: ScanPredicate, group: seq<ScanPredicate>)
    requires Eval(sql, row, p) == True && group in EqualityGroups(p)
    ensures exists q :: q in group && IsEquality(q) && Eval(sql, row, q) == True
    decreases p, 1
  {
    match p {
      case And(all) => GroupsOfAreNecessary(sql, row, all, group);
      case Or(any) =>
      case Comparison(_, _, _) => assert p in group;
    }
  }

  lemma {:induction false} GroupsOfAreNecessary(sql: Coercion, row: Row, ps: seq<ScanPredicate>,
                                                group: seq<ScanPredicate>)
    requires (forall q :: q in ps ==> Eval(sql, row, q) == True) && group in EqualityGroupsOf(ps)
    ensures exists q :: q in group && IsEquality(q) && Eval(sql, row, q) == True
    decreases ps, 0
  {
    if group in EqualityGroups(ps[0]) {
      GroupsAreNecessary(sql, row, ps[0], group);
    } else {
      GroupsOfAreNecessary(sql, row, ps[1..], group);
    }
  }

  ghost predicate Contributes(c: ScanPredicate, group: seq<ScanPredicate>) {
    (IsEquality(c) && group == [c]) || (c.Or? && IsSameColumn(c.any) && group == c.any)
  }

  /** The groups are exactly the equalities and the same-column disjunctions among the conjuncts. */
  lemma {:induction false} GroupsAreConjuncts(p: ScanPredicate, group: seq<ScanPredicate>)
    ensures group in EqualityGroups(p) <==> exists c :: c in Conjuncts(p) && Contributes(c, group)
    decreases p, 1
  {
    if p.And? {
      GroupsOfAreConjuncts(p.all, group);
    } else {
      assert p in Conjuncts(p);
    }
  }

  lemma {:induction false} GroupsOfAreConjuncts(ps: seq<ScanPredicate>, group: seq<ScanPredicate>)
    ensures group in EqualityGroupsOf(ps) <==> exists c :: c in ConjunctsOf(ps) && Contributes(c, group)
    decreases ps, 0
  {
    if ps != [] {
      GroupsAreConjuncts(ps[0], group);
      GroupsOfAreConjuncts(ps[1..], group);
    }
  }

  // ---------------------------------------------------------------- asking the filter

  /** Absent, perhaps present, unknown, or a corrupt filter. */
  datatype Answer = Absent | MaybePresent | NotKnown | CorruptFilter

  function EqualityAnswer(v: GroupView, p: ScanPredicate): Answer {
    if !p.Comparison? then NotKnown
    else
      match ColumnLeaf(v.file, v.table, p.column)
      case None => NotKnown
      case Some((f, leaf)) =>
        match NewBloomValue(v.file.schema[f].dataType, p.value)
        case None => NotKnown
        case Some(DefinitelyAbsent) => Absent
        case Some(Key(key)) =>
          if leaf !in v.group.blooms then NotKnown
          else
            match v.group.blooms[leaf]
            case Unavailable => NotKnown
            case Corrupt => CorruptFilter
            case Loaded(check) => if check(key) then MaybePresent else Absent
  }

  /** An equality the filter rules out is TRUE on no row of the group. */
  lemma AbsentSound(sql: Coercion, v: GroupView, p: ScanPredicate, row: int)
    requires ViewValid(v) && 0 <= row < v.Rows() && IsEquality(p) && EqualityAnswer(v, p).Absent?
    ensures Eval(sql, RowAt(v, row), p) != True
  {
    ColumnCell(v, p.column, row);
    var c := CellAt(RowAt(v, row), p.column);
    if c.value.Some? {
      EqualValuesShareKey(c.dataType, c.value.value, p.value);
    }
  }

  predicate AllAbsent(v: GroupView, group: seq<ScanPredicate>) {
    forall q :: q in group ==> EqualityAnswer(v, q).Absent?
  }

  /** If some equality group is wholly absent, the predicate is TRUE on no row of the group. */
  lemma AllAbsentSound(sql: Coercion, v: GroupView, p: ScanPredicate, group: seq<ScanPredicate>, row: int)
    requires ViewValid(v) && 0 <= row < v.Rows()
    requires group in EqualityGroups(p) && AllAbsent(v, group)
    ensures Eval(sql, RowAt(v, row), p) != True
  {
    if Eval(sql, RowAt(v, row), p) == True {
      GroupsAreNecessary(sql, RowAt(v, row), p, group);
      var q :| q in group && IsEquality(q) && Eval(sql, RowAt(v, row), q) == True;
      AbsentSound(sql, v, q, row);
    }
  }

  /**
   Prunes when some group is wholly absent.  A group is abandoned at its first member that may be
   present or is unknown, so a corrupt filter is an error only if it is reached.
   */
  method BloomPrunes(v: GroupView, predicate_: Option<ScanPredicate>) returns (r: Result<bool, ()>)
    ensures predicate_.None? ==> r == Ok(false)
    ensures predicate_.Some? && r.Ok? ==>
              r.value == exists g :: g in EqualityGroups(predicate_.value) && AllAbsent(v, g)
    ensures r.Err? ==>
              && predicate_.Some?
              && exists g, q :: g in EqualityGroups(predicate_.value) && q in g && EqualityAnswer(v, q).CorruptFilter?
  {
    if predicate_.None? { return Ok(false); }
    var groups := CollectEqualityGroups(predicate_.value, []);
    for n := 0 to |groups|
      invariant forall g :: g in groups[..n] ==> !AllAbsent(v, g)
    {
      var group := groups[n];
      assert group in groups;
      var allAbsent := true;
      var k := 0;
      while k < |group| && allAbsent
        invariant k <= |group|
        invariant allAbsent ==> forall j :: 0 <= j < k ==> EqualityAnswer(v, group[j]).Absent?
        invariant !allAbsent ==> !AllAbsent(v, group)
      {
        assert group[k] in group;
        match EqualityAnswer(v, group[k]) {
          case Absent =>
          case CorruptFilter => return Err(());
          case _ => allAbsent := false;
        }
        k := k + 1;
      }
      if allAbsent { return Ok(true); }
      assert groups[..n + 1] == groups[..n] + [group];
    }
    assert groups[..|groups|] == groups;
    return Ok(false);
  }

  // ---------------------------------------------------------------- exactness

  /** The column type itself or, for narrow integers, the 32-bit type they are stored in. */
  function StoredType(t: DataType): DataType {
    if t.Int8? || t.Int16? then Int32
    else if t.UInt8? || t.UInt16? then UInt32
    else if t.FixedSizeBinary? then Binary
    else t
  }

  /** The literal is within the range of its own machine type. */
  predicate LiteralInRange(v: PredicateValue) {
    && (v.Int64Value? ==> InRange(v.i, I64_MIN, I64_MAX)) && (v.UInt64Value? ==> InRange(v.u, 0, U64_MAX))
    && (v.Date32Value? ==> InRange(v.day, I32_MIN, I32_MAX))
    && (v.TimestampMicros? ==> InRange(v.micros, I64_MIN, I64_MAX))
  }

  ghost function SomeDatum(t: DataType): Datum {
    if t.Boolean? then Flag(true)
    else if t.FixedSizeBinary? then Raw(seq(t.width, _ => 0))
    else if t.Utf8? || t.LargeUtf8? || t.Binary? || t.LargeBinary? then Raw([])
    else Whole(0)
  }

  /** A literal can be looked up in exactly the columns whose Bloom filters have keys and whose values it compares to. */
  lemma LookupExists(t: DataType, v: PredicateValue)
    ensures NewBloomValue(t, v).Some? <==>
            HasBloomKey(t) && exists d :: WellTyped(t, d) && ComparePair(t, d, v).Some?
  {
    if NewBloomValue(t, v).Some? {
      var d := SomeDatum(t);
      assert WellTyped(t, d) && ComparePair(t, d, v).Some?;
    }
  }

  /** A literal is absent without asking if and only if no stored value could equal it. */
  lemma AbsentUnasked(t: DataType, v: PredicateValue)
    requires NewBloomValue(t, v).Some? && LiteralInRange(v)
    ensures NewBloomValue(t, v) == Some(DefinitelyAbsent) <==>
            forall d :: WellTyped(StoredType(t), d) ==> ComparePair(StoredType(t), d, v) != Some(Equal)
  {
    if NewBloomValue(t, v) == Some(DefinitelyAbsent) {
      forall d | WellTyped(StoredType(t), d) ensures ComparePair(StoredType(t), d, v) != Some(Equal) {
        if t.Timestamp? { TimestampPhysicalIsExact(v.micros, t.unit, d.whole); }
      }
    } else {
      var d := EqualDatum(t, v);
    }
  }

  lemma EqualDatum(t: DataType, v: PredicateValue) returns (d: Datum)
    requires NewBloomValue(t, v).Some? && LiteralInRange(v) && NewBloomValue(t, v) != Some(DefinitelyAbsent)
    ensures WellTyped(StoredType(t), d) && ComparePair(StoredType(t), d, v) == Some(Equal)
  {
    match v {
      case Int64Value(i) => d := Whole(i);
      case UInt64Value(u) => d := Whole(u);
      case Date32Value(day) => d := Whole(day);
      case TimestampMicros(micros) =>
        d := Whole(TimestampPhysical(micros, t.unit).value);
        TimestampPhysicalIsExact(micros, t.unit, d.whole);
      case Utf8Value(text) =>
        d := Raw(text);
        CompareBytesFlip(text, text);
      case BinaryValue(bytes) =>
        d := Raw(bytes);
        CompareBytesFlip(bytes, bytes);
    }
  }

  /** For a literal the column could hold, the answer is what the column's filter says of that value's key. */
  lemma AnswerExact(v: GroupView, p: ScanPredicate, d: Datum)
    requires p.Comparison? && ColumnLeaf(v.file, v.table, p.column).Some?
    requires var t := v.file.schema[ColumnLeaf(v.file, v.table, p.column).value.0].dataType;
             HasBloomKey(t) && WellTyped(t, d) && ComparePair(t, d, p.value) == Some(Equal)
    ensures var (f, leaf) := ColumnLeaf(v.file, v.table, p.column).value;
            var t, blooms := v.file.schema[f].dataType, v.group.blooms;
            && (EqualityAnswer(v, p).NotKnown? <==> leaf !in blooms || blooms[leaf].Unavailable?)
            && (EqualityAnswer(v, p).CorruptFilter? <==> leaf in blooms && blooms[leaf].Corrupt?)
            && (EqualityAnswer(v, p).Absent? <==>
                  leaf in blooms && blooms[leaf].Loaded? && !blooms[leaf].check(StoredKey(t, d)))
  {
    var t := v.file.schema[ColumnLeaf(v.file, v.table, p.column).value.0].dataType;
    LookupExists(t, p.value);
    EqualValuesShareKey(t, d, p.value);
  }
}
