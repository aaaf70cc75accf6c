/**
 The shared cache of Parquet metadata and Bloom filters: two recency lists under one byte budget.
 */
module MetadataCache {
  import opened Common

  datatype Entry<K, V> = Entry(key: K, value: V, weight: nat)

  /** Least recently used first. */
  type Lru<K, V> = seq<Entry<K, V>>

  // ---------------------------------------------------------------- recency lists

  function Held<K(==), V>(s: Lru<K, V>, key: K): Option<Entry<K, V>> {
    if s == [] then None else if s[0].key == key then Some(s[0]) else Held(s[1..], key)
  }

  function Without<K(==), V>(s: Lru<K, V>, key: K): Lru<K, V> {
    if s == [] then []
    else if s[0].key == key then Without(s[1..], key)
    else [s[0]] + Without(s[1..], key)
  }

  function Pushed<K(==), V>(s: Lru<K, V>, e: Entry<K, V>): Lru<K, V> {
    Without(s, e.key) + [e]
  }

  function HeldWeight<K(==), V>(s: Lru<K, V>, key: K): nat {
    var held := Held(s, key);
    if held.Some? then held.value.weight else 0
  }

  function Weights<K, V>(s: Lru<K, V>): seq<nat> {
    seq(|s|, i requires 0 <= i < |s| => s[i].weight)
  }

  ghost predicate Distinct<K, V>(s: Lru<K, V>) {
    s != [] ==> Held(s[1..], s[0].key).None? && Distinct(s[1..])
  }

  ghost predicate Light<K, V>(s: Lru<K, V>, limit: nat) {
    forall e :: e in s ==> e.weight <= limit
  }

  lemma {:induction false} HeldIsMember<K, V>(s: Lru<K, V>, key: K)
    ensures Held(s, key).Some? ==> Held(s, key).value in s && Held(s, key).value.key == key
  {
    if s != [] { HeldIsMember(s[1..], key); }
  }

  lemma {:induction false} HeldAppend<K, V>(s: Lru<K, V>, t: Lru<K, V>, key: K)
    ensures Held(s + t, key) == if Held(s, key).Some? then Held(s, key) else Held(t, key)
  {
    if s == [] {
      assert s + t == t;
    } else {
      assert (s + t)[1..] == s[1..] + t;
      HeldAppend(s[1..], t, key);
    }
  }

  lemma {:induction false} HeldWithout<K, V>(s: Lru<K, V>, key: K, other: K)
    ensures Held(Without(s, key), other) == if other == key then None else Held(s, other)
  {
    if s != [] {
      HeldWithout(s[1..], key, other);
      if s[0].key != key { HeldAppend([s[0]], Without(s[1..], key), other); }
    }
  }

  /** Pushing replaces the key's value and nothing else. */
  lemma HeldPushed<K, V>(s: Lru<K, V>, e: Entry<K, V>, key: K)
    ensures Held(Pushed(s, e), key) == if key == e.key then Some(e) else Held(s, key)
  {
    HeldWithout(s, e.key, key);
    HeldAppend(Without(s, e.key), [e], key);
  }

  lemma {:induction false} AppendIsDistinct<K, V>(s: Lru<K, V>, e: Entry<K, V>)
    requires Distinct(s) && Held(s, e.key).None?
    ensures Distinct(s + [e])
  {
    if s != [] {
      assert (s + [e])[1..] == s[1..] + [e];
      HeldAppend(s[1..], [e], s[0].key);
      AppendIsDistinct(s[1..], e);
    }
  }

  lemma {:induction false} WithoutKeeps<K, V>(s: Lru<K, V>, key: K, limit: nat)
    requires Distinct(s) && Light(s, limit)
    ensures Distinct(Without(s, key)) && Light(Without(s, key), limit)
    ensures Sum(Weights(Without(s, key))) + HeldWeight(s, key) == Sum(Weights(s))
  {
    if s != [] {
      var rest := Without(s[1..], key);
      WithoutKeeps(s[1..], key, limit);
      HeldWithout(s[1..], key, s[0].key);
      WeightsTail(s);
      if s[0].key != key {
        assert ([s[0]] + rest)[1..] == rest;
        WeightsTail([s[0]] + rest);
      }
    }
  }

  lemma WeightsTail<K, V>(s: Lru<K, V>)
    requires s != []
    ensures Sum(Weights(s)) == s[0].weight + Sum(Weights(s[1..]))
  {
    assert Weights(s)[1..] == Weights(s[1..]);
  }

  lemma PushedKeeps<K, V>(s: Lru<K, V>, e: Entry<K, V>, limit: nat)
    requires Distinct(s) && Light(s, limit) && e.weight <= limit
    ensures Distinct(Pushed(s, e)) && Light(Pushed(s, e), limit)
    ensures HeldWeight(s, e.key) <= Sum(Weights(s))
    ensures Sum(Weights(Pushed(s, e))) == Sum(Weights(s)) - HeldWeight(s, e.key) + e.weight
  {
    WithoutKeeps(s, e.key, limit);
    HeldWithout(s, e.key, e.key);
    AppendIsDistinct(Without(s, e.key), e);
    assert Weights(Pushed(s, e)) == Weights(Without(s, e.key)) + [e.weight];
    SumAppend(Weights(Without(s, e.key)), [e.weight]);
  }

  /** A suffix of a list is a list, and holds what the whole holds or nothing. */
  lemma {:induction false} SuffixKeeps<K, V>(s: Lru<K, V>, k: nat, limit: nat)
    requires Distinct(s) && Light(s, limit) && k <= |s|
    ensures Distinct(s[k..]) && Light(s[k..], limit)
    ensures forall key :: Held(s[k..], key).Some? ==> Held(s[k..], key) == Held(s, key)
  {
    if k == 0 {
      assert s[0..] == s;
    } else {
      SuffixKeeps(s[1..], k - 1, limit);
      assert s[1..][k - 1..] == s[k..];
    }
  }

  /** The most recent item of a list is held by every non-empty suffix. */
  lemma {:induction false} LastIsHeld<K, V>(s: Lru<K, V>, k: nat)
    requires Distinct(s) && k < |s|
    ensures Held(s[k..], s[|s| - 1].key) == Some(s[|s| - 1])
    decreases |s|, k
  {
    if k > 0 {
      LastIsHeld(s[1..], k - 1);
      assert s[1..][k - 1..] == s[k..];
    } else if |s| > 1 {
      LastIsHeld(s[1..], 0);
      assert s[0..] == s && s[1..][0..] == s[1..];
    }
  }

  // ---------------------------------------------------------------- eviction

  /** The fewest weights to drop from the front so that the rest fits. */
  ghost function Dropped(q: seq<nat>, limit: nat): (k: nat)
    ensures k <= |q|
  {
    if Sum(q) <= limit then 0 else 1 + Dropped(q[1..], limit)
  }

  lemma {:induction false} DroppedIsLeast(q: seq<nat>, limit: nat, k: nat)
    requires k <= |q|
    ensures Sum(q[k..]) <= limit <==> Dropped(q, limit) <= k
    decreases |q|
  {
    SumAppend(q[..k], q[k..]);
    assert q[..k] + q[k..] == q;
    if Sum(q) > limit {
      if k == 0 {
        assert q[0..] == q;
      } else {
        DroppedIsLeast(q[1..], limit, k - 1);
        assert q[1..][k - 1..] == q[k..];
      }
    }
  }

  // ---------------------------------------------------------------- the cache as a value

  datatype State<K, V, B, F> = State(maxBytes: nat, used: nat, entries: Lru<K, V>, blooms: Lru<B, F>)

  /** The order of eviction: Bloom filters first, then metadata, each from least recent. */
  ghost function Queue<K, V, B, F>(s: State<K, V, B, F>): seq<nat> {
    Weights(s.blooms) + Weights(s.entries)
  }

  ghost function Total<K, V, B, F>(s: State<K, V, B, F>): nat {
    Sum(Queue(s))
  }

  /** The count never exceeds the bytes really held; the budget may be overdrawn. */
  ghost predicate Consistent<K, V, B, F>(s: State<K, V, B, F>) {
    && s.maxBytes <= USIZE_MAX && s.used <= Total(s)
    && Distinct(s.entries) && Distinct(s.blooms) && Light(s.entries, s.maxBytes) && Light(s.blooms, s.maxBytes)
  }

  ghost predicate Valid<K, V, B, F>(s: State<K, V, B, F>) {
    Consistent(s) && s.used <= s.maxBytes
  }

  /** The count is the number of bytes held. */
  ghost predicate Exact<K, V, B, F>(s: State<K, V, B, F>) {
    s.used == Total(s)
  }

  ghost function Drop<K, V, B, F>(s: State<K, V, B, F>, k: nat): State<K, V, B, F>
    requires s.used <= Total(s) && k <= |Queue(s)| && Total(s) - s.used <= Sum(Queue(s)[k..])
  {
    var b := |s.blooms|;
    s.(used := Sum(Queue(s)[k..]) - (Total(s) - s.used),
       blooms := s.blooms[Min(k, b)..],
       entries := s.entries[Max(0, k - b)..])
  }

  /** Drops the fewest leading items of the queue that bring the count within the budget. */
  ghost function Evicted<K, V, B, F>(s: State<K, V, B, F>): State<K, V, B, F>
    requires Consistent(s)
  {
    var q, uncounted := Queue(s), Total(s) - s.used;
    var k := Dropped(q, s.maxBytes + uncounted);
    KeepsUncounted(s, k);
    Drop(s, k)
  }

  /** Every dropped item fits the budget, so the count never runs below zero. */
  lemma {:induction false} KeepsUncounted<K, V, B, F>(s: State<K, V, B, F>, k: nat)
    requires Consistent(s) && k <= Dropped(Queue(s), s.maxBytes + Total(s) - s.used)
    ensures Total(s) - s.used <= Sum(Queue(s)[k..])
  {
    var q, limit := Queue(s), s.maxBytes + Total(s) - s.used;
    if k == 0 {
      assert q[0..] == q;
    } else {
      DroppedIsLeast(q, limit, k - 1);
      assert q[k - 1..][1..] == q[k..];
      assert q[k - 1] <= s.maxBytes;
    }
  }

  lemma DropQueue<K, V, B, F>(s: State<K, V, B, F>, k: nat)
    requires Consistent(s) && k <= |Queue(s)| && Total(s) - s.used <= Sum(Queue(s)[k..])
    ensures Queue(Drop(s, k)) == Queue(s)[k..]
    ensures Consistent(Drop(s, k)) && Total(Drop(s, k)) - Drop(s, k).used == Total(s) - s.used
  {
    hide Held, Distinct, Sum;
    var b := |s.blooms|;
    assert Weights(s.blooms[Min(k, b)..]) == Weights(s.blooms)[Min(k, b)..];
    assert Weights(s.entries[Max(0, k - b)..]) == Weights(s.entries)[Max(0, k - b)..];
    SuffixKeeps(s.blooms, Min(k, b), s.maxBytes);
    SuffixKeeps(s.entries, Max(0, k - b), s.maxBytes);
  }

  lemma EvictedKeeps<K, V, B, F>(s: State<K, V, B, F>)
    requires Consistent(s)
    ensures Valid(Evicted(s)) && Evicted(s).maxBytes == s.maxBytes
    ensures Total(Evicted(s)) - Evicted(s).used == Total(s) - s.used
    ensures forall key :: Held(Evicted(s).entries, key).Some? ==> Held(Evicted(s).entries, key) == Held(s.entries, key)
    ensures forall key :: Held(Evicted(s).blooms, key).Some? ==> Held(Evicted(s).blooms, key) == Held(s.blooms, key)
  {
    hide Held, Distinct, Sum;
    var b, limit := |s.blooms|, s.maxBytes + Total(s) - s.used;
    var k := Dropped(Queue(s), limit);
    KeepsUncounted(s, k);
    DropQueue(s, k);
    DroppedIsLeast(Queue(s), limit, k);
    SuffixKeeps(s.blooms, Min(k, b), s.maxBytes);
    SuffixKeeps(s.entries, Max(0, k - b), s.maxBytes);
  }

  ghost predicate Admits<K, V, B, F>(s: State<K, V, B, F>, weight: nat) {
    s.maxBytes != 0 && weight <= s.maxBytes
  }

  ghost function Filled<K, V, B, F>(s: State<K, V, B, F>, e: Entry<K, V>): State<K, V, B, F> {
    s.(used := SaturatingAdd(SaturatingSub(s.used, HeldWeight(s.entries, e.key)), e.weight),
       entries := Pushed(s.entries, e))
  }

  ghost function FilledBloom<K, V, B, F>(s: State<K, V, B, F>, e: Entry<B, F>): State<K, V, B, F> {
    s.(used := SaturatingAdd(SaturatingSub(s.used, HeldWeight(s.blooms, e.key)), e.weight),
       blooms := Pushed(s.blooms, e))
  }

  lemma FilledKeeps<K, V, B, F>(s: State<K, V, B, F>, e: Entry<K, V>)
    requires Valid(s) && Admits(s, e.weight)
    ensures Consistent(Filled(s, e))
    ensures Total(Filled(s, e)) == Total(s) - HeldWeight(s.entries, e.key) + e.weight
    ensures Exact(s) ==> HeldWeight(s.entries, e.key) <= s.used
  {
    PushedKeeps(s.entries, e, s.maxBytes);
    SumAppend(Weights(s.blooms), Weights(s.entries));
    SumAppend(Weights(s.blooms), Weights(Pushed(s.entries, e)));
  }

  lemma FilledBloomKeeps<K, V, B, F>(s: State<K, V, B, F>, e: Entry<B, F>)
    requires Valid(s) && Admits(s, e.weight)
    ensures Consistent(FilledBloom(s, e))
    ensures Total(FilledBloom(s, e)) == Total(s) - HeldWeight(s.blooms, e.key) + e.weight
    ensures Exact(s) ==> HeldWeight(s.blooms, e.key) <= s.used
  {
    PushedKeeps(s.blooms, e, s.maxBytes);
    SumAppend(Weights(s.blooms), Weights(s.entries));
    SumAppend(Weights(Pushed(s.blooms, e)), Weights(s.entries));
  }

  ghost function Inserted<K, V, B, F>(s: State<K, V, B, F>, e: Entry<K, V>): State<K, V, B, F>
    requires Valid(s)
  {
    if !Admits(s, e.weight) then s else FilledKeeps(s, e); Evicted(Filled(s, e))
  }

  ghost function InsertedBloom<K, V, B, F>(s: State<K, V, B, F>, e: Entry<B, F>): State<K, V, B, F>
    requires Valid(s)
  {
    if !Admits(s, e.weight) then s else FilledBloomKeeps(s, e); Evicted(FilledBloom(s, e))
  }

  ghost function Touched<K, V>(s: Lru<K, V>, key: K): Lru<K, V> {
    var held := Held(s, key);
    if held.None? then s else Pushed(s, held.value)
  }

  // ---------------------------------------------------------------- what one operation does

  /** The most recent metadata entry is last in the queue and fits alone, so it is never evicted. */
  lemma LastSurvives<K, V, B, F>(s: State<K, V, B, F>)
    requires Consistent(s) && s.entries != []
    ensures var last := s.entries[|s.entries| - 1];
            Held(Evicted(s).entries, last.key) == Some(last)
  {
    hide Held, Distinct;
    var q, last, limit := Queue(s), s.entries[|s.entries| - 1], s.maxBytes + Total(s) - s.used;
    assert q[|q| - 1..] == [last.weight];
    DroppedIsLeast(q, limit, |q| - 1);
    KeepsUncounted(s, Dropped(q, limit));
    LastIsHeld(s.entries, Max(0, Dropped(q, limit) - |s.blooms|));
  }

  /** A metadata entry that fits a limit above zero survives its own insertion; any other is ignored. */
  lemma InsertedIsHeld<K, V, B, F>(s: State<K, V, B, F>, e: Entry<K, V>)
    requires Valid(s)
    ensures if 0 < s.maxBytes && e.weight <= s.maxBytes then Held(Inserted(s, e).entries, e.key) == Some(e)
            else Inserted(s, e) == s
  {
    hide Held, Without, Distinct, Evicted;
    if Admits(s, e.weight) {
      FilledKeeps(s, e);
      LastSurvives(Filled(s, e));
    }
  }

  /** Inserting a Bloom filter never evicts metadata. */
  lemma BloomSparesMetadata<K, V, B, F>(s: State<K, V, B, F>, e: Entry<B, F>)
    requires Valid(s)
    ensures InsertedBloom(s, e).entries == s.entries
  {
    hide Held, Distinct, Without, Light;
    if Admits(s, e.weight) {
      FilledBloomKeeps(s, e);
      var t := FilledBloom(s, e);
      var q, b, limit := Queue(t), |t.blooms|, t.maxBytes + Total(t) - t.used;
      assert q[b..] == Weights(s.entries);
      SumAppend(Weights(s.blooms), Weights(s.entries));
      SumAppend(Weights(t.blooms), Weights(s.entries));
      WithoutKeeps(s.blooms, e.key, s.maxBytes);
      DroppedIsLeast(q, limit, b);
    }
  }

  /** A Bloom filter stays exactly when it fits beside the metadata already held. */
  lemma BloomStaysIffItFits<K, V, B, F>(s: State<K, V, B, F>, e: Entry<B, F>)
    requires Valid(s) && Exact(s) && 0 < s.maxBytes && e.weight <= s.maxBytes
    requires s.used - HeldWeight(s.blooms, e.key) + e.weight <= USIZE_MAX
    ensures Held(InsertedBloom(s, e).blooms, e.key)
            == if e.weight + Sum(Weights(s.entries)) <= s.maxBytes then Some(e) else None
  {
    hide Distinct, Without, Light;
    FilledBloomKeeps(s, e);
    var t := FilledBloom(s, e);
    var q, b := Queue(t), |t.blooms|;
    var k := Dropped(q, t.maxBytes);
    assert q[b - 1..] == [e.weight] + Weights(s.entries);
    DroppedIsLeast(q, t.maxBytes, b - 1);
    KeepsUncounted(t, k);
    SuffixKeeps(t.blooms, Min(k, b), t.maxBytes);
    HeldPushed(s.blooms, e, e.key);
    if k < b { LastIsHeld(t.blooms, k); }
  }

  /** The count stays exact if and only if adding the weight does not overflow the counter. */
  lemma InsertExactIffNoOverflow<K, V, B, F>(s: State<K, V, B, F>, e: Entry<K, V>)
    requires Valid(s) && Exact(s) && Admits(s, e.weight)
    ensures Exact(Inserted(s, e)) <==> s.used - HeldWeight(s.entries, e.key) + e.weight <= USIZE_MAX
  {
    FilledKeeps(s, e);
    EvictedKeeps(Filled(s, e));
  }

  lemma InsertBloomExactIffNoOverflow<K, V, B, F>(s: State<K, V, B, F>, e: Entry<B, F>)
    requires Valid(s) && Exact(s) && Admits(s, e.weight)
    ensures Exact(InsertedBloom(s, e)) <==> s.used - HeldWeight(s.blooms, e.key) + e.weight <= USIZE_MAX
  {
    FilledBloomKeeps(s, e);
    EvictedKeeps(FilledBloom(s, e));
  }

  /** A counter near the top of its range: after one insertion it no longer counts what is held. */
  lemma OverflowLosesCount()
    ensures var half := 0x8000_0000_0000_0000;
            var s: State<int, int, int, int> := State(USIZE_MAX, half, [Entry(1, 0, half)], []);
            && Valid(s) && Exact(s) && Admits(s, half) && !Exact(Inserted(s, Entry(2, 0, half)))
  {
    var half := 0x8000_0000_0000_0000;
    var s: State<int, int, int, int> := State(USIZE_MAX, half, [Entry(1, 0, half)], []);
    assert Queue(s) == [half];
    assert Sum([half]) == half + Sum([]);
    InsertExactIffNoOverflow(s, Entry(2, 0, half));
  }

  // ---------------------------------------------------------------- runs

  datatype Step<K, V, B, F> =
    | Get(key: K)
    | GetBloom(bloomKey: B)
    | Insert(entry: Entry<K, V>)
    | InsertBloom(bloom: Entry<B, F>)

  ghost function Next<K, V, B, F>(s: State<K, V, B, F>, step: Step<K, V, B, F>): State<K, V, B, F>
    requires Valid(s)
  {
    match step
    case Get(key) => s.(entries := Touched(s.entries, key))
    case GetBloom(key) => s.(blooms := Touched(s.blooms, key))
    case Insert(e) => Inserted(s, e)
    case InsertBloom(e) => InsertedBloom(s, e)
  }

  /** Looking an item up changes its recency and nothing else. */
  lemma TouchedKeeps<K, V>(s: Lru<K, V>, key: K, limit: nat)
    requires Distinct(s) && Light(s, limit)
    ensures Distinct(Touched(s, key)) && Light(Touched(s, key), limit)
    ensures Sum(Weights(Touched(s, key))) == Sum(Weights(s))
    ensures forall other :: Held(Touched(s, key), other) == Held(s, other)
  {
    var held := Held(s, key);
    if held.Some? {
      HeldIsMember(s, key);
      PushedKeeps(s, held.value, limit);
      forall other ensures Held(Touched(s, key), other) == Held(s, other) { HeldPushed(s, held.value, other); }
    }
  }

  ghost predicate Admitted<K, V, B, F>(maxBytes: nat, step: Step<K, V, B, F>, key: K) {
    step.Insert? && step.entry.key == key && maxBytes != 0 && step.entry.weight <= maxBytes
  }

  ghost predicate AdmittedBloom<K, V, B, F>(maxBytes: nat, step: Step<K, V, B, F>, key: B) {
    step.InsertBloom? && step.bloom.key == key && maxBytes != 0 && step.bloom.weight <= maxBytes
  }

  /** Each step keeps the cache valid, and holds only what it held or was just given. */
  lemma NextKeeps<K, V, B, F>(s: State<K, V, B, F>, step: Step<K, V, B, F>)
    requires Valid(s)
    ensures Valid(Next(s, step)) && Next(s, step).maxBytes == s.maxBytes
    ensures forall key :: Held(Next(s, step).entries, key).Some? ==>
              Held(Next(s, step).entries, key)
              == if Admitted(s.maxBytes, step, key) then Some(step.entry) else Held(s.entries, key)
    ensures forall key :: Held(Next(s, step).blooms, key).Some? ==>
              Held(Next(s, step).blooms, key)
              == if AdmittedBloom(s.maxBytes, step, key) then Some(step.bloom) else Held(s.blooms, key)
  {
    hide Held, Distinct, Without, Evicted, Sum;
    SumAppend(Weights(s.blooms), Weights(s.entries));
    match step
    case Get(key) =>
      TouchedKeeps(s.entries, key, s.maxBytes);
      SumAppend(Weights(s.blooms), Weights(Touched(s.entries, key)));
    case GetBloom(key) =>
      TouchedKeeps(s.blooms, key, s.maxBytes);
      SumAppend(Weights(Touched(s.blooms, key)), Weights(s.entries));
    case Insert(e) =>
      if Admits(s, e.weight) {
        FilledKeeps(s, e);
        EvictedKeeps(Filled(s, e));
        forall key ensures Held(Pushed(s.entries, e), key) == if key == e.key then Some(e) else Held(s.entries, key) {
          HeldPushed(s.entries, e, key);
        }
      }
    case InsertBloom(e) =>
      if Admits(s, e.weight) {
        FilledBloomKeeps(s, e);
        EvictedKeeps(FilledBloom(s, e));
        forall key ensures Held(Pushed(s.blooms, e), key) == if key == e.key then Some(e) else Held(s.blooms, key) {
          HeldPushed(s.blooms, e, key);
        }
      }
  }

  ghost function Run<K, V, B, F>(maxBytes: nat, steps: seq<Step<K, V, B, F>>): (s: State<K, V, B, F>)
    requires maxBytes <= USIZE_MAX
    ensures Valid(s) && s.maxBytes == maxBytes
  {
    if steps == [] then State(maxBytes, 0, [], [])
    else
      var n := |steps| - 1;
      var before := Run(maxBytes, steps[..n]);
      NextKeeps(before, steps[n]);
      Next(before, steps[n])
  }

  /** The value of the last admitted insertion under a key. */
  ghost function Latest<K, V, B, F>(maxBytes: nat, steps: seq<Step<K, V, B, F>>, key: K): Option<Entry<K, V>> {
    if steps == [] then None
    else
      var n := |steps| - 1;
      if Admitted(maxBytes, steps[n], key) then Some(steps[n].entry) else Latest(maxBytes, steps[..n], key)
  }

  /** After every run, a key holds its last admitted value or nothing; never an older one. */
  lemma {:induction false} RunHoldsLatest<K, V, B, F>(maxBytes: nat, steps: seq<Step<K, V, B, F>>, key: K)
    requires maxBytes <= USIZE_MAX
    ensures Held(Run(maxBytes, steps).entries, key).Some? ==>
              Held(Run(maxBytes, steps).entries, key) == Latest(maxBytes, steps, key)
  {
    if steps != [] {
      var n := |steps| - 1;
      RunHoldsLatest(maxBytes, steps[..n], key);
      NextKeeps(Run(maxBytes, steps[..n]), steps[n]);
    }
  }

  /** With a budget of at most half the counter's range, every run counts exactly what it holds. */
  lemma {:induction false} RunIsExact<K, V, B, F>(maxBytes: nat, steps: seq<Step<K, V, B, F>>)
    requires 2 * maxBytes <= USIZE_MAX
    ensures Exact(Run(maxBytes, steps)) && Total(Run(maxBytes, steps)) <= maxBytes
  {
    if steps != [] {
      var n := |steps| - 1;
      RunIsExact(maxBytes, steps[..n]);
      NextIsExact(Run(maxBytes, steps[..n]), steps[n]);
    }
  }

  lemma NextIsExact<K, V, B, F>(s: State<K, V, B, F>, step: Step<K, V, B, F>)
    requires Valid(s) && Exact(s) && 2 * s.maxBytes <= USIZE_MAX
    ensures Exact(Next(s, step))
  {
    hide Held, Distinct, Without, Evicted, Sum;
    SumAppend(Weights(s.blooms), Weights(s.entries));
    match step
    case Get(key) =>
      TouchedKeeps(s.entries, key, s.maxBytes);
      SumAppend(Weights(s.blooms), Weights(Touched(s.entries, key)));
    case GetBloom(key) =>
      TouchedKeeps(s.blooms, key, s.maxBytes);
      SumAppend(Weights(Touched(s.blooms, key)), Weights(s.entries));
    case Insert(e) =>
      if Admits(s, e.weight) { InsertExactIffNoOverflow(s, e); }
    case InsertBloom(e) =>
      if Admits(s, e.weight) { InsertBloomExactIffNoOverflow(s, e); }
  }

  // ---------------------------------------------------------------- recency

  /** The last step of the run was a hit on the key or its admitted insertion. */
  ghost predicate UsesKey<K, V, B, F>(maxBytes: nat, steps: seq<Step<K, V, B, F>>, key: K)
    requires maxBytes <= USIZE_MAX && steps != []
  {
    var n := |steps| - 1;
    || Admitted(maxBytes, steps[n], key)
    || (steps[n] == Get(key) && Held(Run(maxBytes, steps[..n]).entries, key).Some?)
  }

  ghost predicate UsesBloom<K, V, B, F>(maxBytes: nat, steps: seq<Step<K, V, B, F>>, key: B)
    requires maxBytes <= USIZE_MAX && steps != []
  {
    var n := |steps| - 1;
    || AdmittedBloom(maxBytes, steps[n], key)
    || (steps[n] == GetBloom(key) && Held(Run(maxBytes, steps[..n]).blooms, key).Some?)
  }

  /** When a key was last used: how many steps had then been made. */
  ghost function LastUse<K, V, B, F>(maxBytes: nat, steps: seq<Step<K, V, B, F>>, key: K): (at: nat)
    requires maxBytes <= USIZE_MAX
    ensures at <= |steps|
  {
    if steps == [] then 0
    else if UsesKey(maxBytes, steps, key) then |steps|
    else LastUse(maxBytes, steps[..|steps| - 1], key)
  }

  ghost function LastBloomUse<K, V, B, F>(maxBytes: nat, steps: seq<Step<K, V, B, F>>, key: B): (at: nat)
    requires maxBytes <= USIZE_MAX
    ensures at <= |steps|
  {
    if steps == [] then 0
    else if UsesBloom(maxBytes, steps, key) then |steps|
    else LastBloomUse(maxBytes, steps[..|steps| - 1], key)
  }

  /** Every item was used before all that follow it. */
  ghost predicate OrderedBy<K, V>(s: Lru<K, V>, use: K -> nat) {
    s != [] ==> (forall e :: e in s[1..] ==> use(s[0].key) < use(e.key)) && OrderedBy(s[1..], use)
  }

  lemma {:induction false} WithoutMembers<K, V>(s: Lru<K, V>, key: K)
    ensures forall e :: e in Without(s, key) ==> e in s && e.key != key
  {
    if s != [] { WithoutMembers(s[1..], key); }
  }

  lemma {:induction false} OrderedWithout<K, V>(s: Lru<K, V>, key: K, use: K -> nat, use': K -> nat)
    requires OrderedBy(s, use) && forall e :: e in s && e.key != key ==> use'(e.key) == use(e.key)
    ensures OrderedBy(Without(s, key), use')
  {
    if s != [] {
      OrderedWithout(s[1..], key, use, use');
      WithoutMembers(s[1..], key);
      if s[0].key != key {
        assert ([s[0]] + Without(s[1..], key))[1..] == Without(s[1..], key);
      }
    }
  }

  lemma {:induction false} OrderedAppend<K, V>(s: Lru<K, V>, e: Entry<K, V>, use: K -> nat)
    requires OrderedBy(s, use) && forall x :: x in s ==> use(x.key) < use(e.key)
    ensures OrderedBy(s + [e], use)
  {
    if s != [] {
      assert (s + [e])[1..] == s[1..] + [e];
      OrderedAppend(s[1..], e, use);
    }
  }

  /** Using an item now and moving it to the end keeps the list in order of use. */
  lemma OrderedPushed<K, V>(s: Lru<K, V>, e: Entry<K, V>, use: K -> nat, use': K -> nat)
    requires OrderedBy(s, use) && forall k :: use(k) < use'(e.key)
    requires forall x :: x in s && x.key != e.key ==> use'(x.key) == use(x.key)
    ensures OrderedBy(Pushed(s, e), use')
  {
    WithoutMembers(s, e.key);
    OrderedWithout(s, e.key, use, use');
    OrderedAppend(Without(s, e.key), e, use');
  }

  lemma {:induction false} OrderedSuffix<K, V>(s: Lru<K, V>, k: nat, use: K -> nat)
    requires OrderedBy(s, use) && k <= |s|
    ensures OrderedBy(s[k..], use)
  {
    if k == 0 {
      assert s[0..] == s;
    } else {
      OrderedSuffix(s[1..], k - 1, use);
      assert s[1..][k - 1..] == s[k..];
    }
  }

  lemma {:induction false} OrderedSame<K, V>(s: Lru<K, V>, use: K -> nat, use': K -> nat)
    requires OrderedBy(s, use) && forall k :: use'(k) == use(k)
    ensures OrderedBy(s, use')
  {
    if s != [] { OrderedSame(s[1..], use, use'); }
  }

  /** What a suffix drops was used before what it keeps. */
  lemma {:induction false} DroppedFirst<K, V>(s: Lru<K, V>, k: nat, use: K -> nat, gone: K, kept: K)
    requires OrderedBy(s, use) && k <= |s|
    requires Held(s, gone).Some? && Held(s[k..], gone).None? && Held(s[k..], kept).Some?
    ensures use(gone) < use(kept)
  {
    assert s[0..] == s;
    if k == 0 {
    } else if s[0].key == gone {
      HeldIsMember(s[k..], kept);
      assert Held(s[k..], kept).value in s[1..];
    } else {
      assert s[1..][k - 1..] == s[k..];
      DroppedFirst(s[1..], k - 1, use, gone, kept);
    }
  }

  /** The item a step moves to the end of the metadata list, if any. */
  ghost function Moved<K, V, B, F>(s: State<K, V, B, F>, step: Step<K, V, B, F>): Option<Entry<K, V>> {
    if step.Get? then Held(s.entries, step.key)
    else if step.Insert? && Admits(s, step.entry.weight) then Some(step.entry)
    else None
  }

  ghost function MovedBloom<K, V, B, F>(s: State<K, V, B, F>, step: Step<K, V, B, F>): Option<Entry<B, F>> {
    if step.GetBloom? then Held(s.blooms, step.bloomKey)
    else if step.InsertBloom? && Admits(s, step.bloom.weight) then Some(step.bloom)
    else None
  }

  ghost function AfterMove<K, V>(s: Lru<K, V>, moved: Option<Entry<K, V>>): Lru<K, V> {
    if moved.Some? then Pushed(s, moved.value) else s
  }

  /** A step moves at most one item of each list, and then drops from the front. */
  lemma NextIsSuffix<K, V, B, F>(s: State<K, V, B, F>, step: Step<K, V, B, F>) returns (k: nat, b: nat)
    requires Valid(s)
    ensures k <= |AfterMove(s.entries, Moved(s, step))| && b <= |AfterMove(s.blooms, MovedBloom(s, step))|
    ensures Next(s, step).entries == AfterMove(s.entries, Moved(s, step))[k..]
    ensures Next(s, step).blooms == AfterMove(s.blooms, MovedBloom(s, step))[b..]
  {
    hide Held, Without, Sum, Dropped;
    k, b := 0, 0;
    if step.Insert? && Admits(s, step.entry.weight) {
      FilledKeeps(s, step.entry);
      k, b := EvictedSuffix(Filled(s, step.entry));
    } else if step.InsertBloom? && Admits(s, step.bloom.weight) {
      FilledBloomKeeps(s, step.bloom);
      k, b := EvictedSuffix(FilledBloom(s, step.bloom));
    }
  }

  lemma EvictedSuffix<K, V, B, F>(s: State<K, V, B, F>) returns (k: nat, b: nat)
    requires Consistent(s)
    ensures k <= |s.entries| && b <= |s.blooms|
    ensures Evicted(s).entries == s.entries[k..] && Evicted(s).blooms == s.blooms[b..]
  {
    hide Held, Sum;
    var n := Dropped(Queue(s), s.maxBytes + Total(s) - s.used);
    KeepsUncounted(s, n);
    k, b := Max(0, n - |s.blooms|), Min(n, |s.blooms|);
  }

  /** After every run the metadata list is in order of last use, least recent first. */
  lemma {:induction false} RunIsOrderedByUse<K, V, B, F>(maxBytes: nat, steps: seq<Step<K, V, B, F>>)
    requires maxBytes <= USIZE_MAX
    ensures OrderedBy(Run(maxBytes, steps).entries, key => LastUse(maxBytes, steps, key))
    decreases |steps|
  {
    if steps != [] {
      var n := |steps| - 1;
      RunIsOrderedByUse(maxBytes, steps[..n]);
      var k := MovedIsOrdered(maxBytes, steps);
      OrderedSuffix(AfterMove(Run(maxBytes, steps[..n]).entries, Moved(Run(maxBytes, steps[..n]), steps[n])), k,
                    key => LastUse(maxBytes, steps, key));
    }
  }

  lemma MovedIsOrdered<K, V, B, F>(maxBytes: nat, steps: seq<Step<K, V, B, F>>) returns (k: nat)
    requires maxBytes <= USIZE_MAX && steps != []
    requires var before := steps[..|steps| - 1];
             OrderedBy(Run(maxBytes, before).entries, key => LastUse(maxBytes, before, key))
    ensures var s, step := Run(maxBytes, steps[..|steps| - 1]), steps[|steps| - 1];
            && OrderedBy(AfterMove(s.entries, Moved(s, step)), key => LastUse(maxBytes, steps, key))
            && k <= |AfterMove(s.entries, Moved(s, step))|
            && Run(maxBytes, steps).entries == AfterMove(s.entries, Moved(s, step))[k..]
  {
    hide OrderedBy, Next, Pushed, Without;
    var n := |steps| - 1;
    var s, step := Run(maxBytes, steps[..n]), steps[n];
    var use, use' := key => LastUse(maxBytes, steps[..n], key), key => LastUse(maxBytes, steps, key);
    var moved, b := Moved(s, step), 0;
    if moved.Some? {
      if step.Get? { HeldIsMember(s.entries, step.key); }
      OrderedPushed(s.entries, moved.value, use, use');
    } else {
      OrderedSame(s.entries, use, use');
    }
    k, b := NextIsSuffix(s, step);
  }

  /** A step that drops a metadata entry drops one last used before every entry it keeps. */
  lemma EvictsLeastRecent<K, V, B, F>(maxBytes: nat, steps: seq<Step<K, V, B, F>>, gone: K, kept: K)
    requires maxBytes <= USIZE_MAX && steps != []
    requires Held(Run(maxBytes, steps[..|steps| - 1]).entries, gone).Some?
    requires Held(Run(maxBytes, steps).entries, gone).None? && Held(Run(maxBytes, steps).entries, kept).Some?
    ensures LastUse(maxBytes, steps, gone) < LastUse(maxBytes, steps, kept)
  {
    hide Next, Without, LastUse;
    var n := |steps| - 1;
    var s, step := Run(maxBytes, steps[..n]), steps[n];
    RunIsOrderedByUse(maxBytes, steps[..n]);
    var k := MovedIsOrdered(maxBytes, steps);
    var moved := Moved(s, step);
    if moved.Some? { HeldPushed(s.entries, moved.value, gone); }
    DroppedFirst(AfterMove(s.entries, moved), k, key => LastUse(maxBytes, steps, key), gone, kept);
  }

  lemma {:induction false} RunIsOrderedByBloomUse<K, V, B, F>(maxBytes: nat, steps: seq<Step<K, V, B, F>>)
    requires maxBytes <= USIZE_MAX
    ensures OrderedBy(Run(maxBytes, steps).blooms, key => LastBloomUse(maxBytes, steps, key))
    decreases |steps|
  {
    if steps != [] {
      var n := |steps| - 1;
      RunIsOrderedByBloomUse(maxBytes, steps[..n]);
      var b := MovedBloomIsOrdered(maxBytes, steps);
      OrderedSuffix(AfterMove(Run(maxBytes, steps[..n]).blooms, MovedBloom(Run(maxBytes, steps[..n]), steps[n])), b,
                    key => LastBloomUse(maxBytes, steps, key));
    }
  }

  lemma MovedBloomIsOrdered<K, V, B, F>(maxBytes: nat, steps: seq<Step<K, V, B, F>>) returns (b: nat)
    requires maxBytes <= USIZE_MAX && steps != []
    requires var before := steps[..|steps| - 1];
             OrderedBy(Run(maxBytes, before).blooms, key => LastBloomUse(maxBytes, before, key))
    ensures var s, step := Run(maxBytes, steps[..|steps| - 1]), steps[|steps| - 1];
            && OrderedBy(AfterMove(s.blooms, MovedBloom(s, step)), key => LastBloomUse(maxBytes, steps, key))
            && b <= |AfterMove(s.blooms, MovedBloom(s, step))|
            && Run(maxBytes, steps).blooms == AfterMove(s.blooms, MovedBloom(s, step))[b..]
  {
    hide OrderedBy, Next, Pushed, Without;
    var n := |steps| - 1;
    var s, step := Run(maxBytes, steps[..n]), steps[n];
    var use, use' := key => LastBloomUse(maxBytes, steps[..n], key), key => LastBloomUse(maxBytes, steps, key);
    var moved, k := MovedBloom(s, step), 0;
    if moved.Some? {
      if step.GetBloom? { HeldIsMember(s.blooms, step.bloomKey); }
      OrderedPushed(s.blooms, moved.value, use, use');
    } else {
      OrderedSame(s.blooms, use, use');
    }
    k, b := NextIsSuffix(s, step);
  }

  /** The same for Bloom filters. */
  lemma EvictsLeastRecentBloom<K, V, B, F>(maxBytes: nat, steps: seq<Step<K, V, B, F>>, gone: B, kept: B)
    requires maxBytes <= USIZE_MAX && steps != []
    requires Held(Run(maxBytes, steps[..|steps| - 1]).blooms, gone).Some?
    requires Held(Run(maxBytes, steps).blooms, gone).None? && Held(Run(maxBytes, steps).blooms, kept).Some?
    ensures LastBloomUse(maxBytes, steps, gone) < LastBloomUse(maxBytes, steps, kept)
  {
    hide Next, Without, LastBloomUse;
    var n := |steps| - 1;
    var s, step := Run(maxBytes, steps[..n]), steps[n];
    RunIsOrderedByBloomUse(maxBytes, steps[..n]);
    var b := MovedBloomIsOrdered(maxBytes, steps);
    var moved := MovedBloom(s, step);
    if moved.Some? { HeldPushed(s.blooms, moved.value, gone); }
    DroppedFirst(AfterMove(s.blooms, moved), b, key => LastBloomUse(maxBytes, steps, key), gone, kept);
  }

  // ---------------------------------------------------------------- the cache itself

  class Cache<K(==), V, B(==), F> {
    const maxBytes: nat
    var usedBytes: nat
    var entries: Lru<K, V>
    var bloomEntries: Lru<B, F>

    ghost function Now(): State<K, V, B, F>
      reads this
    {
      State(maxBytes, usedBytes, entries, bloomEntries)
    }

    constructor (maxBytes: nat)
      requires maxBytes <= USIZE_MAX
      ensures Valid(Now()) && Now() == Run(maxBytes, [])
    {
      this.maxBytes := maxBytes;
      usedBytes := 0;
      entries := [];
      bloomEntries := [];
    }

    method Get(key: K) returns (r: Option<V>)
      requires Valid(Now())
      modifies this
      ensures Valid(Now()) && Now() == Next(old(Now()), Step.Get(key))
      ensures r == var held := Held(old(entries), key); if held.Some? then Some(held.value.value) else None
    {
      NextKeeps(Now(), Step.Get(key));
      var held := Held(entries, key);
      if held.None? { return None; }
      HeldIsMember(entries, key);
      entries := Pushed(entries, held.value);
      return Some(held.value.value);
    }

    method GetBloom(key: B) returns (r: Option<F>)
      requires Valid(Now())
      modifies this
      ensures Valid(Now()) && Now() == Next(old(Now()), Step.GetBloom(key))
      ensures r == var held := Held(old(bloomEntries), key); if held.Some? then Some(held.value.value) else None
    {
      NextKeeps(Now(), Step.GetBloom(key));
      var held := Held(bloomEntries, key);
      if held.None? { return None; }
      HeldIsMember(bloomEntries, key);
      bloomEntries := Pushed(bloomEntries, held.value);
      return Some(held.value.value);
    }

    method Insert(key: K, value: V, weight: nat)
      requires Valid(Now())
      modifies this
      ensures Valid(Now()) && Now() == Next(old(Now()), Step.Insert(Entry(key, value, weight)))
    {
      hide Held, Without, Distinct, Light, Sum, Queue, Weights, Evicted;
      ghost var e := Entry(key, value, weight);
      NextKeeps(Now(), Step.Insert(e));
      if maxBytes == 0 || weight > maxBytes { return; }
      FilledKeeps(Now(), e);
      var previous := Held(entries, key);
      entries := Pushed(entries, Entry(key, value, weight));
      if previous.Some? { usedBytes := SaturatingSub(usedBytes, previous.value.weight); }
      usedBytes := SaturatingAdd(usedBytes, weight);
      assert Now() == Filled(old(Now()), e);
      EvictToBudget();
    }

    method InsertBloom(key: B, filter: F, weight: nat)
      requires Valid(Now())
      modifies this
      ensures Valid(Now()) && Now() == Next(old(Now()), Step.InsertBloom(Entry(key, filter, weight)))
    {
      hide Held, Without, Distinct, Light, Sum, Queue, Weights, Evicted;
      ghost var e := Entry(key, filter, weight);
      NextKeeps(Now(), Step.InsertBloom(e));
      if maxBytes == 0 || weight > maxBytes { return; }
      FilledBloomKeeps(Now(), e);
      var previous := Held(bloomEntries, key);
      bloomEntries := Pushed(bloomEntries, Entry(key, filter, weight));
      if previous.Some? { usedBytes := SaturatingSub(usedBytes, previous.value.weight); }
      usedBytes := SaturatingAdd(usedBytes, weight);
      assert Now() == FilledBloom(old(Now()), e);
      EvictToBudget();
    }

    /** Pops until the count fits.  The branch for an empty cache is never reached. */
    method EvictToBudget()
      requires Consistent(Now())
      modifies this
      ensures Now() == Evicted(old(Now()))
    {
      hide Held, Distinct, Light, Sum, Queue, Weights, Dropped, Drop, Evicted;
      ghost var start := Now();
      ghost var k := 0;
      DropNone(start);
      while usedBytes > maxBytes
        invariant Popped(start, k) && Now() == Drop(start, k)
        decreases |Queue(start)| - k
      {
        hide Popped, Consistent;
        DropNext(start, k);
        var weight: nat;
        if bloomEntries != [] {
          weight := bloomEntries[0].weight;
          bloomEntries := bloomEntries[1..];
        } else if entries != [] {
          weight := entries[0].weight;
          entries := entries[1..];
        } else {
          assert false;
        }
        usedBytes := SaturatingSub(usedBytes, weight);
        k := k + 1;
      }
      DropEnough(start, k);
    }
  }

  /** The first `k` items of the queue had to go. */
  ghost predicate Popped<K, V, B, F>(s: State<K, V, B, F>, k: nat) {
    && Consistent(s) && k <= Dropped(Queue(s), s.maxBytes + Total(s) - s.used)
    && Total(s) - s.used <= Sum(Queue(s)[k..])
  }

  lemma DropNone<K, V, B, F>(s: State<K, V, B, F>)
    requires Consistent(s)
    ensures Popped(s, 0) && Drop(s, 0) == s
  {
    assert Queue(s)[0..] == Queue(s);
  }

  lemma DropEnough<K, V, B, F>(s: State<K, V, B, F>, k: nat)
    requires Popped(s, k) && Drop(s, k).used <= s.maxBytes
    ensures Drop(s, k) == Evicted(s)
  {
    hide Held, Distinct, Light, Weights;
    DroppedIsLeast(Queue(s), s.maxBytes + Total(s) - s.used, k);
    KeepsUncounted(s, k);
  }

  /** An overdrawn cache has a next victim: the head of the Bloom list, or else of the metadata list. */
  lemma DropNext<K, V, B, F>(s: State<K, V, B, F>, k: nat)
    requires Popped(s, k) && Drop(s, k).used > s.maxBytes
    ensures k < |Queue(s)| && Popped(s, k + 1)
    ensures var t, u := Drop(s, k), Drop(s, k + 1);
            if t.blooms != [] then
              t.blooms[0].weight <= t.used && u == t.(used := t.used - t.blooms[0].weight, blooms := t.blooms[1..])
            else
              && t.entries != []
              && t.entries[0].weight <= t.used
              && u == t.(used := t.used - t.entries[0].weight, entries := t.entries[1..])
  {
    hide Held, Distinct;
    var q, b, limit := Queue(s), |s.blooms|, s.maxBytes + Total(s) - s.used;
    DroppedIsLeast(q, limit, k);
    KeepsUncounted(s, k + 1);
    assert q[k..][1..] == q[k + 1..];
    assert s.blooms[Min(k, b)..] != [] ==> s.blooms[k..][1..] == s.blooms[k + 1..];
    assert k >= b ==> s.entries[k - b..][1..] == s.entries[k + 1 - b..];
  }
}
