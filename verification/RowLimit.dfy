/**
 A scan shared by concurrent workers: files are handed out by a counter, and rows are claimed from a
 common limit by compare-and-swap.
 */
module RowLimit {
  import opened Common

  /** A batch is a sequence of rows, a file a sequence of batches. */
  type File<R> = seq<seq<R>>

  datatype Pc<R> =
    | Top
    | Taking
    | Reading(batches: File<R>)
    | Claiming(batch: seq<R>, rest: File<R>, current: nat)
    | Finished

  /** What is delivered of a batch: the rows claimed of it. */
  datatype Slice<R> = Slice(batch: seq<R>, rows: seq<R>)

  /** `emitted` counts the rows of all slices, `lost` the rows that were read but not claimed. */
  datatype State<R> = State(
    files: seq<File<R>>,
    limit: Option<nat>,
    remaining: Option<nat>,
    nextFile: nat,
    workers: seq<Pc<R>>,
    slices: seq<Slice<R>>,
    emitted: multiset<R>,
    lost: multiset<R>)

  /** `spurious` makes a weak compare-and-swap fail although the value matched. */
  datatype Step = Check(worker: nat) | Take(worker: nat) | Read(worker: nat) | Swap(worker: nat, spurious: bool)

  // ---------------------------------------------------------------- steps

  ghost function Initial<R>(files: seq<File<R>>, limit: Option<nat>, workers: nat): State<R> {
    State(files, limit, limit, 0, seq(workers, _ => Top), [], multiset{}, multiset{})
  }

  ghost predicate Enabled<R>(s: State<R>, step: Step) {
    && step.worker < |s.workers|
    && var pc := s.workers[step.worker];
       match step
       case Check(_) => pc.Top?
       case Take(_) => pc.Taking?
       case Read(_) => pc.Reading?
       case Swap(_, _) => pc.Claiming? && s.remaining.Some?
  }

  ghost function At<R>(s: State<R>, w: nat, pc: Pc<R>): State<R>
    requires w < |s.workers|
  {
    s.(workers := s.workers[w := pc])
  }

  ghost function AfterRead<R>(s: State<R>, w: nat, batches: File<R>): State<R>
    requires w < |s.workers|
  {
    if batches == [] then At(s, w, Top)
    else if s.remaining.Some? then At(s, w, Claiming(batches[0], batches[1..], s.remaining.value))
    else if batches[0] == [] then At(s, w, Top)
    else
      At(s.(slices := s.slices + [Slice(batches[0], batches[0])], emitted := s.emitted + multiset(batches[0])),
         w, Reading(batches[1..]))
  }

  ghost function AfterSwap<R>(s: State<R>, w: nat, batch: seq<R>, rest: File<R>, current: nat, spurious: bool): State<R>
    requires w < |s.workers| && s.remaining.Some?
  {
    var claimed := Min(current, |batch|);
    if claimed == 0 then
      At(s.(lost := s.lost + multiset(Visible([batch] + rest))), w, Top)
    else if spurious || s.remaining.value != current then
      At(s, w, Claiming(batch, rest, s.remaining.value))
    else
      At(s.(remaining := Some(current - claimed),
            slices := s.slices + [Slice(batch, batch[..claimed])],
            emitted := s.emitted + multiset(batch[..claimed]),
            lost := s.lost + multiset(batch[claimed..])),
         w, Reading(rest))
  }

  ghost function Next<R>(s: State<R>, step: Step): State<R>
    requires Enabled(s, step)
  {
    var w := step.worker;
    match step
    case Check(_) => At(s, w, if s.remaining == Some(0) then Finished else Taking)
    case Take(_) =>
      At(s.(nextFile := s.nextFile + 1), w, if s.nextFile < |s.files| then Reading(s.files[s.nextFile]) else Finished)
    case Read(_) => AfterRead(s, w, s.workers[w].batches)
    case Swap(_, spurious) =>
      AfterSwap(s, w, s.workers[w].batch, s.workers[w].rest, s.workers[w].current, spurious)
  }

  // ---------------------------------------------------------------- rows

  /** The rows before a file's first empty batch: an empty batch claims nothing and ends the file. */
  ghost function Visible<R>(file: File<R>): seq<R> {
    if file == [] || file[0] == [] then [] else file[0] + Visible(file[1..])
  }

  ghost function VisibleRows<R>(files: seq<File<R>>): seq<R> {
    if files == [] then [] else Visible(files[0]) + VisibleRows(files[1..])
  }

  /** How often a row is still to come from a worker's file. */
  ghost function Pending<R>(pc: Pc<R>, row: R): nat {
    match pc
    case Reading(batches) => multiset(Visible(batches))[row]
    case Claiming(batch, rest, _) => multiset(Visible([batch] + rest))[row]
    case _ => 0
  }

  ghost function AllPending<R>(workers: seq<Pc<R>>, row: R): nat {
    if workers == [] then 0 else Pending(workers[0], row) + AllPending(workers[1..], row)
  }

  ghost function Untaken<R>(s: State<R>, row: R): nat {
    if s.nextFile < |s.files| then multiset(VisibleRows(s.files[s.nextFile..]))[row] else 0
  }

  lemma {:induction false} PendingUpdate<R>(workers: seq<Pc<R>>, w: nat, pc: Pc<R>, row: R)
    requires w < |workers|
    ensures AllPending(workers[w := pc], row) + Pending(workers[w], row) == AllPending(workers, row) + Pending(pc, row)
  {
    hide Pending;
    if w == 0 {
      assert workers[0 := pc][1..] == workers[1..];
    } else {
      assert workers[w := pc][1..] == workers[1..][w - 1 := pc];
      PendingUpdate(workers[1..], w - 1, pc, row);
    }
  }

  lemma {:induction false} NonePending<R>(workers: seq<Pc<R>>, row: R)
    requires forall w :: 0 <= w < |workers| ==> workers[w].Top? || workers[w].Finished?
    ensures AllPending(workers, row) == 0
  {
    if workers != [] { NonePending(workers[1..], row); }
  }

  // ---------------------------------------------------------------- invariant

  /** A row is delivered, given up, pending or untaken exactly as often as it occurs. */
  ghost predicate Balanced<R>(s: State<R>, row: R) {
    s.emitted[row] + s.lost[row] + AllPending(s.workers, row) + Untaken(s, row)
    == multiset(VisibleRows(s.files))[row]
  }

  /** Rows are given up only once the limit is used up, and claims and the limit always add up. */
  ghost predicate Inv<R(!new)>(s: State<R>) {
    && (forall row :: Balanced(s, row)) && Accounted(s) && Sliced(s)
    && (forall w :: 0 <= w < |s.workers| ==> WorkerOk(s, w))
  }

  ghost function Delivered<R>(slices: seq<Slice<R>>): multiset<R> {
    if slices == [] then multiset{}
    else Delivered(slices[..|slices| - 1]) + multiset(slices[|slices| - 1].rows)
  }

  /** Every delivered batch is a non-empty prefix of one that was read, cut short only by the end of the limit. */
  ghost predicate Sliced<R>(s: State<R>) {
    && s.emitted == Delivered(s.slices)
    && forall k :: 0 <= k < |s.slices| ==>
         && s.slices[k].rows != [] && s.slices[k].rows <= s.slices[k].batch
         && (s.slices[k].rows != s.slices[k].batch ==> s.remaining == Some(0))
  }

  ghost predicate Accounted<R>(s: State<R>) {
    && s.limit.Some? == s.remaining.Some?
    && (s.limit.Some? ==> |s.emitted| + s.remaining.value == s.limit.value)
    && (|s.lost| > 0 ==> s.remaining == Some(0))
  }

  ghost predicate WorkerOk<R>(s: State<R>, w: nat)
    requires w < |s.workers|
  {
    && (s.workers[w].Claiming? ==> s.remaining.Some? && s.remaining.value <= s.workers[w].current)
    && (s.workers[w].Finished? ==> s.remaining == Some(0) || s.nextFile >= |s.files|)
  }

  lemma InitialInv<R(!new)>(files: seq<File<R>>, limit: Option<nat>, workers: nat)
    ensures Inv(Initial(files, limit, workers))
  {
    var s := Initial(files, limit, workers);
    assert files[0..] == files;
    forall row ensures Balanced(s, row) { NonePending(s.workers, row); }
  }

  lemma VisibleHead<R>(batch: seq<R>, rest: File<R>, row: R)
    ensures multiset(Visible([batch] + rest))[row]
            == if batch == [] then 0 else multiset(batch)[row] + multiset(Visible(rest))[row]
  {
    assert ([batch] + rest)[1..] == rest;
  }

  lemma MoveBalances<R>(s: State<R>, n: State<R>, w: nat, row: R)
    requires w < |s.workers| == |n.workers| && n.workers == s.workers[w := n.workers[w]] && Balanced(s, row)
    requires n.files == s.files && n.nextFile == s.nextFile
    requires n.emitted[row] + n.lost[row] + Pending(n.workers[w], row)
             == s.emitted[row] + s.lost[row] + Pending(s.workers[w], row)
    ensures Balanced(n, row)
  {
    hide AllPending, VisibleRows, Pending;
    PendingUpdate(s.workers, w, n.workers[w], row);
  }

  lemma ReadBalances<R>(s: State<R>, w: nat, row: R)
    requires w < |s.workers| && s.workers[w].Reading? && Balanced(s, row)
    ensures Balanced(AfterRead(s, w, s.workers[w].batches), row)
  {
    hide Balanced;
    var batches := s.workers[w].batches;
    if batches != [] {
      assert batches == [batches[0]] + batches[1..];
      VisibleHead(batches[0], batches[1..], row);
    }
    MoveBalances(s, AfterRead(s, w, batches), w, row);
  }

  lemma SwapBalances<R>(s: State<R>, w: nat, spurious: bool, row: R)
    requires w < |s.workers| && s.workers[w].Claiming? && s.remaining.Some? && Balanced(s, row)
    ensures var pc := s.workers[w];
            Balanced(AfterSwap(s, w, pc.batch, pc.rest, pc.current, spurious), row)
  {
    hide Balanced, Visible;
    var pc := s.workers[w];
    VisibleHead(pc.batch, pc.rest, row);
    BatchSplits(pc.batch, Min(pc.current, |pc.batch|), row);
    MoveBalances(s, AfterSwap(s, w, pc.batch, pc.rest, pc.current, spurious), w, row);
  }

  lemma BatchSplits<R>(batch: seq<R>, k: nat, row: R)
    requires k <= |batch|
    ensures multiset(batch)[row] == multiset(batch[..k])[row] + multiset(batch[k..])[row]
  {
    assert batch == batch[..k] + batch[k..];
  }

  lemma TakeBalances<R>(s: State<R>, w: nat, row: R)
    requires w < |s.workers| && s.workers[w].Taking? && Balanced(s, row)
    ensures Balanced(Next(s, Take(w)), row)
  {
    hide AllPending;
    PendingUpdate(s.workers, w, Next(s, Take(w)).workers[w], row);
    if s.nextFile < |s.files| {
      var files := s.files[s.nextFile..];
      assert files[1..] == s.files[s.nextFile + 1..];
      assert multiset(VisibleRows(files))[row] == multiset(Visible(files[0]))[row] + multiset(VisibleRows(files[1..]))[row];
      assert VisibleRows<R>([]) == [];
    }
  }

  lemma NextBalances<R>(s: State<R>, step: Step, row: R)
    requires Enabled(s, step) && Balanced(s, row)
    ensures Balanced(Next(s, step), row)
  {
    match step
    case Check(w) => PendingUpdate(s.workers, w, Next(s, step).workers[w], row);
    case Take(w) => TakeBalances(s, w, row);
    case Read(w) => ReadBalances(s, w, row);
    case Swap(w, spurious) => SwapBalances(s, w, spurious, row);
  }

  lemma SwapAccounts<R>(s: State<R>, w: nat, spurious: bool)
    requires w < |s.workers| && s.workers[w].Claiming? && s.remaining.Some? && Accounted(s) && WorkerOk(s, w)
    ensures var pc := s.workers[w];
            var n := AfterSwap(s, w, pc.batch, pc.rest, pc.current, spurious);
            && Accounted(n) && n.remaining.Some? && n.remaining.value <= s.remaining.value
            && n.files == s.files && n.limit == s.limit && n.nextFile == s.nextFile
            && |n.workers| == |s.workers| && n.workers == s.workers[w := n.workers[w]] && WorkerOk(n, w)
  {
    var pc := s.workers[w];
    assert pc.batch == [] ==> Visible([pc.batch] + pc.rest) == [];
  }

  lemma NextAccounts<R>(s: State<R>, step: Step)
    requires Enabled(s, step) && Accounted(s) && WorkerOk(s, step.worker)
    ensures var n, w := Next(s, step), step.worker;
            && Accounted(n) && n.files == s.files && n.limit == s.limit && n.nextFile >= s.nextFile
            && |n.workers| == |s.workers| && n.workers == s.workers[w := n.workers[w]] && WorkerOk(n, w)
            && n.remaining.Some? == s.remaining.Some?
            && (n.remaining.Some? ==> n.remaining.value <= s.remaining.value)
  {
    hide Visible, AfterSwap;
    if step.Swap? { SwapAccounts(s, step.worker, step.spurious); }
  }

  lemma DeliveredAppend<R>(slices: seq<Slice<R>>, y: Slice<R>)
    ensures Delivered(slices + [y]) == Delivered(slices) + multiset(y.rows)
  {
    assert (slices + [y])[..|slices|] == slices;
  }

  lemma AddSlice<R>(s: State<R>, n: State<R>, y: Slice<R>)
    requires Sliced(s) && n.slices == s.slices + [y] && n.emitted == s.emitted + multiset(y.rows)
    requires y.rows != [] && y.rows <= y.batch && (y.rows != y.batch ==> n.remaining == Some(0))
    requires s.remaining == Some(0) ==> n.remaining == Some(0)
    ensures Sliced(n)
  {
    hide Delivered;
    DeliveredAppend(s.slices, y);
  }

  lemma SwapSlices<R>(s: State<R>, w: nat, spurious: bool)
    requires w < |s.workers| && s.workers[w].Claiming? && s.remaining.Some? && Sliced(s) && WorkerOk(s, w)
    ensures var pc := s.workers[w]; Sliced(AfterSwap(s, w, pc.batch, pc.rest, pc.current, spurious))
  {
    hide Sliced, Visible;
    var pc := s.workers[w];
    var n, claimed := AfterSwap(s, w, pc.batch, pc.rest, pc.current, spurious), Min(pc.current, |pc.batch|);
    if n.slices == s.slices && n.remaining == s.remaining && n.emitted == s.emitted {
      SameSlices(s, n);
    } else {
      AddSlice(s, n, Slice(pc.batch, pc.batch[..claimed]));
    }
  }

  lemma SameSlices<R>(s: State<R>, n: State<R>)
    requires Sliced(s) && n.slices == s.slices && n.emitted == s.emitted && n.remaining == s.remaining
    ensures Sliced(n)
  {
  }

  lemma ReadSlices<R>(s: State<R>, w: nat, batches: File<R>)
    requires w < |s.workers| && Sliced(s)
    ensures Sliced(AfterRead(s, w, batches))
  {
    hide Sliced;
    var n := AfterRead(s, w, batches);
    if batches != [] && s.remaining.None? && batches[0] != [] {
      AddSlice(s, n, Slice(batches[0], batches[0]));
    } else {
      SameSlices(s, n);
    }
  }

  lemma NextSlices<R>(s: State<R>, step: Step)
    requires Enabled(s, step) && Sliced(s) && WorkerOk(s, step.worker)
    ensures Sliced(Next(s, step))
  {
    hide Sliced, AfterSwap, AfterRead;
    match step
    case Swap(w, spurious) => SwapSlices(s, w, spurious);
    case Read(w) => ReadSlices(s, w, s.workers[w].batches);
    case _ => SameSlices(s, Next(s, step));
  }

  lemma NextKeepsInv<R(!new)>(s: State<R>, step: Step)
    requires Inv(s) && Enabled(s, step)
    ensures Inv(Next(s, step)) && Next(s, step).files == s.files && Next(s, step).limit == s.limit
    ensures |Next(s, step).workers| == |s.workers|
  {
    hide Balanced, Accounted, Sliced, Next;
    assert WorkerOk(s, step.worker);
    NextAccounts(s, step);
    NextSlices(s, step);
    var n := Next(s, step);
    forall row ensures Balanced(n, row) { NextBalances(s, step, row); }
    forall u | 0 <= u < |n.workers| ensures WorkerOk(n, u) { assert WorkerOk(s, u); }
  }

  // ---------------------------------------------------------------- complete scans

  ghost predicate IsRun<R>(s: State<R>, steps: seq<Step>)
    decreases |steps|
  {
    steps != [] ==> Enabled(s, steps[0]) && IsRun(Next(s, steps[0]), steps[1..])
  }

  ghost function After<R>(s: State<R>, steps: seq<Step>): State<R>
    requires IsRun(s, steps)
    decreases |steps|
  {
    if steps == [] then s else After(Next(s, steps[0]), steps[1..])
  }

  lemma {:induction false} RunKeepsInv<R(!new)>(s: State<R>, steps: seq<Step>)
    requires Inv(s) && IsRun(s, steps)
    ensures var n := After(s, steps);
            Inv(n) && n.files == s.files && n.limit == s.limit && |n.workers| == |s.workers|
    decreases |steps|
  {
    hide Inv, Next, Enabled;
    if steps != [] {
      NextKeepsInv(s, steps[0]);
      RunKeepsInv(Next(s, steps[0]), steps[1..]);
    }
  }

  /** However many workers run and however they interleave, no run ever exceeds the limit. */
  lemma NeverTooMany<R(!new)>(files: seq<File<R>>, limit: nat, workers: nat, steps: seq<Step>)
    requires IsRun(Initial(files, Some(limit), workers), steps)
    ensures |After(Initial(files, Some(limit), workers), steps).emitted| <= limit
  {
    InitialInv(files, Some(limit), workers);
    RunKeepsInv(Initial(files, Some(limit), workers), steps);
  }

  /** In every run the rows delivered are those of the slices, each a prefix of a batch that was read. */
  lemma SlicesArePrefixes<R(!new)>(files: seq<File<R>>, limit: Option<nat>, workers: nat, steps: seq<Step>)
    requires IsRun(Initial(files, limit, workers), steps)
    ensures var s := After(Initial(files, limit, workers), steps);
            && s.emitted == Delivered(s.slices)
            && forall k :: 0 <= k < |s.slices| ==>
                 && s.slices[k].rows != [] && s.slices[k].rows <= s.slices[k].batch
                 && (s.slices[k].rows != s.slices[k].batch ==> s.remaining == Some(0))
  {
    InitialInv(files, limit, workers);
    RunKeepsInv(Initial(files, limit, workers), steps);
  }

  /**
   When all workers have finished, the scan has delivered visible rows only, each at most as often as
   it occurs: all of them if the limit allows, else exactly as many as the limit.
   */
  lemma CompleteScan<R(!new)>(files: seq<File<R>>, limit: Option<nat>, workers: nat, steps: seq<Step>)
    requires workers > 0 && IsRun(Initial(files, limit, workers), steps)
    requires var s := After(Initial(files, limit, workers), steps);
             forall w :: 0 <= w < |s.workers| ==> s.workers[w].Finished?
    ensures var emitted := After(Initial(files, limit, workers), steps).emitted;
            var visible := multiset(VisibleRows(files));
            && emitted <= visible
            && |emitted| == (if limit.Some? then Min(limit.value, |visible|) else |visible|)
            && (limit.None? || |visible| <= limit.value ==> emitted == visible)
  {
    var s := After(Initial(files, limit, workers), steps);
    InitialInv(files, limit, workers);
    RunKeepsInv(Initial(files, limit, workers), steps);
    assert WorkerOk(s, 0);
    forall row ensures s.emitted[row] <= multiset(VisibleRows(files))[row] { assert Balanced(s, row); }
    if s.remaining != Some(0) {
      forall row ensures s.emitted[row] == multiset(VisibleRows(files))[row] {
        assert Balanced(s, row);
        NonePending(s.workers, row);
        assert |s.lost| == 0 ==> row !in s.lost;
      }
      assert s.emitted == multiset(VisibleRows(files));
    } else {
      SmallerIsShorter(s.emitted, multiset(VisibleRows(files)));
    }
  }

  lemma SmallerIsShorter<R>(a: multiset<R>, b: multiset<R>)
    requires a <= b
    ensures |a| <= |b| && (|a| == |b| ==> a == b)
  {
    assert b == a + (b - a);
  }

  ghost predicate NoGap<R>(file: File<R>) {
    forall i, j :: 0 <= i < j < |file| && file[i] == [] ==> file[j] == []
  }

  /** Nothing of a file is passed over exactly when no empty batch precedes a non-empty one. */
  lemma {:induction false} VisibleIsWholeFile<R>(file: File<R>)
    ensures Visible(file) == Concat(file) <==> NoGap(file)
  {
    if file != [] {
      var rest := file[1..];
      if file[0] == [] {
        ConcatIsEmpty(file);
      } else {
        VisibleIsWholeFile(rest);
        assert (file[0] + Visible(rest))[|file[0]|..] == Visible(rest);
        assert (file[0] + Concat(rest))[|file[0]|..] == Concat(rest);
        assert file == [file[0]] + rest;
        assert forall j :: 0 < j < |file| ==> file[j] == rest[j - 1];
        assert forall j :: 0 <= j < |rest| ==> rest[j] == file[j + 1];
      }
    }
  }

  lemma {:induction false} ConcatIsEmpty<R>(file: File<R>)
    ensures Concat(file) == [] <==> forall i :: 0 <= i < |file| ==> file[i] == []
  {
    if file != [] {
      ConcatIsEmpty(file[1..]);
      assert file == [file[0]] + file[1..];
    }
  }

  lemma {:induction false} VisibleIsEverything<R>(files: seq<File<R>>)
    requires forall f :: 0 <= f < |files| ==> NoGap(files[f])
    ensures VisibleRows(files) == Concat(seq(|files|, f requires 0 <= f < |files| => Concat(files[f])))
  {
    if files != [] {
      VisibleIsEverything(files[1..]);
      VisibleIsWholeFile(files[0]);
      var whole := seq(|files|, f requires 0 <= f < |files| => Concat(files[f]));
      assert whole[1..] == seq(|files[1..]|, f requires 0 <= f < |files[1..]| => Concat(files[1..][f]));
    }
  }

  /** A file whose first batch is empty: the scan completes without its row. */
  lemma EmptyBatchHidesRows()
    ensures var s := Initial([[[], [7]]], None, 1);
            var steps := [Check(0), Take(0), Read(0), Check(0), Take(0)];
            && IsRun(s, steps)
            && After(s, steps).workers == [Finished] && After(s, steps).emitted == multiset{}
  {
    var s0 := Initial([[[], [7]]], None, 1);
    var s1 := Next(s0, Check(0));
    var s2 := Next(s1, Take(0));
    var s3 := Next(s2, Read(0));
    var s4 := Next(s3, Check(0));
    var s5 := Next(s4, Take(0));
    assert s5.workers == [Finished];
    var steps := [Check(0), Take(0), Read(0), Check(0), Take(0)];
    assert steps[1..][1..][1..][1..] == [Take(0)] && steps[1..][1..][1..] == [Check(0), Take(0)];
    assert IsRun(s5, []) && After(s5, []) == s5;
    assert IsRun(s4, [Take(0)]) && After(s4, [Take(0)]) == s5;
    assert IsRun(s3, [Check(0), Take(0)]) && After(s3, [Check(0), Take(0)]) == s5;
    assert IsRun(s2, steps[1..][1..]) && After(s2, steps[1..][1..]) == s5;
    assert IsRun(s1, steps[1..]) && After(s1, steps[1..]) == s5;
  }

  // ---------------------------------------------------------------- termination

  /** The steps a file can cost: one per batch, and a claim may make every other claim fail once. */
  ghost function FileCost(batches: nat, workers: nat): (cost: nat)
    ensures cost >= 3
  {
    3 + batches * (workers + 3)
  }

  ghost function FilesCost<R>(files: seq<File<R>>, workers: nat): nat {
    if files == [] then 0 else FileCost(|files[0]|, workers) + FilesCost(files[1..], workers)
  }

  /** What a worker can still cost; a claim with an outdated value fails once before it can succeed. */
  ghost function WorkerCost<R>(s: State<R>): nat -> nat {
    (w: nat) =>
      if w >= |s.workers| then 0
      else
        match s.workers[w]
        case Top => 2
        case Taking => 1
        case Finished => 0
        case Reading(batches) => FileCost(|batches|, |s.workers|)
        case Claiming(_, rest, current) =>
          FileCost(|rest|, |s.workers|) + |s.workers| + if s.remaining == Some(current) then 1 else 2
  }

  ghost function Cost<R>(s: State<R>): nat {
    var n := |s.workers|;
    SumTo(WorkerCost(s), n) + if s.nextFile < |s.files| then FilesCost(s.files[s.nextFile..], n) else 0
  }

  ghost predicate IsSpurious(step: Step) { step.Swap? && step.spurious }

  lemma NextBatchCosts(batches: nat, workers: nat)
    requires batches > 0
    ensures FileCost(batches, workers) == FileCost(batches - 1, workers) + workers + 3
  {
    assert batches * (workers + 3) == (batches - 1) * (workers + 3) + (workers + 3);
  }

  ghost predicate OnlyMoves<R>(s: State<R>, n: State<R>, w: nat) {
    && w < |s.workers| == |n.workers| && n.workers == s.workers[w := n.workers[w]]
    && n.files == s.files && n.nextFile == s.nextFile
  }

  lemma MoveCosts<R>(s: State<R>, n: State<R>, w: nat)
    requires OnlyMoves(s, n, w) && n.remaining == s.remaining
    ensures Cost(n) + WorkerCost(s)(w) <= Cost(s) + WorkerCost(n)(w)
  {
    hide FileCost, FilesCost;
    SumChanges(WorkerCost(s), WorkerCost(n), w, 0, |s.workers|);
  }

  /** A claim may outdate what every other worker knows. */
  lemma ClaimCosts<R>(s: State<R>, n: State<R>, w: nat)
    requires OnlyMoves(s, n, w)
    ensures Cost(n) + WorkerCost(s)(w) + 1 <= Cost(s) + WorkerCost(n)(w) + |s.workers|
  {
    hide FileCost, FilesCost;
    SumChanges(WorkerCost(s), WorkerCost(n), w, 1, |s.workers|);
  }

  lemma TakeShrinks<R>(s: State<R>, w: nat)
    requires Enabled(s, Take(w))
    ensures Cost(Next(s, Take(w))) < Cost(s)
  {
    hide FileCost;
    var n := Next(s, Take(w));
    SumChanges(WorkerCost(s), WorkerCost(n), w, 0, |s.workers|);
    if s.nextFile < |s.files| {
      var files := s.files[s.nextFile..];
      assert files[1..] == s.files[s.nextFile + 1..];
      assert FilesCost(files, |s.workers|) == FileCost(|files[0]|, |s.workers|) + FilesCost(files[1..], |s.workers|);
      assert FilesCost<R>([], |s.workers|) == 0;
    }
  }

  lemma ReadShrinks<R>(s: State<R>, w: nat)
    requires Enabled(s, Read(w))
    ensures Cost(Next(s, Read(w))) < Cost(s)
  {
    hide FileCost, Cost;
    var n, batches := Next(s, Read(w)), s.workers[w].batches;
    if batches != [] { NextBatchCosts(|batches|, |s.workers|); }
    MoveCosts(s, n, w);
  }

  /** A failure costs nothing but one that was in store, a claim pays for the failures it causes. */
  lemma SwapShrinks<R>(s: State<R>, w: nat, spurious: bool)
    requires Enabled(s, Swap(w, spurious))
    ensures Cost(Next(s, Swap(w, spurious))) <= Cost(s)
    ensures !spurious ==> Cost(Next(s, Swap(w, spurious))) < Cost(s)
  {
    hide FileCost, Cost, Visible;
    var n := Next(s, Swap(w, spurious));
    if n.remaining == s.remaining { MoveCosts(s, n, w); } else { ClaimCosts(s, n, w); }
  }

  lemma StepShrinks<R>(s: State<R>, step: Step)
    requires Enabled(s, step)
    ensures Cost(Next(s, step)) <= Cost(s) && (!IsSpurious(step) ==> Cost(Next(s, step)) < Cost(s))
  {
    hide Cost;
    match step
    case Check(w) => CheckShrinks(s, w);
    case Take(w) => TakeShrinks(s, w);
    case Read(w) => ReadShrinks(s, w);
    case Swap(w, spurious) => SwapShrinks(s, w, spurious);
  }

  lemma CheckShrinks<R>(s: State<R>, w: nat)
    requires Enabled(s, Check(w))
    ensures Cost(Next(s, Check(w))) < Cost(s)
  {
    hide FileCost, Cost;
    MoveCosts(s, Next(s, Check(w)), w);
  }

  ghost function SpuriousFailures(steps: seq<Step>): nat {
    if steps == [] then 0 else (if IsSpurious(steps[0]) then 1 else 0) + SpuriousFailures(steps[1..])
  }

  /** Every run is bounded up to its spurious failures: real contention alone cannot keep workers from finishing. */
  lemma {:induction false} RunsAreBounded<R>(s: State<R>, steps: seq<Step>)
    requires IsRun(s, steps)
    ensures |steps| <= Cost(s) + SpuriousFailures(steps)
    decreases |steps|
  {
    hide Cost, Next, Enabled;
    if steps != [] {
      StepShrinks(s, steps[0]);
      RunsAreBounded(Next(s, steps[0]), steps[1..]);
    }
  }

  /** A worker that has not finished can take a step, so a scan that stands still is complete. */
  lemma QuietMeansFinished<R(!new)>(s: State<R>)
    requires Inv(s) && forall step :: !Enabled(s, step)
    ensures forall w :: 0 <= w < |s.workers| ==> s.workers[w].Finished?
  {
    forall w | 0 <= w < |s.workers| ensures s.workers[w].Finished? {
      assert WorkerOk(s, w);
      assert !Enabled(s, Check(w)) && !Enabled(s, Take(w)) && !Enabled(s, Read(w)) && !Enabled(s, Swap(w, false));
    }
  }

  /** From the start: two steps per worker and the cost of every file, besides spurious failures. */
  lemma ScanIsBounded<R>(files: seq<File<R>>, limit: Option<nat>, workers: nat, steps: seq<Step>)
    requires IsRun(Initial(files, limit, workers), steps)
    ensures |steps| <= 2 * workers + FilesCost(files, workers) + SpuriousFailures(steps)
  {
    var s := Initial(files, limit, workers);
    RunsAreBounded(s, steps);
    SumBound(WorkerCost(s), 2, workers);
    assert files[0..] == files;
  }
}
