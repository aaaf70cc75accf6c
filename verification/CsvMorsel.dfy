/**
 The resumable record splitter.  `Step` and `Run` are the byte-at-a-time scanner as a function of
 the scan state; `RecordMorselizer` is the mutable splitter with its two scanning loops, each
 proved to compute `Run`.
 */
module CsvMorsel {
  import opened Common
  import opened CsvRecords

  datatype State = State(buffer: Bytes, scan: nat, inQuotes: bool, skipHeader: bool) {
    predicate Valid() { scan <= |buffer| }

    function Extend(more: Bytes): State { this.(buffer := buffer + more) }
  }

  /** A scanner move, or `Stop` when it must wait for more bytes. */
  datatype Move = Stop | Go(next: State, emitted: seq<Bytes>)

  /** What an unquoted newline ending at `end` does: drop the header, cut a morsel, or neither. */
  function AtNewline(target: nat, st: State, end: nat): (m: Move)
    requires 0 < end <= |st.buffer|
    ensures m.Go? && m.next.Valid()
    ensures |m.next.buffer| - m.next.scan == |st.buffer| - end
  {
    if st.skipHeader then Go(State(st.buffer[end..], 0, st.inQuotes, false), [])
    else if end >= target then Go(State(st.buffer[end..], 0, st.inQuotes, false), [st.buffer[..end]])
    else Go(st.(scan := end), [])
  }

  function Step(d: Dialect, target: nat, st: State, eof: bool): (m: Move)
    requires st.Valid()
    ensures m.Go? ==> m.next.Valid() && |m.next.buffer| - m.next.scan < |st.buffer| - st.scan
  {
    if st.scan == |st.buffer| then Stop
    else
      match Lex(d, st.buffer, st.scan, st.inQuotes, eof)
      case Wait => Stop
      case Advance(width) => Go(st.(scan := st.scan + width), [])
      case Toggle => Go(st.(scan := st.scan + 1, inQuotes := !st.inQuotes), [])
      case Newline => AtNewline(target, st, st.scan + 1)
  }

  /** Runs the scanner until it stops: the final state and the morsels cut on the way. */
  function Run(d: Dialect, target: nat, st: State, eof: bool): (r: (State, seq<Bytes>))
    requires st.Valid()
    ensures r.0.Valid()
    decreases |st.buffer| - st.scan
  {
    match Step(d, target, st, eof)
    case Stop => (st, [])
    case Go(next, emitted) =>
      var (final, rest) := Run(d, target, next, eof);
      (final, emitted + rest)
  }

  /** One unfolding of `Run`. */
  lemma RunUnfolds(d: Dialect, target: nat, st: State, eof: bool)
    requires st.Valid()
    ensures var m := Step(d, target, st, eof);
            if m.Stop? then
              Run(d, target, st, eof) == (st, [])
            else
              var (final, rest) := Run(d, target, m.next, eof);
              Run(d, target, st, eof) == (final, if m.emitted == [] then rest else m.emitted + rest)
  {
    var m := Step(d, target, st, eof);
    if m.Go? { assert [] + Run(d, target, m.next, eof).1 == Run(d, target, m.next, eof).1; }
  }

  /** `output` followed by whatever a run from `st` cuts is `goal`: what a scanning loop maintains. */
  ghost predicate Towards(d: Dialect, target: nat, eof: bool, goal: (State, seq<Bytes>), output: seq<Bytes>, st: State) {
    && st.Valid()
    && goal.0 == Run(d, target, st, eof).0
    && goal.1 == output + Run(d, target, st, eof).1
  }

  lemma TowardsStep(d: Dialect, target: nat, eof: bool, goal: (State, seq<Bytes>), output: seq<Bytes>, st: State)
    requires Towards(d, target, eof, goal, output, st)
    ensures st.Valid()
    ensures var m := Step(d, target, st, eof);
            if m.Stop? then goal == (st, output)
            else Towards(d, target, eof, goal, output + m.emitted, m.next)
  {
    hide Run;
    RunUnfolds(d, target, st, eof);
    assert output + [] == output;
  }

  lemma TowardsStart(d: Dialect, target: nat, eof: bool, st: State)
    requires st.Valid()
    ensures Towards(d, target, eof, Run(d, target, st, eof), [], st)
  {
    hide Run;
    var run := Run(d, target, st, eof);
    assert [] + run.1 == run.1;
  }

  lemma TowardsEnd(d: Dialect, target: nat, eof: bool, goal: (State, seq<Bytes>), output: seq<Bytes>, st: State)
    requires Towards(d, target, eof, goal, output, st) && st.scan == |st.buffer|
    ensures goal == (st, output)
  {
    TowardsStep(d, target, eof, goal, output, st);
  }

  /** What is left over at end of input: nothing of an unfinished header, else the buffered bytes. */
  function Flush(st: State): seq<Bytes> {
    if st.skipHeader || st.buffer == [] then [] else [st.buffer]
  }

  function Drain(d: Dialect, target: nat, st: State): seq<Bytes>
    requires st.Valid()
  {
    var (final, cut) := Run(d, target, st, true);
    cut + Flush(final)
  }

  /** A whole life of the splitter: one push per chunk, then finish. */
  function Feed(d: Dialect, target: nat, st: State, chunks: seq<Bytes>): seq<Bytes>
    requires st.Valid()
    decreases |chunks|
  {
    if chunks == [] then
      Drain(d, target, st)
    else
      var (next, cut) := Run(d, target, st.Extend(chunks[0]), false);
      cut + Feed(d, target, next, chunks[1..])
  }

  function Fresh(skipHeader: bool): State { State([], 0, false, skipHeader) }

  // ---------------------------------------------------------------- chunking

  /** A move made while more input may come is the move made with that input present. */
  lemma StepExtend(d: Dialect, target: nat, st: State, more: Bytes, eof: bool)
    requires st.Valid() && Step(d, target, st, false).Go?
    ensures var m := Step(d, target, st, false);
            Step(d, target, st.Extend(more), eof) == Go(m.next.Extend(more), m.emitted)
  {
    LexExtend(d, st.buffer, more, st.scan, st.inQuotes, eof);
    var long, end := st.Extend(more), st.scan + 1;
    assert long.buffer[end..] == st.buffer[end..] + more;
    assert long.buffer[..end] == st.buffer[..end];
  }

  /** Stopping early and resuming with more bytes is the same as having had them from the start. */
  lemma {:induction false} RunResumes(d: Dialect, target: nat, st: State, more: Bytes, eof: bool)
    requires st.Valid()
    ensures var (mid, cut) := Run(d, target, st, false);
            var (final, rest) := Run(d, target, mid.Extend(more), eof);
            Run(d, target, st.Extend(more), eof) == (final, cut + rest)
    decreases |st.buffer| - st.scan
  {
    var m := Step(d, target, st, false);
    if m.Stop? {
      assert Run(d, target, st, false) == (st, []);
      assert [] + Run(d, target, st.Extend(more), eof).1 == Run(d, target, st.Extend(more), eof).1;
    } else {
      StepExtend(d, target, st, more, eof);
      RunResumes(d, target, m.next, more, eof);
      var (mid, cut) := Run(d, target, m.next, false);
      var (final, rest) := Run(d, target, mid.Extend(more), eof);
      assert m.emitted + (cut + rest) == (m.emitted + cut) + rest;
    }
  }

  /** The first push of a feed, and what it contributes to draining the whole input. */
  lemma FirstPush(d: Dialect, target: nat, st: State, chunks: seq<Bytes>, rest: Bytes)
    returns (mid: State, cut: seq<Bytes>)
    requires st.Valid() && chunks != []
    ensures mid.Valid()
    ensures Feed(d, target, st, chunks) == cut + Feed(d, target, mid, chunks[1..])
    ensures Drain(d, target, st.Extend(chunks[0] + rest)) == cut + Drain(d, target, mid.Extend(rest))
  {
    var pushed := st.Extend(chunks[0]);
    mid, cut := Run(d, target, pushed, false).0, Run(d, target, pushed, false).1;
    RunResumes(d, target, pushed, rest, true);
    assert pushed.Extend(rest) == st.Extend(chunks[0] + rest);
  }

  /**
   For every dialect, target and header flag, and every way of cutting the input into pushes, the
   morsels are those of the whole input pushed at once.
   */
  lemma {:induction false} ChunkingIsInvisible(d: Dialect, target: nat, st: State, chunks: seq<Bytes>)
    requires st.Valid()
    ensures Feed(d, target, st, chunks) == Drain(d, target, st.Extend(Concat(chunks)))
    decreases |chunks|
  {
    if chunks == [] {
      assert st.Extend([]) == st;
    } else {
      var mid, cut := FirstPush(d, target, st, chunks, Concat(chunks[1..]));
      ChunkingIsInvisible(d, target, mid, chunks[1..]);
    }
  }

  // ---------------------------------------------------------------- meaning of a run

  /** At end of input the scanner goes straight to the next record boundary, or to the end. */
  lemma {:induction false} RunToBoundary(d: Dialect, target: nat, st: State)
    requires st.Valid()
    ensures match NextBoundary(d, st.buffer, st.scan, st.inQuotes)
            case None =>
              var (final, cut) := Run(d, target, st, true);
              final.buffer == st.buffer && final.skipHeader == st.skipHeader && cut == []
            case Some(end) =>
              var m := AtNewline(target, st.(inQuotes := false), end);
              var (final, rest) := Run(d, target, m.next, true);
              Run(d, target, st, true) == (final, if m.emitted == [] then rest else m.emitted + rest)
    decreases |st.buffer| - st.scan
  {
    hide Run, Lex;
    RunUnfolds(d, target, st, true);
    if st.scan < |st.buffer| && !Lex(d, st.buffer, st.scan, st.inQuotes, true).Newline? {
      hide AtNewline;
      RunToBoundary(d, target, Step(d, target, st, true).next);
    }
  }

  lemma DrainAtBoundary(d: Dialect, target: nat, st: State)
    requires st.Valid() && !st.inQuotes
    ensures match NextBoundary(d, st.buffer, st.scan, false)
            case None => Drain(d, target, st) == Flush(st)
            case Some(end) =>
              var m := AtNewline(target, st, end);
              Drain(d, target, st) == m.emitted + Drain(d, target, m.next)
  {
    hide Run, NextBoundary;
    RunToBoundary(d, target, st);
    assert st.(inQuotes := false) == st;
  }

  /** With whole records `open` already scanned, the rest of the run packs the remaining records. */
  lemma {:induction false} DrainPacksRecords(d: Dialect, target: nat, open: Bytes, rest: Bytes)
    ensures Drain(d, target, State(open + rest, |open|, false, false)) == Pack(target, Records(d, rest), open)
    decreases |rest|
  {
    hide Drain, Run, Records, NextBoundary;
    var st := State(open + rest, |open|, false, false);
    BoundaryShift(d, open, rest, 0, false);
    DrainAtBoundary(d, target, st);
    var boundary := NextBoundary(d, rest, 0, false);
    if boundary.None? {
      PackTail(target, open, rest);
      RecordsUnterminated(d, rest);
    } else {
      var head, later := rest[..boundary.value], rest[boundary.value..];
      var end := |open| + |head|;
      RecordsHead(d, rest);
      assert st.buffer == (open + head) + later;
      assert st.buffer[..end] == open + head && st.buffer[end..] == later;
      if end >= target {
        DrainPacksRecords(d, target, [], later);
        assert [] + later == later;
      } else {
        DrainPacksRecords(d, target, open + head, later);
      }
    }
  }

  lemma PackTail(target: nat, open: Bytes, rest: Bytes)
    ensures Pack(target, if rest == [] then [] else [rest], open) ==
            if open + rest == [] then [] else [open + rest]
  {
    if rest == [] {
      assert open + rest == open;
    } else {
      assert [rest][1..] == [];
      assert Pack(target, [], []) == [] && Pack(target, [], open + rest) == [open + rest];
    }
  }

  lemma RecordsUnterminated(d: Dialect, input: Bytes)
    requires NextBoundary(d, input, 0, false).None?
    ensures Records(d, input) == if input == [] then [] else [input]
  {
    hide NextBoundary;
  }

  lemma RecordsHead(d: Dialect, input: Bytes)
    requires NextBoundary(d, input, 0, false).Some?
    ensures var end := NextBoundary(d, input, 0, false).value;
            var records := Records(d, input);
            records != [] && records[0] == input[..end] && records[1..] == Records(d, input[end..])
  {
  }

  /**
   The splitter delivers exactly the morsels the record structure calls for, however the input
   arrives: greedy packs of whole records, minus the header record when one is to be skipped.
   */
  lemma FeedDeliversMorsels(d: Dialect, target: nat, skipHeader: bool, chunks: seq<Bytes>)
    ensures Feed(d, target, Fresh(skipHeader), chunks) == Morsels(d, target, skipHeader, Concat(chunks))
  {
    var input := Concat(chunks);
    ChunkingIsInvisible(d, target, Fresh(skipHeader), chunks);
    var st := State(input, 0, false, skipHeader);
    assert Fresh(skipHeader).Extend(input) == st;
    if !skipHeader {
      DrainPacksRecords(d, target, [], input);
      assert [] + input == input;
    } else {
      DrainAtBoundary(d, target, st);
      var boundary := NextBoundary(d, input, 0, false);
      if boundary.Some? {
        var later := input[boundary.value..];
        DrainPacksRecords(d, target, [], later);
        assert [] + later == later;
        RecordsHead(d, input);
      }
    }
  }

  /** The morsels, laid end to end, are the input without its header record. */
  lemma MorselsCoverInput(d: Dialect, target: nat, skipHeader: bool, input: Bytes)
    ensures var body := Concat(Morsels(d, target, skipHeader, input));
            if skipHeader && input != [] then
              Records(d, input) != [] && input == Records(d, input)[0] + body
            else
              body == input
  {
    RecordsPartition(d, input);
    var records := Records(d, input);
    if skipHeader && records != [] {
      PackConcat(target, records[1..], []);
      assert Concat(records) == records[0] + Concat(records[1..]);
      assert input != [] by {
        CompleteRecordsNonEmpty(d, input);
        assert records[0] != [];
      }
    } else {
      PackConcat(target, records, []);
    }
  }

  /** Skipping the header is splitting what follows the first record. */
  lemma HeaderIsOneRecord(d: Dialect, target: nat, input: Bytes)
    requires input != []
    ensures var records := Records(d, input);
            && records != [] && records[0] <= input
            && Morsels(d, target, true, input) == Morsels(d, target, false, input[|records[0]|..])
  {
    hide NextBoundary;
    if NextBoundary(d, input, 0, false).Some? {
      RecordsHead(d, input);
    } else {
      assert Records(d, input) == [input] && Records(d, input)[1..] == [];
      assert input[|input|..] == [];
      EmptyHasNoRecords(d);
    }
  }

  lemma EmptyHasNoRecords(d: Dialect)
    ensures Records(d, []) == []
  {
  }

  lemma CompleteRecordsNonEmpty(d: Dialect, input: Bytes)
    ensures forall k :: 0 <= k < |Records(d, input)| ==> Records(d, input)[k] != []
  {
    CompleteRecordsAreRecords(d, input);
    var complete := CompleteRecords(d, input);
    forall k | 0 <= k < |Records(d, input)| ensures Records(d, input)[k] != [] {
      if k < |complete| {
        assert IsRecord(d, complete[k]);
      }
    }
  }

  /**
   Splitting each morsel on its own gives back exactly the records of the stream: no record is
   torn, merged or reordered, and every morsel but the last ends at an unquoted newline and is the
   shortest run of whole records that reaches the target.
   */
  lemma MorselsResplit(d: Dialect, target: nat, input: Bytes)
    ensures var morsels := Morsels(d, target, false, input);
            var groups := Groups(target, Records(d, input), []);
            && Concat(groups) == Records(d, input)
            && |groups| == |morsels|
            && (forall k :: 0 <= k < |morsels| ==> Records(d, morsels[k]) == groups[k])
            && (forall k :: 0 <= k < |morsels| - 1 ==> Tail(d, morsels[k]) == [] && Minimal(target, groups[k]))
  {
    var records := Records(d, input);
    CompleteRecordsNonEmpty(d, input);
    PackIsMinimalGrouping(target, records, []);
    assert [] + records == records;
    var morsels, groups := Morsels(d, target, false, input), Groups(target, records, []);
    forall k | 0 <= k < |morsels|
      ensures Records(d, morsels[k]) == groups[k]
      ensures k < |morsels| - 1 ==> Tail(d, morsels[k]) == []
    {
      assert morsels[k] == Concat(groups[k]);
      GroupOfRecords(d, input, groups, k);
      var complete, rest := SplitGroup(d, input, groups[k], k == |groups| - 1);
      ResplitRecords(d, complete, rest);
      if rest == [] {
        assert groups[k] == complete;
        assert Concat(complete) + [] == Concat(complete);
      } else {
        ConcatAppend(complete, [rest]);
        assert Concat([rest]) == rest;
      }
    }
  }

  /** Every record of a group is terminated, except perhaps the very last record of the stream. */
  ghost predicate GroupShape(d: Dialect, input: Bytes, group: seq<Bytes>, last: bool) {
    forall j :: 0 <= j < |group| ==>
      IsRecord(d, group[j]) || (last && j == |group| - 1 && group[j] == Tail(d, input) && group[j] != [])
  }

  lemma {:induction false} GroupOfRecords(d: Dialect, input: Bytes, groups: seq<seq<Bytes>>, k: nat)
    requires Concat(groups) == Records(d, input) && k < |groups|
    requires forall g :: 0 <= g < |groups| - 1 ==> groups[g] != []
    requires |groups| > 0 ==> groups[|groups| - 1] != []
    ensures GroupShape(d, input, groups[k], k == |groups| - 1)
  {
    var before, after := groups[..k], groups[k + 1..];
    assert groups == before + ([groups[k]] + after);
    ConcatAppend(before, [groups[k]] + after);
    ConcatAppend([groups[k]], after);
    assert Concat([groups[k]]) == groups[k];
    var records := Records(d, input);
    var base := |Concat(before)|;
    assert records == Concat(before) + (groups[k] + Concat(after));
    CompleteRecordsAreRecords(d, input);
    if k < |groups| - 1 { ConcatNonEmpty(after); }
    forall j | 0 <= j < |groups[k]|
      ensures IsRecord(d, groups[k][j])
        || (k == |groups| - 1 && j == |groups[k]| - 1 && groups[k][j] == Tail(d, input) && groups[k][j] != [])
    {
      assert groups[k][j] == records[base + j];
      if base + j < |CompleteRecords(d, input)| {
        assert IsRecord(d, CompleteRecords(d, input)[base + j]);
      }
    }
  }

  lemma ConcatNonEmpty<T>(pieces: seq<seq<T>>)
    requires pieces != [] && pieces[|pieces| - 1] != []
    ensures Concat(pieces) != []
  {
    var n := |pieces| - 1;
    assert pieces == pieces[..n] + [pieces[n]];
    ConcatAppend(pieces[..n], [pieces[n]]);
    assert Concat([pieces[n]]) == pieces[n];
  }

  lemma SplitGroup(d: Dialect, input: Bytes, group: seq<Bytes>, last: bool) returns (complete: seq<Bytes>, rest: Bytes)
    requires GroupShape(d, input, group, last)
    ensures forall j :: 0 <= j < |complete| ==> IsRecord(d, complete[j])
    ensures group == complete + if rest == [] then [] else [rest]
    ensures rest != [] ==> last && NextBoundary(d, rest, 0, false) == None
    ensures CompleteRecords(d, rest) == [] && Tail(d, rest) == rest
  {
    CompleteRecordsAreRecords(d, input);
    if group != [] && !IsRecord(d, group[|group| - 1]) {
      complete, rest := group[..|group| - 1], group[|group| - 1];
    } else {
      complete, rest := group, [];
    }
  }

  // ---------------------------------------------------------------- the splitter object

  /** First index in `[lo, hi)` holding `a` or `b`; the contract of memchr2. */
  function Memchr2(a: Byte, b: Byte, s: Bytes, lo: nat, hi: nat): (at: Option<nat>)
    requires lo <= hi <= |s|
    ensures at.Some? ==> lo <= at.value < hi && (s[at.value] == a || s[at.value] == b)
    ensures forall j :: lo <= j < hi && (at.Some? ==> j < at.value) ==> s[j] != a && s[j] != b
    decreases hi - lo
  {
    if lo == hi then None
    else if s[lo] == a || s[lo] == b then Some(lo)
    else Memchr2(a, b, s, lo + 1, hi)
  }

  /** Bytes on which the escape-free scanner only advances can be jumped over. */
  lemma {:induction false} TowardsSkips(d: Dialect, target: nat, eof: bool, goal: (State, seq<Bytes>),
                                        output: seq<Bytes>, st: State, upTo: nat)
    requires Towards(d, target, eof, goal, output, st)
    requires st.scan <= upTo <= |st.buffer| && d.escape == None
    requires forall j :: st.scan <= j < upTo ==> st.buffer[j] != d.quote
    requires forall j :: st.scan <= j < upTo && st.buffer[j] == NEWLINE && !st.inQuotes ==>
               !st.skipHeader && j + 1 < target
    ensures Towards(d, target, eof, goal, output, st.(scan := upTo))
    decreases upTo - st.scan
  {
    hide Towards;
    if st.scan < upTo {
      TowardsStep(d, target, eof, goal, output, st);
      var next := st.(scan := st.scan + 1);
      assert Step(d, target, st, eof) == Go(next, []);
      assert output + [] == output;
      TowardsSkips(d, target, eof, goal, output, next, upTo);
    } else {
      assert st.(scan := upTo) == st;
    }
  }

  class RecordMorselizer {
    const dialect: Dialect
    const targetBytes: nat
    var buffer: Bytes
    var scan: nat
    var inQuotes: bool
    var skipHeader: bool

    function View(): State
      reads this
    {
      State(buffer, scan, inQuotes, skipHeader)
    }

    predicate Valid()
      reads this
    {
      scan <= |buffer|
    }

    constructor (targetBytes: nat, quote: Byte, escape: Option<Byte>, skipHeader: bool)
      ensures Valid() && View() == Fresh(skipHeader)
      ensures this.targetBytes == targetBytes && dialect == Dialect(quote, escape)
    {
      this.targetBytes := targetBytes;
      dialect := Dialect(quote, escape);
      buffer, scan, inQuotes := [], 0, false;
      this.skipHeader := skipHeader;
    }

    method Push(bytes: Bytes) returns (morsels: seq<Bytes>)
      requires Valid()
      modifies this
      ensures Valid()
      ensures (View(), morsels) == Run(dialect, targetBytes, old(View()).Extend(bytes), false)
    {
      buffer := buffer + bytes;
      morsels := Scan(false);
    }

    method Finish() returns (morsels: seq<Bytes>)
      requires Valid()
      modifies this
      ensures Valid() && buffer == []
      ensures morsels == Drain(dialect, targetBytes, old(View()))
    {
      morsels := Scan(true);
      if skipHeader {
        buffer := [];
      } else if buffer != [] {
        morsels := morsels + [buffer];
        buffer := [];
      }
      scan := 0;
    }

    method Scan(eof: bool) returns (output: seq<Bytes>)
      requires Valid()
      modifies this
      ensures Valid()
      ensures (View(), output) == Run(dialect, targetBytes, old(View()), eof)
    {
      if dialect.escape.None? {
        output := ScanUnescaped(eof);
      } else {
        output := ScanWithEscape(eof);
      }
    }

    /** The byte-at-a-time loop. */
    method ScanWithEscape(eof: bool) returns (output: seq<Bytes>)
      requires Valid()
      modifies this
      ensures Valid()
      ensures (View(), output) == Run(dialect, targetBytes, old(View()), eof)
    {
      output := [];
      ghost var goal := Run(dialect, targetBytes, View(), eof);
      TowardsStart(dialect, targetBytes, eof, View());
      hide Run, Towards, Step;
      var waiting := false;
      while scan < |buffer| && !waiting
        invariant Valid()
        invariant Towards(dialect, targetBytes, eof, goal, output, View())
        invariant waiting ==> goal == (View(), output)
        decreases !waiting, |buffer| - scan
      {
        TowardsStep(dialect, targetBytes, eof, goal, output, View());
        var cut;
        waiting, cut := ConsumeByte(eof);
        if !waiting { output := output + cut; }
      }
      if !waiting { TowardsEnd(dialect, targetBytes, eof, goal, output, View()); }
    }

    /** One turn of the byte-at-a-time loop. */
    method ConsumeByte(eof: bool) returns (waiting: bool, cut: seq<Bytes>)
      requires Valid() && scan < |buffer|
      modifies this
      ensures Valid() && (!waiting ==> |buffer| - scan < old(|buffer| - scan))
      ensures Step(dialect, targetBytes, old(View()), eof) == if waiting then Stop else Go(View(), cut)
      ensures waiting ==> View() == old(View()) && cut == []
    {
      waiting, cut := false, [];
      var byte := buffer[scan];
      if inQuotes && dialect.escape == Some(byte) {
        if scan + 1 == |buffer| && !eof {
          waiting := true;
          return;
        }
        scan := Min(scan + 2, |buffer|);
        return;
      }
      if byte == dialect.quote {
        if inQuotes && scan + 1 < |buffer| && buffer[scan + 1] == dialect.quote {
          scan := scan + 2;
          return;
        }
        if scan + 1 == |buffer| && !eof {
          waiting := true;
          return;
        }
        inQuotes := !inQuotes;
      } else if byte == NEWLINE && !inQuotes {
        scan := scan + 1;
        if skipHeader {
          buffer, skipHeader, scan := buffer[scan..], false, 0;
        } else if scan >= targetBytes {
          cut := [buffer[..scan]];
          buffer, scan := buffer[scan..], 0;
        }
        return;
      }
      scan := scan + 1;
    }

    /** The fast path: jumps with memchr between the bytes that can matter. */
    method ScanUnescaped(eof: bool) returns (output: seq<Bytes>)
      requires Valid() && dialect.escape.None?
      modifies this
      ensures Valid()
      ensures (View(), output) == Run(dialect, targetBytes, old(View()), eof)
    {
      output := [];
      ghost var goal := Run(dialect, targetBytes, View(), eof);
      TowardsStart(dialect, targetBytes, eof, View());
      hide Run, Towards, Step;
      var waiting := false;
      while scan < |buffer| && !waiting
        invariant Valid()
        invariant Towards(dialect, targetBytes, eof, goal, output, View())
        invariant waiting ==> goal == (View(), output)
        decreases !waiting, |buffer| - scan
      {
        var found, cut := Seek(eof, goal, output);
        output := output + cut;
        if found {
          TowardsStep(dialect, targetBytes, eof, goal, output, View());
          waiting, cut := ConsumeSpecial(eof);
          if !waiting { output := output + cut; }
        }
      }
      if !waiting { TowardsEnd(dialect, targetBytes, eof, goal, output, View()); }
    }

    /**
     Jumps to the next quote, or unquoted newline where one can matter.  Below the target newlines
     are ignored, so the newline that lands exactly on the target is checked for here.
     */
    method Seek(ghost eof: bool, ghost goal: (State, seq<Bytes>), ghost output: seq<Bytes>)
      returns (found: bool, cut: seq<Bytes>)
      requires Valid() && scan < |buffer| && dialect.escape.None?
      requires Towards(dialect, targetBytes, eof, goal, output, View())
      modifies this
      ensures Valid() && Towards(dialect, targetBytes, eof, goal, output + cut, View())
      ensures if found then
                && scan < |buffer| && |buffer| - scan <= old(|buffer| - scan)
                && (buffer[scan] == dialect.quote || (buffer[scan] == NEWLINE && !inQuotes))
              else
                |buffer| - scan < old(|buffer| - scan)
    {
      hide Towards;
      found, cut := false, [];
      assert output + [] == output;
      ghost var entry := View();
      var next;
      if inQuotes {
        next := Memchr2(dialect.quote, dialect.quote, buffer, scan, |buffer|);
      } else if skipHeader || scan >= targetBytes {
        next := Memchr2(dialect.quote, NEWLINE, buffer, scan, |buffer|);
      } else {
        var end := Min(targetBytes, |buffer|);
        next := Memchr2(dialect.quote, dialect.quote, buffer, scan, end);
        if next.None? {
          scan := end;
          if end != 0 && end == targetBytes && buffer[end - 1] == NEWLINE {
            TowardsSkips(dialect, targetBytes, eof, goal, output, entry, end - 1);
            TowardsStep(dialect, targetBytes, eof, goal, output, entry.(scan := end - 1));
            cut := [buffer[..end]];
            buffer, scan := buffer[end..], 0;
          } else {
            TowardsSkips(dialect, targetBytes, eof, goal, output, entry, end);
          }
          return;
        }
      }
      found := next.Some?;
      scan := if found then next.value else |buffer|;
      TowardsSkips(dialect, targetBytes, eof, goal, output, entry, scan);
    }

    /** Handles the quote or newline that `Seek` stopped at. */
    method ConsumeSpecial(eof: bool) returns (waiting: bool, cut: seq<Bytes>)
      requires Valid() && scan < |buffer| && dialect.escape.None?
      requires buffer[scan] == dialect.quote || (buffer[scan] == NEWLINE && !inQuotes)
      modifies this
      ensures Valid() && (!waiting ==> |buffer| - scan < old(|buffer| - scan))
      ensures Step(dialect, targetBytes, old(View()), eof) == if waiting then Stop else Go(View(), cut)
      ensures waiting ==> View() == old(View()) && cut == []
    {
      waiting, cut := false, [];
      if buffer[scan] == dialect.quote {
        if inQuotes && scan + 1 < |buffer| && buffer[scan + 1] == dialect.quote {
          scan := scan + 2;
        } else if scan + 1 == |buffer| && !eof {
          waiting := true;
        } else {
          inQuotes := !inQuotes;
          scan := scan + 1;
        }
        return;
      }
      scan := scan + 1;
      if skipHeader {
        buffer, skipHeader, scan := buffer[scan..], false, 0;
      } else if scan >= targetBytes {
        cut := [buffer[..scan]];
        buffer, scan := buffer[scan..], 0;
      }
    }
  }
}
