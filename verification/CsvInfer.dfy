/**
 Sampling for schema inference: how much of a prefix consists of whole records, and the loop that
 grows the sample until it holds enough of them.
 */
module CsvInfer {
  import opened Common
  import opened CsvRecords
  import CsvMorsel

  /** Whether the scanner is inside quotes once all of `input` has been consumed. */
  function QuotedAtEnd(d: Dialect, input: Bytes, at: nat, inQuotes: bool): bool
    requires at <= |input|
    decreases |input| - at
  {
    if at == |input| then inQuotes
    else
      match Lex(d, input, at, inQuotes, true)
      case Wait => inQuotes
      case Advance(width) => QuotedAtEnd(d, input, at + width, inQuotes)
      case Toggle => QuotedAtEnd(d, input, at + 1, !inQuotes)
      case Newline => QuotedAtEnd(d, input, at + 1, inQuotes)
  }

  /** Whether the last byte is an escape, inside quotes, with nothing left to escape. */
  function DanglingEscape(d: Dialect, input: Bytes, at: nat, inQuotes: bool): bool
    requires at <= |input|
    decreases |input| - at
  {
    if at == |input| then false
    else if at + 1 == |input| && inQuotes && d.escape == Some(input[at]) then true
    else
      match Lex(d, input, at, inQuotes, true)
      case Wait => false
      case Advance(width) => DanglingEscape(d, input, at + width, inQuotes)
      case Toggle => DanglingEscape(d, input, at + 1, !inQuotes)
      case Newline => DanglingEscape(d, input, at + 1, inQuotes)
  }

  /** The quote flag the sampler ends with: it does not treat a dangling escape as one. */
  function SampledQuote(d: Dialect, input: Bytes): bool {
    if d.escape == Some(d.quote) && DanglingEscape(d, input, 0, false) then false
    else QuotedAtEnd(d, input, 0, false)
  }

  /** At end of file an unquoted, non-empty tail is one more whole record. */
  function CountsTail(d: Dialect, input: Bytes, atEof: bool): bool {
    atEof && !SampledQuote(d, input) && Tail(d, input) != []
  }

  function CompleteEnd(d: Dialect, input: Bytes, atEof: bool): nat {
    if CountsTail(d, input, atEof) then |input| else |Concat(CompleteRecords(d, input))|
  }

  function CompleteCount(d: Dialect, input: Bytes, atEof: bool): nat {
    |CompleteRecords(d, input)| + if CountsTail(d, input, atEof) then 1 else 0
  }

  /** What the sampler counts: all records when the file ends outside quotes, else the terminated ones. */
  lemma CountsRecords(d: Dialect, input: Bytes, atEof: bool)
    ensures var records := if atEof && !SampledQuote(d, input) then Records(d, input) else CompleteRecords(d, input);
            CompleteCount(d, input, atEof) == |records| && CompleteEnd(d, input, atEof) == |Concat(records)|
  {
    RecordsPartition(d, input);
    assert CompleteRecords(d, input) + [] == CompleteRecords(d, input);
  }

  // ---------------------------------------------------------------- the prefix scan

  /** The loop has seen whole records `done` up to `end` and reached `at` inside the next one. */
  ghost predicate Reached(d: Dialect, input: Bytes, done: nat, end: nat, at: nat, inQuotes: bool) {
    && end <= at <= |input|
    && |CompleteRecords(d, input)| == done + |CompleteRecords(d, input[end..])|
    && |Concat(CompleteRecords(d, input))| == end + |Concat(CompleteRecords(d, input[end..]))|
    && Tail(d, input) == Tail(d, input[end..])
    && NextBoundary(d, input, end, false) == NextBoundary(d, input, at, inQuotes)
    && QuotedAtEnd(d, input, 0, false) == QuotedAtEnd(d, input, at, inQuotes)
    && DanglingEscape(d, input, 0, false) == DanglingEscape(d, input, at, inQuotes)
  }

  lemma ReachedNext(d: Dialect, input: Bytes, done: nat, end: nat, at: nat, inQuotes: bool)
    requires Reached(d, input, done, end, at, inQuotes) && at < |input|
    requires !(at + 1 == |input| && inQuotes && d.escape == Some(input[at]))
    ensures var event := Lex(d, input, at, inQuotes, true);
            if event.Advance? then Reached(d, input, done, end, at + event.width, inQuotes)
            else if event.Toggle? then Reached(d, input, done, end, at + 1, !inQuotes)
            else Reached(d, input, done + 1, at + 1, at + 1, inQuotes)
  {
    hide Lex, CompleteRecords, Tail;
    if Lex(d, input, at, inQuotes, true).Newline? {
      var rest := input[end..];
      assert input == input[..end] + rest;
      BoundaryShift(d, input[..end], rest, 0, false);
      assert NextBoundary(d, rest, 0, false) == Some(at + 1 - end);
      NextRecord(d, rest, at + 1 - end);
      assert rest[at + 1 - end..] == input[at + 1..];
    }
  }

  lemma NextRecord(d: Dialect, input: Bytes, end: nat)
    requires end <= |input| && NextBoundary(d, input, 0, false) == Some(end)
    ensures CompleteRecords(d, input) == [input[..end]] + CompleteRecords(d, input[end..])
    ensures |Concat(CompleteRecords(d, input))| == end + |Concat(CompleteRecords(d, input[end..]))|
    ensures Tail(d, input) == Tail(d, input[end..])
  {
    hide NextBoundary;
    assert ([input[..end]] + CompleteRecords(d, input[end..]))[1..] == CompleteRecords(d, input[end..]);
  }

  lemma ReachedEnd(d: Dialect, input: Bytes, done: nat, end: nat, inQuotes: bool)
    requires Reached(d, input, done, end, |input|, inQuotes)
    ensures |CompleteRecords(d, input)| == done && |Concat(CompleteRecords(d, input))| == end
    ensures |Tail(d, input)| == |input| - end
    ensures QuotedAtEnd(d, input, 0, false) == inQuotes && !DanglingEscape(d, input, 0, false)
  {
    var rest := input[end..];
    assert input == input[..end] + rest;
    BoundaryShift(d, input[..end], rest, 0, false);
    assert NextBoundary(d, rest, 0, false) == None;
  }

  /**
   How many bytes and records of `bytes` are whole.  For every dialect the boundaries are those of
   the record structure, whatever state the quotes are in at the end.
   */
  method CompletePrefix(bytes: Bytes, d: Dialect, atEof: bool) returns (lastComplete: nat, records: nat)
    ensures lastComplete == CompleteEnd(d, bytes, atEof)
    ensures records == CompleteCount(d, bytes, atEof)
  {
    var inQuotes, index := false, 0;
    lastComplete, records := 0, 0;
    assert bytes[0..] == bytes;
    ghost var dangling := false;
    assert Reached(d, bytes, 0, 0, 0, false);
    hide Reached, CompleteRecords, Tail, NextBoundary, QuotedAtEnd, DanglingEscape;
    while index < |bytes|
      invariant index <= |bytes|
      invariant !dangling ==> Reached(d, bytes, records, lastComplete, index, inQuotes)
      invariant dangling ==> index == |bytes| && SampledEnd(d, bytes, records, lastComplete, inQuotes)
      decreases |bytes| - index
    {
      var byte := bytes[index];
      if index + 1 == |bytes| && inQuotes && d.escape == Some(byte) {
        DanglingLast(d, bytes, records, lastComplete, index);
        dangling := true;
      } else {
        ReachedNext(d, bytes, records, lastComplete, index, inQuotes);
      }
      if inQuotes && d.escape == Some(byte) && index + 1 < |bytes| {
        index := index + 2;
        continue;
      }
      if byte == d.quote {
        if inQuotes && index + 1 < |bytes| && bytes[index + 1] == d.quote {
          index := index + 2;
          continue;
        }
        inQuotes := !inQuotes;
      } else if byte == NEWLINE && !inQuotes {
        records := records + 1;
        lastComplete := index + 1;
      }
      index := index + 1;
    }
    if !dangling { ReachedEnd(d, bytes, records, lastComplete, inQuotes); }
    if atEof && !inQuotes && lastComplete < |bytes| {
      records := records + 1;
      lastComplete := |bytes|;
    }
  }

  /** What the scan knows after its last byte. */
  ghost predicate SampledEnd(d: Dialect, input: Bytes, done: nat, end: nat, inQuotes: bool) {
    && |CompleteRecords(d, input)| == done && |Concat(CompleteRecords(d, input))| == end
    && |Tail(d, input)| == |input| - end
    && SampledQuote(d, input) == inQuotes
  }

  lemma DanglingLast(d: Dialect, input: Bytes, done: nat, end: nat, at: nat)
    requires Reached(d, input, done, end, at, true)
    requires at + 1 == |input| && d.escape == Some(input[at])
    ensures SampledEnd(d, input, done, end, input[at] != d.quote)
  {
    assert Lex(d, input, at, true, true) == Advance(1);
    assert NextBoundary(d, input, at, true) == NextBoundary(d, input, |input|, true);
    var rest := input[end..];
    assert input == input[..end] + rest;
    BoundaryShift(d, input[..end], rest, 0, false);
    assert NextBoundary(d, rest, 0, false) == None;
    assert QuotedAtEnd(d, input, at, true) == QuotedAtEnd(d, input, |input|, true);
  }

  // ---------------------------------------------------------------- agreement and stability

  /**
   The sampler's closing quote flag is the scanner's exactly when the escape is not the quote byte
   or the input does not end in a dangling escape.
   */
  lemma SampledQuoteExact(d: Dialect, input: Bytes)
    ensures SampledQuote(d, input) == QuotedAtEnd(d, input, 0, false)
            <==> !(d.escape == Some(d.quote) && DanglingEscape(d, input, 0, false))
  {
    if DanglingEscape(d, input, 0, false) { DanglingIsQuoted(d, input, 0, false); }
  }

  lemma {:induction false} DanglingIsQuoted(d: Dialect, input: Bytes, at: nat, inQuotes: bool)
    requires at <= |input| && DanglingEscape(d, input, at, inQuotes)
    ensures QuotedAtEnd(d, input, at, inQuotes)
    decreases |input| - at
  {
    if at + 1 == |input| && inQuotes && d.escape == Some(input[at]) {
      assert QuotedAtEnd(d, input, at + 1, inQuotes);
    } else {
      match Lex(d, input, at, inQuotes, true) {
        case Advance(width) => DanglingIsQuoted(d, input, at + width, inQuotes);
        case Toggle => DanglingIsQuoted(d, input, at + 1, !inQuotes);
        case Newline => DanglingIsQuoted(d, input, at + 1, inQuotes);
      }
    }
  }

  /** With the quote as its own escape, `"a"` ends quoted for the splitter and unquoted for the sampler. */
  lemma SampledQuoteCanDiffer()
    ensures var d, input := Dialect(34, Some(34)), [34, 97, 34];
            QuotedAtEnd(d, input, 0, false) && !SampledQuote(d, input)
  {
    var d, input: Bytes := Dialect(34, Some(34)), [34, 97, 34];
    assert Lex(d, input, 0, false, true) == Toggle;
    assert Lex(d, input, 1, true, true) == Advance(1);
    assert DanglingEscape(d, input, 2, true);
    assert DanglingEscape(d, input, 1, true);
    DanglingIsQuoted(d, input, 0, false);
  }

  /**
   More input never disturbs what was already a whole record: the longer stream has the same
   records first, and every further one ends beyond the shorter stream.
   */
  lemma BoundariesAreStable(d: Dialect, input: Bytes, more: Bytes)
    ensures var short, long := CompleteRecords(d, input), CompleteRecords(d, input + more);
            && short <= long
            && (|long| > |short| ==> |Concat(long[..|short| + 1])| > |input|)
  {
    hide CompleteRecords, Tail, NextBoundary;
    var short, tail := CompleteRecords(d, input), Tail(d, input);
    CompleteRecordsPartition(d, input);
    CompleteRecordsAreRecords(d, input);
    ResplitRecords(d, short, tail + more);
    assert Concat(short) + (tail + more) == input + more;
    var later := CompleteRecords(d, tail + more);
    var long := CompleteRecords(d, input + more);
    assert long == short + later;
    if later != [] {
      FirstRecordBeyond(d, tail, more);
      assert long[..|short| + 1] == short + [later[0]];
      ConcatAppend(short, [later[0]]);
      assert Concat([later[0]]) == later[0];
    }
  }

  lemma FirstRecordBeyond(d: Dialect, tail: Bytes, more: Bytes)
    requires NextBoundary(d, tail, 0, false) == None
    requires CompleteRecords(d, tail + more) != []
    ensures |CompleteRecords(d, tail + more)[0]| > |tail|
  {
    BoundaryStable(d, tail, more, 0, false);
  }

  lemma {:induction false} QuotedShift(d: Dialect, prefix: Bytes, rest: Bytes, at: nat, inQuotes: bool)
    requires at <= |rest|
    ensures QuotedAtEnd(d, prefix + rest, |prefix| + at, inQuotes) == QuotedAtEnd(d, rest, at, inQuotes)
    decreases |rest| - at
  {
    hide Lex;
    if at < |rest| {
      LexShift(d, prefix, rest, at, inQuotes);
      match Lex(d, rest, at, inQuotes, true) {
        case Advance(width) => QuotedShift(d, prefix, rest, at + width, inQuotes);
        case Toggle => QuotedShift(d, prefix, rest, at + 1, !inQuotes);
        case Newline => QuotedShift(d, prefix, rest, at + 1, inQuotes);
      }
    }
  }

  /** `QuotedAtEnd` is the flag the streaming splitter is left with, wherever it cut morsels. */
  lemma {:induction false} QuotedAtEndIsSplitterFlag(d: Dialect, target: nat, st: CsvMorsel.State)
    requires st.Valid()
    ensures CsvMorsel.Run(d, target, st, true).0.inQuotes == QuotedAtEnd(d, st.buffer, st.scan, st.inQuotes)
    decreases |st.buffer| - st.scan
  {
    hide Lex, CsvMorsel.Run;
    CsvMorsel.RunUnfolds(d, target, st, true);
    var m := CsvMorsel.Step(d, target, st, true);
    if m.Go? {
      QuotedAtEndIsSplitterFlag(d, target, m.next);
      if m.next.buffer != st.buffer {
        var end := st.scan + 1;
        assert st.buffer == st.buffer[..end] + st.buffer[end..];
        QuotedShift(d, st.buffer[..end], st.buffer[end..], 0, st.inQuotes);
      }
    }
  }

  // ---------------------------------------------------------------- the sampling loop

  /** A byte source that delivers any non-empty amount per read until it is exhausted. */
  class CsvInput {
    const contents: Bytes
    var position: nat

    predicate Valid()
      reads this
    {
      position <= |contents|
    }

    constructor (contents: Bytes)
      ensures Valid() && this.contents == contents && position == 0
    {
      this.contents := contents;
      position := 0;
    }

    method Read(limit: nat) returns (chunk: Bytes)
      requires Valid()
      modifies this
      ensures Valid() && position == old(position) + |chunk|
      ensures chunk == contents[old(position)..position] && |chunk| <= limit
      ensures chunk == [] <==> limit == 0 || old(position) == |contents|
    {
      var available := Min(limit, |contents| - position);
      if available == 0 {
        chunk := [];
      } else {
        var n: nat :| 1 <= n <= available;
        chunk := contents[position..position + n];
        position := position + n;
      }
    }
  }

  datatype Sample = Sample(bytes: Bytes, completeEnd: nat)

  datatype SampleError = MemoryDenied | CapReached | NoProgress

  const INITIAL_SAMPLE_BYTES: nat := 1024 * 1024

  /**
   Reads until the sample holds `required` whole records or the input ends.  A read is always
   issued with room to spare below the cap, so an empty read is the end of the input, the loop
   terminates, and the no-progress error cannot occur.
   */
  method ReadSample(input: CsvInput, objectSize: nat, d: Dialect, cap: nat, required: nat, memory: nat)
    returns (r: Result<Sample, SampleError>)
    requires input.Valid() && input.position == 0
    requires cap > 0 && required > 0
    requires objectSize == 0 ==> input.contents == []
    modifies input
    ensures r.Ok? ==>
              var sample := r.value;
              && |sample.bytes| <= cap && sample.bytes <= input.contents
              && sample.completeEnd <= |sample.bytes|
              && ((CompleteCount(d, sample.bytes, false) >= required
                   && sample.completeEnd == CompleteEnd(d, sample.bytes, false))
                  || (sample.bytes == input.contents
                      && sample.completeEnd == CompleteEnd(d, sample.bytes, true)))
    ensures r == Err(CapReached) ==>
              |input.contents| >= cap && |CompleteRecords(d, input.contents[..cap])| < required
    ensures r == Err(MemoryDenied) ==> memory < Min(cap, Max(INITIAL_SAMPLE_BYTES, 2 * |input.contents|))
    ensures r != Err(NoProgress)
  {
    if objectSize == 0 {
      EmptyPrefix(d);
      return Ok(Sample([], 0));
    }
    var reserved := Min(cap, INITIAL_SAMPLE_BYTES);
    if reserved > memory { return Err(MemoryDenied); }
    var bytes: Bytes := [];
    while true
      invariant input.Valid() && input.position == |bytes| && bytes == input.contents[..|bytes|]
      invariant |bytes| < reserved <= cap && reserved <= memory
      decreases |input.contents| - |bytes|
    {
      var before := |bytes|;
      var remaining := reserved - |bytes|;
      var chunk := input.Read(remaining);
      bytes := bytes + chunk;
      var atEof := chunk == [];
      var completeEnd, records := CompletePrefix(bytes, d, atEof);
      CompleteEndBound(d, bytes, atEof);
      if records >= required || atEof {
        return Ok(Sample(bytes, completeEnd));
      }
      if |bytes| >= cap {
        assert bytes == input.contents[..cap];
        return Err(CapReached);
      }
      if |bytes| == before {
        return Err(NoProgress);
      }
      if |bytes| == reserved {
        var next := Min(reserved * 2, cap);
        if next > memory { return Err(MemoryDenied); }
        reserved := next;
      }
    }
  }

  lemma EmptyPrefix(d: Dialect)
    ensures CompleteEnd(d, [], true) == 0
  {
  }

  lemma CompleteEndBound(d: Dialect, input: Bytes, atEof: bool)
    ensures CompleteEnd(d, input, atEof) <= |input|
  {
    CompleteRecordsPartition(d, input);
  }
}
