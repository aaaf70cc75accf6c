/**
 The record structure of a CSV byte stream: where unquoted newlines fall, which
 records they delimit, and how whole records are packed into morsels.  Everything
 here is independent of buffering, chunking and scan state.
 */
module CsvRecords {
  import opened Common

  const NEWLINE: Byte := 10

  datatype Dialect = Dialect(quote: Byte, escape: Option<Byte>)

  /** What the scanner sees at one position; it may look one byte ahead. */
  datatype Event = Wait | Advance(width: nat) | Toggle | Newline

  /**
   One lexical decision.  Inside quotes an escape byte takes the next byte with it and a doubled
   quote stays inside; `Wait` means the decision needs a byte that has not arrived.
   */
  function Lex(d: Dialect, s: Bytes, at: nat, inQuotes: bool, eof: bool): (e: Event)
    requires at < |s|
    ensures e.Advance? ==> 1 <= e.width && at + e.width <= |s|
    ensures eof ==> !e.Wait?
    ensures e.Newline? ==> !inQuotes && s[at] == NEWLINE
  {
    var last := at + 1 == |s|;
    if inQuotes && d.escape == Some(s[at]) then
      if last then (if eof then Advance(1) else Wait) else Advance(2)
    else if s[at] == d.quote then
      if inQuotes && !last && s[at + 1] == d.quote then Advance(2)
      else if last && !eof then Wait
      else Toggle
    else if s[at] == NEWLINE && !inQuotes then
      Newline
    else
      Advance(1)
  }

  /** The offset just past the first newline at or after `at` that lies outside quotes. */
  function NextBoundary(d: Dialect, input: Bytes, at: nat, inQuotes: bool): (end: Option<nat>)
    requires at <= |input|
    ensures end.Some? ==> at < end.value <= |input|
    decreases |input| - at
  {
    if at == |input| then None
    else
      match Lex(d, input, at, inQuotes, true)
      case Wait => None
      case Advance(width) => NextBoundary(d, input, at + width, inQuotes)
      case Toggle => NextBoundary(d, input, at + 1, !inQuotes)
      case Newline => Some(at + 1)
  }

  /** The records of `input` that are terminated by an unquoted newline. */
  function CompleteRecords(d: Dialect, input: Bytes): seq<Bytes>
    decreases |input|
  {
    match NextBoundary(d, input, 0, false)
    case None => []
    case Some(end) => [input[..end]] + CompleteRecords(d, input[end..])
  }

  /** What follows the last unquoted newline. */
  function Tail(d: Dialect, input: Bytes): Bytes
    decreases |input|
  {
    match NextBoundary(d, input, 0, false)
    case None => input
    case Some(end) => Tail(d, input[end..])
  }

  /** All records, counting a non-empty unterminated tail as the last one. */
  function Records(d: Dialect, input: Bytes): seq<Bytes> {
    CompleteRecords(d, input) + if Tail(d, input) == [] then [] else [Tail(d, input)]
  }

  /** Greedy packing: a morsel is closed by the first record that brings it to `target` bytes. */
  function Pack(target: nat, records: seq<Bytes>, open: Bytes): seq<Bytes>
    decreases |records|
  {
    if records == [] then
      if open == [] then [] else [open]
    else
      var grown := open + records[0];
      if |grown| >= target then [grown] + Pack(target, records[1..], [])
      else Pack(target, records[1..], grown)
  }

  /** The morsels a stream must produce. */
  function Morsels(d: Dialect, target: nat, skipHeader: bool, input: Bytes): seq<Bytes> {
    var records := Records(d, input);
    Pack(target, if skipHeader && records != [] then records[1..] else records, [])
  }

  // ---------------------------------------------------------------- boundaries

  /** A decision taken while more may come is the decision taken with more present. */
  lemma LexExtend(d: Dialect, s: Bytes, more: Bytes, at: nat, inQuotes: bool, eof: bool)
    requires at < |s|
    requires !Lex(d, s, at, inQuotes, false).Wait?
    ensures Lex(d, s + more, at, inQuotes, eof) == Lex(d, s, at, inQuotes, false)
  {
  }

  lemma LexEof(d: Dialect, s: Bytes, more: Bytes, at: nat, inQuotes: bool)
    requires at < |s|
    ensures at + 1 < |s| || Lex(d, s, at, inQuotes, true).Newline? ==>
              Lex(d, s + more, at, inQuotes, true) == Lex(d, s, at, inQuotes, true)
    ensures Lex(d, s + more, at, inQuotes, true).Newline? ==> Lex(d, s, at, inQuotes, true).Newline?
  {
  }

  lemma LexShift(d: Dialect, prefix: Bytes, rest: Bytes, at: nat, inQuotes: bool)
    requires at < |rest|
    ensures Lex(d, prefix + rest, |prefix| + at, inQuotes, true) == Lex(d, rest, at, inQuotes, true)
  {
  }

  /** Bytes past a boundary do not move it. */
  lemma {:induction false} BoundaryStable(d: Dialect, input: Bytes, more: Bytes, at: nat, inQuotes: bool)
    requires at <= |input|
    ensures var long := NextBoundary(d, input + more, at, inQuotes);
            match NextBoundary(d, input, at, inQuotes)
            case Some(end) => long == Some(end)
            case None => long.Some? ==> long.value > |input|
    decreases |input| - at
  {
    if at < |input| {
      LexEof(d, input, more, at, inQuotes);
      if at + 1 < |input| {
        match Lex(d, input, at, inQuotes, true) {
          case Advance(width) => BoundaryStable(d, input, more, at + width, inQuotes);
          case Toggle => BoundaryStable(d, input, more, at + 1, !inQuotes);
          case Newline =>
        }
      }
    }
  }

  /** Scanning may start anywhere: only the bytes from `at` on matter. */
  lemma {:induction false} BoundaryShift(d: Dialect, prefix: Bytes, rest: Bytes, at: nat, inQuotes: bool)
    requires at <= |rest|
    ensures var long := NextBoundary(d, prefix + rest, |prefix| + at, inQuotes);
            match NextBoundary(d, rest, at, inQuotes)
            case Some(end) => long == Some(|prefix| + end)
            case None => long == None
    decreases |rest| - at
  {
    if at < |rest| {
      LexShift(d, prefix, rest, at, inQuotes);
      match Lex(d, rest, at, inQuotes, true) {
        case Advance(width) => BoundaryShift(d, prefix, rest, at + width, inQuotes);
        case Toggle => BoundaryShift(d, prefix, rest, at + 1, !inQuotes);
        case Newline =>
      }
    }
  }

  // ---------------------------------------------------------------- records

  lemma ConcatCons(head: Bytes, rest: seq<Bytes>)
    ensures Concat([head] + rest) == head + Concat(rest)
  {
    assert ([head] + rest)[1..] == rest;
  }

  lemma ConcatNone()
    ensures Concat<Byte>([]) == []
  {
  }

  /** Terminated records and tail together are the input. */
  lemma {:induction false} CompleteRecordsPartition(d: Dialect, input: Bytes)
    ensures Concat(CompleteRecords(d, input)) + Tail(d, input) == input
    decreases |input|
  {
    hide NextBoundary, Concat;
    var boundary := NextBoundary(d, input, 0, false);
    if boundary.Some? {
      var head, rest := input[..boundary.value], input[boundary.value..];
      CompleteRecordsPartition(d, rest);
      ConcatCons(head, CompleteRecords(d, rest));
    } else {
      ConcatNone();
    }
  }

  /** Splitting loses and invents nothing. */
  lemma {:induction false} RecordsPartition(d: Dialect, input: Bytes)
    ensures Concat(Records(d, input)) == input
  {
    CompleteRecordsPartition(d, input);
    var complete, tail := CompleteRecords(d, input), Tail(d, input);
    if tail == [] {
      assert Records(d, input) == complete;
    } else {
      ConcatAppend(complete, [tail]);
      assert Concat([tail]) == tail;
    }
  }

  /** A byte string that is exactly one newline-terminated record. */
  predicate IsRecord(d: Dialect, piece: Bytes) {
    NextBoundary(d, piece, 0, false) == Some(|piece|)
  }

  lemma {:induction false} CompleteRecordsAreRecords(d: Dialect, input: Bytes)
    ensures forall k :: 0 <= k < |CompleteRecords(d, input)| ==> IsRecord(d, CompleteRecords(d, input)[k])
    ensures NextBoundary(d, Tail(d, input), 0, false) == None
    decreases |input|
  {
    match NextBoundary(d, input, 0, false) {
      case None =>
      case Some(end) =>
        BoundaryStable(d, input[..end], input[end..], 0, false);
        assert input == input[..end] + input[end..];
        CompleteRecordsAreRecords(d, input[end..]);
    }
  }

  /** Re-splitting a concatenation of records, with any tail behind it, gives the records back. */
  lemma {:induction false} ResplitRecords(d: Dialect, records: seq<Bytes>, tail: Bytes)
    requires forall k :: 0 <= k < |records| ==> IsRecord(d, records[k])
    ensures CompleteRecords(d, Concat(records) + tail) == records + CompleteRecords(d, tail)
    ensures Tail(d, Concat(records) + tail) == Tail(d, tail)
  {
    if records == [] {
      assert Concat(records) + tail == tail;
    } else {
      ResplitRecords(d, records[1..], tail);
      var rest := Concat(records[1..]) + tail;
      assert Concat(records) + tail == records[0] + rest;
      ResplitFirst(d, records[0], rest);
      assert records == [records[0]] + records[1..];
    }
  }

  lemma ResplitFirst(d: Dialect, record: Bytes, rest: Bytes)
    requires IsRecord(d, record)
    ensures CompleteRecords(d, record + rest) == [record] + CompleteRecords(d, rest)
    ensures Tail(d, record + rest) == Tail(d, rest)
  {
    BoundaryStable(d, record, rest, 0, false);
    assert (record + rest)[..|record|] == record;
    assert (record + rest)[|record|..] == rest;
  }

  // ---------------------------------------------------------------- packing

  /** Packing is lossless. */
  lemma {:induction false} PackConcat(target: nat, records: seq<Bytes>, open: Bytes)
    ensures Concat(Pack(target, records, open)) == open + Concat(records)
    decreases |records|
  {
    if records == [] {
      assert open != [] ==> Concat([open]) == open;
    } else {
      var grown := open + records[0];
      assert open + Concat(records) == grown + Concat(records[1..]);
      PackConcat(target, records[1..], if |grown| >= target then [] else grown);
    }
  }

  /** `groups` cuts `records` into consecutive runs, one per morsel. */
  ghost predicate Grouped(records: seq<Bytes>, groups: seq<seq<Bytes>>) {
    Concat(groups) == records
  }

  /** A full morsel reaches the target with its last record and not before. */
  predicate Minimal(target: nat, group: seq<Bytes>) {
    && group != []
    && |Concat(group)| >= target
    && (|group| > 1 ==> |Concat(group[..|group| - 1])| < target)
  }

  ghost function Groups(target: nat, records: seq<Bytes>, open: seq<Bytes>): seq<seq<Bytes>>
    decreases |records|
  {
    if records == [] then
      if open == [] then [] else [open]
    else if |Concat(open + [records[0]])| >= target then
      [open + [records[0]]] + Groups(target, records[1..], [])
    else
      Groups(target, records[1..], open + [records[0]])
  }

  /**
   Every morsel but the last is the shortest run of whole records reaching the target; together
   the runs are exactly the records in order.
   */
  lemma {:induction false} PackIsMinimalGrouping(target: nat, records: seq<Bytes>, open: seq<Bytes>)
    requires forall k :: 0 <= k < |records| ==> records[k] != []
    requires forall k :: 0 <= k < |open| ==> open[k] != []
    requires open != [] ==> |Concat(open)| < target
    ensures var groups := Groups(target, records, open);
            && Grouped(open + records, groups)
            && |groups| == |Pack(target, records, Concat(open))|
            && (forall k :: 0 <= k < |groups| ==> Pack(target, records, Concat(open))[k] == Concat(groups[k]))
            && (forall k :: 0 <= k < |groups| ==> groups[k] != [])
            && (forall k :: 0 <= k < |groups| - 1 ==> Minimal(target, groups[k]))
    decreases |records|
  {
    if records == [] {
      assert open + records == open;
      if open != [] {
        assert Concat([open]) == open;
        assert Concat(open) != [];
      }
    } else {
      var grown := open + [records[0]];
      ConcatAppend(open, [records[0]]);
      assert Concat([records[0]]) == records[0];
      assert Concat(grown) == Concat(open) + records[0];
      assert open + records == grown + records[1..];
      if |Concat(grown)| >= target {
        PackIsMinimalGrouping(target, records[1..], []);
        assert [] + records[1..] == records[1..];
        assert grown[..|grown| - 1] == open;
        assert Minimal(target, grown);
      } else {
        PackIsMinimalGrouping(target, records[1..], grown);
      }
    }
  }
}
