/**
 CSV as it is written, independent of how it is scanned: fields plain, quoted with doubled quotes, or
 quoted with escapes.  Whatever bytes the fields hold, written rows are the records that are read.
 */
module CsvEncoding {
  import opened Common
  import opened CsvRecords
  import CsvMorsel
  import CsvInfer

  datatype Style = Plain | Doubled | Escaped

  datatype Field = Field(style: Style, content: Bytes)

  /** A plain field has nothing to protect, and escaping needs an escape byte. */
  predicate Writable(d: Dialect, f: Field) {
    match f.style
    case Plain => d.quote !in f.content && NEWLINE !in f.content
    case Doubled => true
    case Escaped => d.escape.Some?
  }

  function Protect(d: Dialect, style: Style, b: Byte): Bytes {
    if b == d.quote then (if style.Escaped? && d.escape.Some? then [d.escape.value, b] else [b, b])
    else if d.escape == Some(b) then [b, b]
    else [b]
  }

  function ProtectAll(d: Dialect, style: Style, content: Bytes): Bytes {
    if content == [] then [] else Protect(d, style, content[0]) + ProtectAll(d, style, content[1..])
  }

  function WriteField(d: Dialect, f: Field): Bytes {
    if f.style.Plain? then f.content else [d.quote] + ProtectAll(d, f.style, f.content) + [d.quote]
  }

  function WriteFields(d: Dialect, delimiter: Byte, fields: seq<Field>): Bytes {
    if fields == [] then []
    else if |fields| == 1 then WriteField(d, fields[0])
    else WriteField(d, fields[0]) + [delimiter] + WriteFields(d, delimiter, fields[1..])
  }

  function WriteRow(d: Dialect, delimiter: Byte, fields: seq<Field>): Bytes {
    WriteFields(d, delimiter, fields) + [NEWLINE]
  }

  function WriteRows(d: Dialect, delimiter: Byte, rows: seq<seq<Field>>): seq<Bytes> {
    seq(|rows|, k requires 0 <= k < |rows| => WriteRow(d, delimiter, rows[k]))
  }

  /** Quote, delimiter and newline are different bytes. */
  predicate Sensible(d: Dialect, delimiter: Byte) {
    d.quote != NEWLINE && delimiter != d.quote && delimiter != NEWLINE
  }

  ghost predicate RowWritable(d: Dialect, fields: seq<Field>) {
    forall k :: 0 <= k < |fields| ==> Writable(d, fields[k])
  }

  // ---------------------------------------------------------------- reading what was written

  function Shift(n: nat, end: Option<nat>): Option<nat> {
    if end.Some? then Some(n + end.value) else None
  }

  lemma Skip(d: Dialect, head: Bytes, rest: Bytes, inQuotes: bool)
    ensures NextBoundary(d, head + rest, |head|, inQuotes) == Shift(|head|, NextBoundary(d, rest, 0, inQuotes))
  {
    hide NextBoundary, Lex;
    BoundaryShift(d, head, rest, 0, inQuotes);
  }

  /** Each protected byte is passed over inside quotes. */
  lemma ProtectedByte(d: Dialect, style: Style, b: Byte, rest: Bytes)
    requires d.escape != Some(d.quote)
    ensures var head := Protect(d, style, b);
            NextBoundary(d, head + rest, 0, true) == Shift(|head|, NextBoundary(d, rest, 0, true))
  {
    var head := Protect(d, style, b);
    assert (head + rest)[0] == head[0] && (|head| == 2 ==> (head + rest)[1] == head[1]);
    assert Lex(d, head + rest, 0, true, true) == Advance(|head|);
    Skip(d, head, rest, true);
  }

  lemma {:induction false} ProtectedContent(d: Dialect, style: Style, content: Bytes, rest: Bytes)
    requires d.escape != Some(d.quote)
    ensures var body := ProtectAll(d, style, content);
            NextBoundary(d, body + rest, 0, true) == Shift(|body|, NextBoundary(d, rest, 0, true))
    decreases |content|
  {
    hide NextBoundary;
    if content == [] {
      assert ProtectAll(d, style, content) + rest == rest;
    } else {
      var head, tail := Protect(d, style, content[0]), ProtectAll(d, style, content[1..]);
      assert ProtectAll(d, style, content) + rest == head + (tail + rest);
      ProtectedByte(d, style, content[0], tail + rest);
      ProtectedContent(d, style, content[1..], rest);
    }
  }

  lemma {:induction false} PlainContent(d: Dialect, content: Bytes, rest: Bytes)
    requires d.quote !in content && NEWLINE !in content
    ensures NextBoundary(d, content + rest, 0, false) == Shift(|content|, NextBoundary(d, rest, 0, false))
    decreases |content|
  {
    if content == [] {
      assert content + rest == rest;
    } else {
      var head, tail := content[..1], content[1..];
      assert content[0] in content;
      assert content + rest == head + (tail + rest);
      Skip(d, head, tail + rest, false);
      PlainContent(d, tail, rest);
    }
  }

  /** A quote outside quotes opens them; one inside that no quote follows closes them. */
  lemma QuoteToggles(d: Dialect, rest: Bytes, inQuotes: bool)
    requires d.escape != Some(d.quote) || !inQuotes
    requires inQuotes ==> rest != [] && rest[0] != d.quote
    ensures NextBoundary(d, [d.quote] + rest, 0, inQuotes) == Shift(1, NextBoundary(d, rest, 0, !inQuotes))
  {
    Skip(d, [d.quote], rest, !inQuotes);
  }

  lemma WrittenField(d: Dialect, f: Field, rest: Bytes)
    requires Writable(d, f) && rest != [] && rest[0] != d.quote
    requires d.escape != Some(d.quote) || f.style.Plain?
    ensures var text := WriteField(d, f);
            NextBoundary(d, text + rest, 0, false) == Shift(|text|, NextBoundary(d, rest, 0, false))
  {
    hide NextBoundary;
    if f.style.Plain? {
      PlainContent(d, f.content, rest);
    } else {
      var body := ProtectAll(d, f.style, f.content);
      assert WriteField(d, f) + rest == [d.quote] + (body + ([d.quote] + rest));
      QuoteToggles(d, body + ([d.quote] + rest), false);
      ProtectedContent(d, f.style, f.content, [d.quote] + rest);
      QuoteToggles(d, rest, true);
    }
  }

  lemma Delimiter(d: Dialect, delimiter: Byte, rest: Bytes)
    requires Sensible(d, delimiter)
    ensures NextBoundary(d, [delimiter] + rest, 0, false) == Shift(1, NextBoundary(d, rest, 0, false))
  {
    Skip(d, [delimiter], rest, false);
  }

  lemma WriteRowSplits(d: Dialect, delimiter: Byte, fields: seq<Field>)
    requires |fields| >= 2
    ensures WriteRow(d, delimiter, fields)
            == WriteField(d, fields[0]) + ([delimiter] + WriteRow(d, delimiter, fields[1..]))
  {
    hide WriteField;
    var text, rest := WriteField(d, fields[0]), WriteFields(d, delimiter, fields[1..]);
    assert text + [delimiter] + rest + [NEWLINE] == text + ([delimiter] + (rest + [NEWLINE]));
  }

  /** Reading passes over a first field and its delimiter. */
  lemma WrittenFirst(d: Dialect, delimiter: Byte, fields: seq<Field>)
    requires Sensible(d, delimiter) && |fields| >= 2 && Writable(d, fields[0])
    requires d.escape != Some(d.quote) || fields[0].style.Plain?
    ensures NextBoundary(d, WriteRow(d, delimiter, fields), 0, false)
            == Shift(|WriteField(d, fields[0])| + 1, NextBoundary(d, WriteRow(d, delimiter, fields[1..]), 0, false))
    ensures |WriteRow(d, delimiter, fields)| == |WriteField(d, fields[0])| + 1 + |WriteRow(d, delimiter, fields[1..])|
  {
    hide NextBoundary, WriteField, WriteFields;
    var rest := WriteRow(d, delimiter, fields[1..]);
    WriteRowSplits(d, delimiter, fields);
    WrittenField(d, fields[0], [delimiter] + rest);
    Delimiter(d, delimiter, rest);
  }

  lemma {:induction false} WrittenFields(d: Dialect, delimiter: Byte, fields: seq<Field>)
    requires Sensible(d, delimiter) && RowWritable(d, fields)
    requires d.escape != Some(d.quote) || forall f :: f in fields ==> f.style.Plain?
    ensures IsRecord(d, WriteRow(d, delimiter, fields))
    decreases |fields|
  {
    assert NextBoundary(d, [NEWLINE], 0, false) == Some(1);
    hide NextBoundary, WriteField;
    if fields == [] {
      assert WriteRow(d, delimiter, fields) == [NEWLINE];
    } else if |fields| == 1 {
      WrittenField(d, fields[0], [NEWLINE]);
    } else {
      WrittenFirst(d, delimiter, fields);
      WrittenFields(d, delimiter, fields[1..]);
    }
  }

  // ---------------------------------------------------------------- the quote as its own escape

  /** Then no quote inside quotes ever closes them. */
  lemma {:induction false} NeverCloses(d: Dialect, input: Bytes, at: nat)
    requires d.escape == Some(d.quote) && at <= |input|
    ensures NextBoundary(d, input, at, true) == None
    decreases |input| - at
  {
    if at < |input| { NeverCloses(d, input, at + Lex(d, input, at, true, true).width); }
  }

  lemma QuoteFirst(d: Dialect, delimiter: Byte, fields: seq<Field>)
    requires fields != [] && !fields[0].style.Plain?
    ensures var row := WriteRow(d, delimiter, fields); row == [d.quote] + row[1..]
  {
    assert WriteRow(d, delimiter, fields)[0] == WriteField(d, fields[0])[0];
  }

  lemma {:induction false} QuotedNeverEnds(d: Dialect, delimiter: Byte, fields: seq<Field>)
    requires Sensible(d, delimiter) && RowWritable(d, fields) && d.escape == Some(d.quote)
    requires exists f :: f in fields && !f.style.Plain?
    ensures NextBoundary(d, WriteRow(d, delimiter, fields), 0, false) == None
    decreases |fields|
  {
    hide NextBoundary;
    assert fields == [fields[0]] + fields[1..];
    if fields[0].style.Plain? {
      WrittenFirst(d, delimiter, fields);
      QuotedNeverEnds(d, delimiter, fields[1..]);
    } else {
      var row := WriteRow(d, delimiter, fields);
      QuoteFirst(d, delimiter, fields);
      QuoteToggles(d, row[1..], false);
      NeverCloses(d, row[1..], 0);
    }
  }

  // ---------------------------------------------------------------- theorems

  /**
   A written row, with any bytes in its fields, is exactly one record: for every dialect, unless the
   quote is its own escape and some field is quoted.
   */
  lemma WrittenRowIsRecord(d: Dialect, delimiter: Byte, fields: seq<Field>)
    requires Sensible(d, delimiter) && RowWritable(d, fields)
    ensures IsRecord(d, WriteRow(d, delimiter, fields))
            <==> d.escape != Some(d.quote) || forall f :: f in fields ==> f.style.Plain?
  {
    if d.escape != Some(d.quote) || forall f :: f in fields ==> f.style.Plain? {
      WrittenFields(d, delimiter, fields);
    } else {
      QuotedNeverEnds(d, delimiter, fields);
    }
  }

  ghost predicate RowsWritable(d: Dialect, delimiter: Byte, rows: seq<seq<Field>>) {
    && Sensible(d, delimiter) && d.escape != Some(d.quote)
    && forall k :: 0 <= k < |rows| ==> RowWritable(d, rows[k])
  }

  /** Rows written one after the other split back into those rows, with nothing left over. */
  lemma WrittenRowsSplit(d: Dialect, delimiter: Byte, rows: seq<seq<Field>>)
    requires RowsWritable(d, delimiter, rows)
    ensures var written := WriteRows(d, delimiter, rows);
            && CompleteRecords(d, Concat(written)) == written == Records(d, Concat(written))
            && Tail(d, Concat(written)) == []
  {
    var written := WriteRows(d, delimiter, rows);
    forall k | 0 <= k < |written| ensures IsRecord(d, written[k]) { WrittenFields(d, delimiter, rows[k]); }
    ResplitRecords(d, written, []);
    assert Concat(written) + [] == Concat(written);
    assert CompleteRecords(d, []) == [] && Tail(d, []) == [];
    assert written + [] == written;
  }

  /** However the text arrives in chunks, the splitter packs whole written rows into morsels. */
  lemma SplitterKeepsRows(d: Dialect, delimiter: Byte, rows: seq<seq<Field>>, target: nat, skipHeader: bool,
                          chunks: seq<Bytes>)
    requires RowsWritable(d, delimiter, rows) && Concat(chunks) == Concat(WriteRows(d, delimiter, rows))
    ensures var written := WriteRows(d, delimiter, rows);
            CsvMorsel.Feed(d, target, CsvMorsel.Fresh(skipHeader), chunks)
            == Pack(target, if skipHeader && rows != [] then written[1..] else written, [])
  {
    WrittenRowsSplit(d, delimiter, rows);
    CsvMorsel.FeedDeliversMorsels(d, target, skipHeader, chunks);
  }

  /** The sampler counts the written rows and ends where they end. */
  lemma SamplerCountsRows(d: Dialect, delimiter: Byte, rows: seq<seq<Field>>, atEof: bool)
    requires RowsWritable(d, delimiter, rows)
    ensures var input := Concat(WriteRows(d, delimiter, rows));
            CsvInfer.CompleteCount(d, input, atEof) == |rows| && CsvInfer.CompleteEnd(d, input, atEof) == |input|
  {
    WrittenRowsSplit(d, delimiter, rows);
    RecordsPartition(d, Concat(WriteRows(d, delimiter, rows)));
  }
}
