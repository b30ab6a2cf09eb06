/** How the two stages fit together: mapper output lines read as reducer
    input lines.  The external sort between them only reorders lines, so
    the per-line facts here carry over to the sorted stream. */
module Pipeline {
  import opened Text
  import opened Streams
  import opened Grouping
  import Mapper
  import Reducer

  /** A raw row the mapper skips: blank once stripped, or a header row. */
  predicate SkippedRow(raw: string) {
    Strip(raw) == [] || StartsWith(Strip(raw), Mapper.Header)
  }

  /** A raw row that the mapper accepts and whose printed line the reducer
      reads back as the same key and value: a non-empty key without a tab
      before the first comma, and a non-empty value after it. */
  predicate RoundTripRow(raw: string) {
    var line := Strip(raw);
    !StartsWith(line, Mapper.Header)
    && match SplitFirst(line, ',')
       case None => false
       case Some((key, value)) => key != [] && value != [] && '\t' !in key
  }

  /** The rows of a file the pipeline carries through unchanged: skipped
      rows (blank lines, the header) and round-trip rows. */
  predicate WellBehavedRows(rows: seq<string>) {
    forall i :: 0 <= i < |rows| ==> SkippedRow(rows[i]) || RoundTripRow(rows[i])
  }

  /** The record a round-trip row stands for. */
  function RowRecord(raw: string): Record
    requires RoundTripRow(raw)
  {
    var Some((key, value)) := SplitFirst(Strip(raw), ',');
    Record(key, value)
  }

  /** The records the rows stand for, skipped rows contributing none. */
  function RowRecords(rows: seq<string>): seq<Record>
    requires WellBehavedRows(rows)
  {
    if rows == [] then []
    else
      var last := rows[|rows| - 1];
      RowRecords(rows[..|rows| - 1]) + (if SkippedRow(last) then [] else [RowRecord(last)])
  }

  /** The line the mapper prints for a row with non-empty key and value is
      already stripped: its ends are those of the stripped row. */
  lemma TabLineIsStripped(key: string, value: string)
    requires key != [] && value != [] && Unpadded(key + "," + value)
    ensures Strip(key + "\t" + value) == key + "\t" + value
  {
    var out := key + "\t" + value;
    var line := key + "," + value;
    assert out[0] == line[0] && out[|out| - 1] == line[|line| - 1];
    assert out == [] + out + [];
    StripUnique([], out, []);
  }

  /** Such a row is printed as `key<TAB>value`, and the reducer strips that
      line to itself and splits it back into the same key and value. */
  lemma RowRoundTrip(raw: string, key: string, value: string)
    requires Strip(raw) == key + "," + value && ',' !in key
    requires !StartsWith(Strip(raw), Mapper.Header)
    requires key != [] && value != [] && '\t' !in key
    ensures Mapper.MapLine(raw) == Mapper.Emit(key + "\t" + value)
    ensures Reducer.ParseLine(key + "\t" + value) == Reducer.Pair(Record(key, value))
  {
    Mapper.MapLineSplitsAtFirstComma(raw, key, value);
    TabLineIsStripped(key, value);
    Reducer.ParseLineSplitsAtFirstTab(key + "\t" + value, key, value);
  }

  /** A row with an empty value after the comma (`"abc,"`) is printed as
      `"abc\t"`, which the reducer strips to `"abc"` and then rejects for
      want of a tab; the row `","` becomes a lone tab, which the reducer
      skips as blank. */
  lemma EmptyValueRow(raw: string, key: string)
    requires Strip(raw) == key + "," && ',' !in key && '\t' !in key
    requires !StartsWith(Strip(raw), Mapper.Header)
    ensures Mapper.MapLine(raw) == Mapper.Emit(key + "\t")
    ensures Reducer.ParseLine(key + "\t") == if key == [] then Reducer.Blank else Reducer.Malformed
  {
    Mapper.MapLineSplitsAtFirstComma(raw, key, []);
    assert key + "," + [] == key + ",";
    assert key + "\t" + [] == key + "\t";
    if key != [] {
      assert key[0] == Strip(raw)[0];
    }
    KeyThenTab(key);
  }

  /** The reducer's reading of `key<TAB>` with nothing after the tab: the
      tab is stripped as trailing whitespace, leaving nothing (blank) or a
      line without a tab (malformed). */
  lemma KeyThenTab(key: string)
    requires '\t' !in key && (key == [] || !IsWs(key[0]))
    ensures Reducer.ParseLine(key + "\t") == if key == [] then Reducer.Blank else Reducer.Malformed
  {
    StripIgnoresTrailingWs(key, '\t');
    var pre, post := StripParts(key);
    var t := Strip(key);
    assert forall j :: 0 <= j < |t| ==> t[j] == key[|pre| + j];
    if key != [] {
      assert !AllWs(key);
    }
    Reducer.ParseLineCases(key + "\t");
  }

  /** A row with an empty key before the comma (`",x"`) is printed as
      `"\tx"`.  The reducer strips that leading tab, so it reads the value
      alone as a line: malformed when the value holds no tab, and a record
      made of the value's own fields when it does. */
  lemma EmptyKeyRow(raw: string, value: string)
    requires Strip(raw) == "," + value && value != []
    ensures Mapper.MapLine(raw) == Mapper.Emit("\t" + value)
    ensures Reducer.ParseLine("\t" + value) == Reducer.ParseLine(value)
    ensures '\t' !in value ==> Reducer.ParseLine("\t" + value) == Reducer.Malformed
  {
    assert Strip(raw)[0] != Mapper.Header[0];
    assert [] + "," + value == "," + value;
    Mapper.MapLineSplitsAtFirstComma(raw, [], value);
    assert [] + "\t" + value == "\t" + value;
    StripIgnoresLeadingWs('\t', value);
    var pre, post := StripParts(value);
    var t := Strip(value);
    assert value[|value| - 1] == Strip(raw)[|Strip(raw)| - 1];
    assert !AllWs(value);
    assert forall j :: 0 <= j < |t| ==> t[j] == value[|pre| + j];
    Reducer.ParseLineCases(value);
    Reducer.ParseLineCases("\t" + value);
  }

  /** A row the mapper skips prints nothing and cannot fail. */
  lemma SkippedRowPrintsNothing(raw: string)
    requires SkippedRow(raw)
    ensures Mapper.MapStep(raw) == Clean()
  {
    Mapper.MapLineCases(raw);
  }

  /** On a file of skipped and round-trip rows (a header row, blank lines
      and well-formed data rows), the mapper does not fail and the reducer
      reads its output back as exactly the data rows' records, in order. */
  lemma {:induction false} MapperOutputReadsBack(rows: seq<string>)
    requires WellBehavedRows(rows)
    ensures !Mapper.Run(rows).failed
    ensures Reducer.Read(Mapper.Run(rows).output) == Outcome(RowRecords(rows), false)
    decreases |rows|
  {
    if rows != [] {
      var n := |rows| - 1;
      var raw := rows[n];
      var before := Mapper.Run(rows[..n]);
      assert WellBehavedRows(rows[..n]) by {
        assert forall i :: 0 <= i < n ==> rows[..n][i] == rows[i];
      }
      MapperOutputReadsBack(rows[..n]);
      ProcessPrefixStep(Mapper.MapStep, rows, n);
      assert rows[..n + 1] == rows;
      if SkippedRow(raw) {
        SkippedRowPrintsNothing(raw);
        ThenClean(before);
        assert RowRecords(rows) == RowRecords(rows[..n]) + [];
      } else {
        var Some((key, value)) := SplitFirst(Strip(raw), ',');
        RowRoundTrip(raw, key, value);
        var out := key + "\t" + value;
        assert Mapper.Run(rows).output == before.output + [out];
        ProcessAppend(Reducer.ReadStep, before.output, [out]);
        ProcessSingle(Reducer.ReadStep, out);
      }
    }
  }
}
