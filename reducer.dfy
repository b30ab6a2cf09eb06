/** process/reducer.py: groups tab-separated key/value lines whose equal
    keys arrive together, printing one `key<TAB>v1,v2,...` line per run. */
module Reducer {
  import opened Text
  import opened Streams
  import opened Grouping

  /** What one input line is to the reducer: blank (skipped), a record, or
      an abort (the two-name unpacking of `split("\t", 1)` raises). */
  datatype LineResult = Blank | Pair(record: Record) | Malformed

  /** The reading part of the reducer's loop body for one line. */
  function ParseLine(raw: string): LineResult {
    var line := Strip(raw);
    if line == [] then Blank
    else match SplitFirst(line, '\t')
      case None => Malformed
      case Some((phone, product)) => Pair(Record(phone, product))
  }

  /** What one line contributes to the records the reducer reads. */
  function ReadStep(raw: string): Outcome<Record> {
    match ParseLine(raw)
    case Blank => Clean()
    case Pair(record) => Outcome([record], false)
    case Malformed => Outcome([], true)
  }

  /** The records read from `lines`, up to the first malformed line. */
  function Read(lines: seq<string>): Outcome<Record> {
    Process(ReadStep, lines)
  }

  /** Python's truth value of `current_phone` (None or a string). */
  predicate Truthy(phone: Option<string>) {
    phone.Some? && phone.value != []
  }

  /** The printed form of a group: the f-string of reducer.py. */
  function FormatGroup(g: Group): string {
    g.key + "\t" + Join(",", g.values)
  }

  function FormatAll(gs: seq<Group>): (lines: seq<string>)
    ensures |lines| == |gs|
    ensures forall i :: 0 <= i < |gs| ==> lines[i] == FormatGroup(gs[i])
  {
    if gs == [] then [] else FormatAll(AllButLast(gs)) + [FormatGroup(Last(gs))]
  }

  /** The groups the reducer prints: every run of the records read, except
      that an abort loses the run still open. */
  function Emitted(lines: seq<string>): seq<Group> {
    var input := Read(lines);
    var runs := Runs(input.output);
    if input.failed && runs != [] then AllButLast(runs) else runs
  }

  /** What the reducer prints for `lines`, and whether it aborted. */
  function Run(lines: seq<string>): Outcome<string> {
    Outcome(FormatAll(Emitted(lines)), Read(lines).failed)
  }

  /** The reducer script.  `currentPhone` and `products` are the run still
      open; a group is printed when a different key arrives and once more
      after the last line. */
  method ReduceStream(lines: seq<string>) returns (output: seq<string>, failed: bool)
    ensures Outcome(output, failed) == Run(lines)
  {
    var currentPhone: Option<string> := None;
    var products: seq<string> := [];
    output, failed := [], false;
    ghost var records: seq<Record> := [];
    ghost var closed: seq<Group> := [];
    for i := 0 to |lines|
      invariant Read(lines[..i]) == Outcome(records, false)
      invariant currentPhone.None? ==> records == [] && closed == []
      invariant currentPhone.Some? ==>
        currentPhone.value != [] && Runs(records) == closed + [Group(currentPhone.value, products)]
      invariant output == FormatAll(closed)
    {
      ProcessPrefixStep(ReadStep, lines, i);
      var line := Strip(lines[i]);
      if line == [] {
        continue;
      }
      match SplitFirst(line, '\t')
      case None =>
        failed := true;
        ProcessAbortIsFinal(ReadStep, lines, i + 1);
        assert Read(lines) == Outcome(records, true);
        AbortLosesOpenRun(records, closed, currentPhone, products);
        assert Emitted(lines) == closed;
        return;
      case Some((phone, product)) =>
        KeyIsNonEmpty(line, phone, product);
        if currentPhone == Some(phone) {
          ExtendRun(records, closed, phone, products, product);
          products := products + [product];
        } else {
          if Truthy(currentPhone) {
            OpenRunAfter(records, closed, currentPhone.value, products, Record(phone, product));
            output := output + [currentPhone.value + "\t" + Join(",", products)];
            closed := closed + [Group(currentPhone.value, products)];
          } else {
            OpenFirstRun(Record(phone, product));
          }
          currentPhone := Some(phone);
          products := [product];
        }
        records := records + [Record(phone, product)];
    }
    assert lines[..|lines|] == lines;
    assert Read(lines) == Outcome(records, false);
    if Truthy(currentPhone) {
      FormatAllSnoc(closed, Group(currentPhone.value, products));
      output := output + [currentPhone.value + "\t" + Join(",", products)];
      assert Emitted(lines) == closed + [Group(currentPhone.value, products)];
    } else {
      assert Emitted(lines) == [];
    }
  }

  /** A stripped line does not start with a tab, so the key before its
      first tab is never empty. */
  lemma KeyIsNonEmpty(line: string, key: string, value: string)
    requires Unpadded(line) && line == key + "\t" + value
    ensures key != []
  {
  }

  /** A printed group splits back at its first tab into the key and the
      joined values, and, when no value holds a comma, the joined values
      split back on commas into the group's values. */
  lemma FormatGroupReadsBack(g: Group)
    requires '\t' !in g.key && g.values != []
    requires forall i :: 0 <= i < |g.values| ==> ',' !in g.values[i]
    ensures SplitFirst(FormatGroup(g), '\t') == Some((g.key, Join(",", g.values)))
    ensures SplitAll(Join(",", g.values), ',') == g.values
  {
    SplitFirstUnique(g.key, '\t', Join(",", g.values));
    SplitJoin(g.values, ',');
  }

  /** Values that hold commas themselves (the mapper keeps everything after
      the first comma of a row) make the printed list ambiguous: one value
      `a,b` and two values `a`, `b` print the same line. */
  lemma CommaValuesAmbiguous(key: string)
    ensures FormatGroup(Group(key, ["a,b"])) == FormatGroup(Group(key, ["a", "b"]))
  {
  }

  lemma FormatAllSnoc(gs: seq<Group>, g: Group)
    ensures FormatAll(gs + [g]) == FormatAll(gs) + [FormatGroup(g)]
  {
    SnocParts(gs, g);
  }

  /** A record with the open run's key extends that run. */
  lemma ExtendRun(records: seq<Record>, closed: seq<Group>, key: string, values: seq<string>, v: string)
    requires Runs(records) == closed + [Group(key, values)]
    ensures Runs(records + [Record(key, v)]) == closed + [Group(key, values + [v])]
  {
    SnocParts(records, Record(key, v));
    SnocParts(closed, Group(key, values));
    RunsStep(records + [Record(key, v)]);
  }

  /** A record with another key closes the open run and opens a new one. */
  lemma OpenRunAfter(records: seq<Record>, closed: seq<Group>, key: string, values: seq<string>, r: Record)
    requires Runs(records) == closed + [Group(key, values)] && r.key != key
    ensures Runs(records + [r]) == (closed + [Group(key, values)]) + [Group(r.key, [r.value])]
    ensures FormatAll(closed + [Group(key, values)]) == FormatAll(closed) + [FormatGroup(Group(key, values))]
  {
    SnocParts(records, r);
    SnocParts(closed, Group(key, values));
    RunsStep(records + [r]);
    FormatAllSnoc(closed, Group(key, values));
  }

  lemma OpenFirstRun(r: Record)
    ensures Runs([] + [r]) == [] + [Group(r.key, [r.value])]
  {
    SnocParts([], r);
  }

  /** On an abort the open run is not printed: what is printed is exactly
      the closed runs. */
  lemma AbortLosesOpenRun(records: seq<Record>, closed: seq<Group>, phone: Option<string>, values: seq<string>)
    requires phone.None? ==> records == [] && closed == []
    requires phone.Some? ==> Runs(records) == closed + [Group(phone.value, values)]
    ensures var runs := Runs(records); (if runs != [] then AllButLast(runs) else runs) == closed
  {
    if phone.Some? {
      SnocParts(closed, Group(phone.value, values));
    }
  }

  // ---------------------------------------------------------------------
  // Reading lines.

  /** Which lines are skipped, which become records and which abort.  A
      record's key is everything before the first tab of the stripped line
      and is never empty; its value is everything after that tab. */
  lemma ParseLineCases(raw: string)
    ensures ParseLine(raw).Blank? <==> Strip(raw) == []
    ensures ParseLine(raw).Malformed? <==> Strip(raw) != [] && '\t' !in Strip(raw)
    ensures ParseLine(raw).Pair? ==>
      var r := ParseLine(raw).record;
      r.key != [] && '\t' !in r.key && Strip(raw) == r.key + "\t" + r.value
  {
    var line := Strip(raw);
    if line != [] && '\t' in line {
      var Some((k, v)) := SplitFirst(line, '\t');
      KeyIsNonEmpty(line, k, v);
    }
  }

  /** The partner of ParseLineCases: a stripped line that is key, tab,
      value with no tab in the key reads as exactly that record. */
  lemma ParseLineSplitsAtFirstTab(raw: string, key: string, value: string)
    requires Strip(raw) == key + "\t" + value && '\t' !in key
    ensures ParseLine(raw) == Pair(Record(key, value))
  {
    SplitFirstUnique(key, '\t', value);
  }

  /** Every key read is non-empty, so `if current_phone:` is true exactly
      when a key has been seen: Python's truthiness test on
      `current_phone` behaves as `is not None`. */
  lemma CurrentPhoneTruthiness(lines: seq<string>)
    ensures forall r :: r in Read(lines).output ==> Truthy(Some(r.key))
  {
    forall raw: string, r | r in ReadStep(raw).output
      ensures Truthy(Some(r.key))
    {
      ParseLineCases(raw);
    }
    ProcessOutputFrom(ReadStep, lines, (r: Record) => Truthy(Some(r.key)));
  }

  /** The reducer fails exactly when some line has content but no tab. */
  lemma RunFailsIff(lines: seq<string>)
    ensures Run(lines).failed <==> exists i :: 0 <= i < |lines| && ParseLine(lines[i]).Malformed?
  {
    ProcessFailsIff(ReadStep, lines);
  }

  /** An empty input, or one whose lines are all blank, prints nothing and
      does not fail. */
  lemma {:induction false} BlankInputPrintsNothing(lines: seq<string>)
    requires forall i :: 0 <= i < |lines| ==> Strip(lines[i]) == []
    ensures Run(lines) == Outcome([], false)
    decreases |lines|
  {
    if lines != [] {
      var n := |lines| - 1;
      BlankInputPrintsNothing(lines[..n]);
      ProcessPrefixStep(ReadStep, lines, n);
      assert lines[..n + 1] == lines;
    }
  }

  /** A line with content but no tab aborts the run.  The groups printed
      before it stand; the group still open when it arrives is not printed,
      so the output is what a clean end of input there would have printed,
      minus that open group. */
  lemma MalformedLineAborts(a: seq<string>, line: string, b: seq<string>)
    requires Strip(line) != [] && '\t' !in Strip(line)
    requires !Read(a).failed
    ensures Read(a + [line] + b) == Outcome(Read(a).output, true)
    ensures Run(a + [line] + b).failed
    ensures var runs := Runs(Read(a).output);
      Run(a) == Outcome(Run(a + [line] + b).output + (if runs == [] then [] else [FormatGroup(Last(runs))]), false)
  {
    ParseLineCases(line);
    ProcessStopsAt(ReadStep, a, line, b);
    var runs := Runs(Read(a).output);
    if runs != [] {
      assert runs == AllButLast(runs) + [Last(runs)];
      FormatAllSnoc(AllButLast(runs), Last(runs));
    }
  }

  // ---------------------------------------------------------------------
  // What is printed.

  /** Every printed line is `key<TAB>` followed by the comma-joined values of
      one group; keys are non-empty, value lists are non-empty, and
      consecutive groups have different keys. */
  lemma OutputLinesAreGroups(lines: seq<string>)
    ensures |Run(lines).output| == |Emitted(lines)|
    ensures forall i :: 0 <= i < |Emitted(lines)| ==>
      Run(lines).output[i] == Emitted(lines)[i].key + "\t" + Join(",", Emitted(lines)[i].values)
    ensures forall i :: 0 <= i < |Emitted(lines)| ==>
      Emitted(lines)[i].key != [] && Emitted(lines)[i].values != []
    ensures forall i :: 0 <= i < |Emitted(lines)| - 1 ==> Emitted(lines)[i].key != Emitted(lines)[i + 1].key
  {
    var records := Read(lines).output;
    var runs := Runs(records);
    RunsWellFormed(records);
    RunsKeys(records);
    CurrentPhoneTruthiness(lines);
    forall i | 0 <= i < |runs|
      ensures runs[i].key != []
    {
      assert runs[i].key in GroupKeys(runs);
    }
  }

  /** The groups printed, read back as records, are the records read from
      the input in arrival order: all of them on a clean run, all but the
      open group's on an abort.  No value is lost, duplicated or
      reordered. */
  lemma OutputKeepsRecords(lines: seq<string>)
    ensures Expand(Emitted(lines)) <= Read(lines).output
    ensures Flatten(Emitted(lines)) <= Values(Read(lines).output)
    ensures !Run(lines).failed ==>
      Expand(Emitted(lines)) == Read(lines).output && Flatten(Emitted(lines)) == Values(Read(lines).output)
  {
    var records := Read(lines).output;
    var runs := Runs(records);
    ExpandRuns(records);
    RunsKeepValues(records);
    if runs != [] {
      assert runs == AllButLast(runs) + [Last(runs)];
      ExpandSnoc(AllButLast(runs), Last(runs));
      FlattenSnoc(AllButLast(runs), Last(runs));
    }
  }

  /** Without any sorting assumption: a key that occurs in k separate runs
      of the input is printed k times (on a clean run). */
  lemma KeyPrintedOncePerRun(lines: seq<string>, k: string)
    requires !Run(lines).failed
    ensures GroupCount(Emitted(lines), k) == RunCount(Read(lines).output, k)
  {
    RunsCountRuns(Read(lines).output, k);
  }

  /** When equal keys arrive together (the sort precondition), each key is
      printed at most once, with every value that arrived for it in arrival
      order, and on a clean run every key read is printed. */
  lemma SortedInputGroupsByKey(lines: seq<string>)
    requires Contiguous(Read(lines).output)
    ensures forall i, j :: 0 <= i < j < |Emitted(lines)| ==> Emitted(lines)[i].key != Emitted(lines)[j].key
    ensures forall i :: 0 <= i < |Emitted(lines)| ==>
      Emitted(lines)[i].values == ValuesOf(Read(lines).output, Emitted(lines)[i].key)
    ensures !Run(lines).failed ==> GroupKeys(Emitted(lines)) == Keys(Read(lines).output)
  {
    var records := Read(lines).output;
    RunsDistinctKeys(records);
    RunsCollectValues(records);
    RunsKeys(records);
  }
}
