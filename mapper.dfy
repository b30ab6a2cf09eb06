/** process/mapper.py: reshapes comma-separated rows into tab-separated
    key/value lines, one output line per accepted input line. */
module Mapper {
  import opened Text
  import opened Streams

  /** The header token: a row starting with it is the CSV header. */
  const Header: string := "PhoneNumber"

  /** What one input line becomes: nothing, one output line, or an abort
      (the two-name unpacking of `split(",", 1)` raises). */
  datatype LineResult = Skip | Emit(line: string) | Malformed

  /** The body of the mapper's loop for one line. */
  function MapLine(raw: string): LineResult {
    var line := Strip(raw);
    if line == [] then Skip
    else if StartsWith(line, Header) then Skip
    else match SplitFirst(line, ',')
      case None => Malformed
      case Some((phone, product)) => Emit(phone + "\t" + product)
  }

  /** What one line contributes to the printed output. */
  function MapStep(raw: string): Outcome<string> {
    match MapLine(raw)
    case Skip => Clean()
    case Emit(line) => Outcome([line], false)
    case Malformed => Outcome([], true)
  }

  /** What the mapper prints for `lines`, and whether it aborted. */
  function Run(lines: seq<string>): Outcome<string> {
    Process(MapStep, lines)
  }

  /** The mapper script: a forward pass over the input lines that prints as
      it goes and stops at the first line without a comma. */
  method MapStream(lines: seq<string>) returns (output: seq<string>, failed: bool)
    ensures Outcome(output, failed) == Run(lines)
  {
    output, failed := [], false;
    for i := 0 to |lines|
      invariant Run(lines[..i]) == Outcome(output, false)
    {
      ProcessPrefixStep(MapStep, lines, i);
      var line := Strip(lines[i]);
      if line == [] {
        continue;
      }
      if StartsWith(line, Header) {
        continue;
      }
      match SplitFirst(line, ',')
      case None =>
        failed := true;
        ProcessAbortIsFinal(MapStep, lines, i + 1);
        return;
      case Some((phone, product)) =>
        output := output + [phone + "\t" + product];
    }
    assert lines[..|lines|] == lines;
  }

  /** Which lines are skipped and which abort: a line is skipped exactly
      when it is blank once stripped or starts with the header token, and
      aborts exactly when it is not skipped and holds no comma. */
  lemma MapLineCases(raw: string)
    ensures MapLine(raw).Skip? <==> Strip(raw) == [] || StartsWith(Strip(raw), Header)
    ensures MapLine(raw).Malformed? <==> !MapLine(raw).Skip? && ',' !in Strip(raw)
  {
  }

  /** An accepted line is split at its first comma: the key holds no comma
      and the value is everything after it, commas included. */
  lemma MapLineSplitsAtFirstComma(raw: string, key: string, value: string)
    requires Strip(raw) == key + "," + value && ',' !in key
    requires !StartsWith(Strip(raw), Header)
    ensures MapLine(raw) == Emit(key + "\t" + value)
  {
    SplitFirstUnique(key, ',', value);
  }

  /** The mapper is stateless: the output for `a + b` is the output for `a`
      followed by the output for `b`, unless `a` already aborted. */
  lemma RunAppend(a: seq<string>, b: seq<string>)
    ensures Run(a + b) == Then(Run(a), Run(b))
  {
    ProcessAppend(MapStep, a, b);
  }

  /** A line that is blank once stripped, or that starts with the header
      token, produces nothing and does not fail, wherever it appears. */
  lemma SkippedLineIgnored(a: seq<string>, line: string, b: seq<string>)
    requires Strip(line) == [] || StartsWith(Strip(line), Header)
    ensures Run(a + [line] + b) == Run(a + b)
  {
    MapLineCases(line);
    ProcessIgnores(MapStep, a, line, b);
  }

  /** An accepted line contributes exactly one output line, in its place. */
  lemma EmittedLineInPlace(a: seq<string>, line: string, b: seq<string>, out: string)
    requires MapLine(line) == Emit(out)
    ensures Run(a + [line] + b) == Then(Then(Run(a), Outcome([out], false)), Run(b))
  {
    ProcessAppend(MapStep, a + [line], b);
    ProcessAppend(MapStep, a, [line]);
    ProcessSingle(MapStep, line);
  }

  /** A line with content but no comma aborts the run (if an earlier line
      has not already); what was printed for the lines before it stands,
      and nothing after it is printed. */
  lemma MalformedLineAborts(a: seq<string>, line: string, b: seq<string>)
    requires Strip(line) != [] && !StartsWith(Strip(line), Header) && ',' !in Strip(line)
    ensures Run(a + [line] + b) == Outcome(Run(a).output, true)
  {
    if Run(a).failed {
      ProcessAppend(MapStep, a, [line] + b);
      assert a + [line] + b == a + ([line] + b);
    } else {
      MapLineCases(line);
      ProcessStopsAt(MapStep, a, line, b);
    }
  }

  /** The run fails exactly when some line is malformed. */
  lemma RunFailsIff(lines: seq<string>)
    ensures Run(lines).failed <==> exists i :: 0 <= i < |lines| && MapLine(lines[i]).Malformed?
  {
    ProcessFailsIff(MapStep, lines);
  }
}
