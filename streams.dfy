/** What a streaming stage leaves behind: the lines (or records) it has
    produced, in order, and whether it stopped on a malformed line.
    Output is only ever produced whole, so an aborted run leaves a valid
    prefix of what it would otherwise have produced. */
module Streams {

  datatype Outcome<T> = Outcome(output: seq<T>, failed: bool)

  /** The empty run: nothing produced, no failure. */
  function Clean<T>(): Outcome<T> {
    Outcome([], false)
  }

  /** Running one stretch of input and then the next: an abort in the
      first stretch ends the run there; otherwise the outputs concatenate
      and the second stretch decides whether the run failed. */
  function Then<T>(first: Outcome<T>, next: Outcome<T>): Outcome<T> {
    if first.failed then first else Outcome(first.output + next.output, next.failed)
  }

  lemma ThenClean<T>(o: Outcome<T>)
    ensures Then(o, Clean()) == o && Then(Clean(), o) == o
  {
    assert o.output + [] == o.output;
  }

  lemma ThenAssociative<T>(a: Outcome<T>, b: Outcome<T>, c: Outcome<T>)
    ensures Then(Then(a, b), c) == Then(a, Then(b, c))
  {
    if !a.failed && !b.failed {
      assert a.output + b.output + c.output == a.output + (b.output + c.output);
    }
  }

  /** A single forward pass over `lines` in which `step` says what each
      line contributes: the steps' outputs in input order, up to and
      including the first step that fails. */
  function Process<T>(step: string -> Outcome<T>, lines: seq<string>): Outcome<T> {
    if lines == [] then Clean()
    else Then(Process(step, lines[..|lines| - 1]), step(lines[|lines| - 1]))
  }

  /** A pass keeps no state between lines: the pass over `a + b` is the
      pass over `a` followed by the pass over `b`. */
  lemma {:induction false} ProcessAppend<T>(step: string -> Outcome<T>, a: seq<string>, b: seq<string>)
    ensures Process(step, a + b) == Then(Process(step, a), Process(step, b))
    decreases |b|
  {
    if b == [] {
      assert a + b == a;
      ThenClean(Process(step, a));
    } else {
      var init, last := b[..|b| - 1], b[|b| - 1];
      assert (a + b)[..|a + b| - 1] == a + init && (a + b)[|a + b| - 1] == last;
      ProcessAppend(step, a, init);
      ThenAssociative(Process(step, a), Process(step, init), step(last));
    }
  }

  lemma ProcessSingle<T>(step: string -> Outcome<T>, line: string)
    ensures Process(step, [line]) == step(line)
  {
    assert [line][..0] == [];
    ThenClean(step(line));
  }

  lemma ProcessPrefixStep<T>(step: string -> Outcome<T>, lines: seq<string>, i: nat)
    requires i < |lines|
    ensures Process(step, lines[..i + 1]) == Then(Process(step, lines[..i]), step(lines[i]))
  {
    assert lines[..i + 1][..i] == lines[..i];
  }

  /** Once a pass has failed, the rest of the input changes nothing. */
  lemma ProcessAbortIsFinal<T>(step: string -> Outcome<T>, lines: seq<string>, i: nat)
    requires i <= |lines| && Process(step, lines[..i]).failed
    ensures Process(step, lines) == Process(step, lines[..i])
  {
    ProcessAppend(step, lines[..i], lines[i..]);
    assert lines[..i] + lines[i..] == lines;
  }

  /** A line whose step contributes nothing leaves the pass unchanged,
      wherever it appears. */
  lemma ProcessIgnores<T>(step: string -> Outcome<T>, a: seq<string>, line: string, b: seq<string>)
    requires step(line) == Clean()
    ensures Process(step, a + [line] + b) == Process(step, a + b)
  {
    ProcessAppend(step, a + [line], b);
    ProcessAppend(step, a, [line]);
    ProcessSingle(step, line);
    ThenClean(Process(step, a));
    ProcessAppend(step, a, b);
  }

  /** A line whose step fails ends the pass there: what the lines before
      it produced stands, and nothing after it is produced. */
  lemma ProcessStopsAt<T>(step: string -> Outcome<T>, a: seq<string>, line: string, b: seq<string>)
    requires step(line) == Outcome([], true) && !Process(step, a).failed
    ensures Process(step, a + [line] + b) == Outcome(Process(step, a).output, true)
  {
    ProcessAppend(step, a + [line], b);
    ProcessAppend(step, a, [line]);
    ProcessSingle(step, line);
    assert Process(step, a).output + [] == Process(step, a).output;
  }

  /** A pass fails exactly when the step of some line fails. */
  lemma {:induction false} ProcessFailsIff<T>(step: string -> Outcome<T>, lines: seq<string>)
    ensures Process(step, lines).failed <==> exists i :: 0 <= i < |lines| && step(lines[i]).failed
    decreases |lines|
  {
    if lines != [] {
      var init := lines[..|lines| - 1];
      ProcessFailsIff(step, init);
      assert forall i :: 0 <= i < |init| ==> init[i] == lines[i];
    }
  }

  /** Whatever holds of everything any step produces holds of everything
      the pass produces. */
  lemma {:induction false} ProcessOutputFrom<T>(step: string -> Outcome<T>, lines: seq<string>, p: T -> bool)
    requires forall line, x :: x in step(line).output ==> p(x)
    ensures forall x :: x in Process(step, lines).output ==> p(x)
    decreases |lines|
  {
    if lines != [] {
      ProcessOutputFrom(step, lines[..|lines| - 1], p);
    }
  }
}
