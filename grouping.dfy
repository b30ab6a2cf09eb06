/** The specification of the reducer's group-by: a stream of (key, value)
    records cut into its maximal runs of equal consecutive keys.  Sequences
    are built from the back (`Runs(rs + [r])` from `Runs(rs)`), the order in
    which a single forward pass sees them. */
module Grouping {

  /** One tab-separated line of the reducer's input. */
  datatype Record = Record(key: string, value: string)

  /** One line of the reducer's output before formatting: a key and the
      values that arrived for it, in arrival order. */
  datatype Group = Group(key: string, values: seq<string>)

  function Last<T>(s: seq<T>): T
    requires s != []
  {
    s[|s| - 1]
  }

  function AllButLast<T>(s: seq<T>): seq<T>
    requires s != []
  {
    s[..|s| - 1]
  }

  /** The maximal runs of equal consecutive keys.  A record whose key equals
      the key of the last run so far extends that run; any other record
      opens a new run. */
  function Runs(rs: seq<Record>): (gs: seq<Group>)
    ensures |gs| <= |rs|
    ensures gs == [] <==> rs == []
    ensures rs != [] ==> Last(gs).key == Last(rs).key
  {
    if rs == [] then []
    else
      var before := Runs(AllButLast(rs));
      var r := Last(rs);
      if before != [] && Last(before).key == r.key
      then AllButLast(before) + [Group(r.key, Last(before).values + [r.value])]
      else before + [Group(r.key, [r.value])]
  }

  /** Runs never come out empty, and neighbouring runs have different keys
      (otherwise they would be one run). */
  predicate WellFormedRuns(gs: seq<Group>) {
    (forall i :: 0 <= i < |gs| ==> gs[i].values != [])
    && (forall i :: 0 <= i < |gs| - 1 ==> gs[i].key != gs[i + 1].key)
  }

  /** The records a group stands for. */
  function Spread(g: Group): (rs: seq<Record>)
    ensures |rs| == |g.values|
    ensures forall i :: 0 <= i < |rs| ==> rs[i] == Record(g.key, g.values[i])
  {
    seq(|g.values|, i requires 0 <= i < |g.values| => Record(g.key, g.values[i]))
  }

  /** The records a sequence of groups stands for, in order. */
  function Expand(gs: seq<Group>): seq<Record> {
    if gs == [] then [] else Expand(AllButLast(gs)) + Spread(Last(gs))
  }

  /** All values of a sequence of records, in order. */
  function Values(rs: seq<Record>): seq<string> {
    if rs == [] then [] else Values(AllButLast(rs)) + [Last(rs).value]
  }

  /** The value lists of a sequence of groups, concatenated. */
  function Flatten(gs: seq<Group>): seq<string> {
    if gs == [] then [] else Flatten(AllButLast(gs)) + Last(gs).values
  }

  /** The values that arrived with key `k`, in arrival order. */
  function ValuesOf(rs: seq<Record>, k: string): seq<string> {
    if rs == [] then []
    else ValuesOf(AllButLast(rs), k) + (if Last(rs).key == k then [Last(rs).value] else [])
  }

  function Keys(rs: seq<Record>): set<string> {
    set r | r in rs :: r.key
  }

  function GroupKeys(gs: seq<Group>): set<string> {
    set g | g in gs :: g.key
  }

  /** How many maximal runs of key `k` the records contain: positions
      holding `k` whose predecessor does not. */
  function RunCount(rs: seq<Record>, k: string): nat {
    if rs == [] then 0
    else
      var init := AllButLast(rs);
      RunCount(init, k) + (if Last(rs).key == k && (init == [] || Last(init).key != k) then 1 else 0)
  }

  /** How many groups carry key `k`. */
  function GroupCount(gs: seq<Group>, k: string): nat {
    if gs == [] then 0 else GroupCount(AllButLast(gs), k) + (if Last(gs).key == k then 1 else 0)
  }

  /** The precondition the external sort provides: records with equal keys
      are contiguous. */
  predicate Contiguous(rs: seq<Record>) {
    forall i, j, k :: 0 <= i < j < k < |rs| && rs[i].key == rs[k].key ==> rs[j].key == rs[i].key
  }

  /** Lexicographic order of strings by code point, the order Python's
      string comparison uses. */
  predicate LexLe(a: string, b: string) {
    a == [] || (b != [] && (a[0] < b[0] || (a[0] == b[0] && LexLe(a[1..], b[1..]))))
  }

  /** Keys in non-decreasing lexicographic order. */
  predicate SortedByKey(rs: seq<Record>) {
    forall i, j :: 0 <= i <= j < |rs| ==> LexLe(rs[i].key, rs[j].key)
  }

  // ---------------------------------------------------------------------
  // Unfolding facts for sequences built from the back.

  lemma SnocParts<T>(s: seq<T>, x: T)
    ensures (s + [x]) != [] && AllButLast(s + [x]) == s && Last(s + [x]) == x
  {
    assert (s + [x])[..|s|] == s;
  }

  lemma LastSplit<T>(s: seq<T>)
    requires s != []
    ensures s == AllButLast(s) + [Last(s)]
  {
  }

  lemma ExpandSnoc(gs: seq<Group>, g: Group)
    ensures Expand(gs + [g]) == Expand(gs) + Spread(g)
  {
    SnocParts(gs, g);
  }

  lemma FlattenSnoc(gs: seq<Group>, g: Group)
    ensures Flatten(gs + [g]) == Flatten(gs) + g.values
  {
    SnocParts(gs, g);
  }

  lemma GroupCountSnoc(gs: seq<Group>, g: Group, k: string)
    ensures GroupCount(gs + [g], k) == GroupCount(gs, k) + (if g.key == k then 1 else 0)
  {
    SnocParts(gs, g);
  }

  lemma GroupKeysSnoc(gs: seq<Group>, g: Group)
    ensures GroupKeys(gs + [g]) == GroupKeys(gs) + {g.key}
  {
    assert forall h :: h in gs + [g] <==> h in gs || h == g;
  }

  lemma KeysSnoc(rs: seq<Record>)
    requires rs != []
    ensures Keys(rs) == Keys(AllButLast(rs)) + {Last(rs).key}
  {
    assert rs == AllButLast(rs) + [Last(rs)];
    assert forall r :: r in rs <==> r in AllButLast(rs) || r == Last(rs);
  }

  /** Runs(rs) unfolded by the case that decides it: the last record either
      extends the last run or opens a new one. */
  lemma RunsStep(rs: seq<Record>)
    requires rs != []
    ensures var before, r := Runs(AllButLast(rs)), Last(rs);
      if before != [] && Last(before).key == r.key
      then Runs(rs) == AllButLast(before) + [Group(r.key, Last(before).values + [r.value])]
        && before == AllButLast(before) + [Last(before)]
      else Runs(rs) == before + [Group(r.key, [r.value])]
  {
    var before := Runs(AllButLast(rs));
    if before != [] {
      assert before == AllButLast(before) + [Last(before)];
    }
  }

  /** A record whose key differs from the last run's opens a new run. */
  lemma RunsOpen(rs: seq<Record>, before: seq<Group>)
    requires rs != [] && Runs(AllButLast(rs)) == before
    requires before == [] || Last(before).key != Last(rs).key
    ensures Runs(rs) == before + [Group(Last(rs).key, [Last(rs).value])]
  {
  }

  /** A record with the last run's key extends that run. */
  lemma RunsExtend(rs: seq<Record>, front: seq<Group>, g: Group)
    requires rs != [] && Runs(AllButLast(rs)) == front + [g] && g.key == Last(rs).key
    ensures Runs(rs) == front + [Group(g.key, g.values + [Last(rs).value])]
  {
    SnocParts(front, g);
  }

  // ---------------------------------------------------------------------
  // Runs is the maximal-run decomposition.

  /** Every run is non-empty and neighbouring runs differ in key. */
  lemma {:induction false} RunsWellFormed(rs: seq<Record>)
    ensures WellFormedRuns(Runs(rs))
    decreases |rs|
  {
    if rs != [] {
      var init, r := AllButLast(rs), Last(rs);
      RunsWellFormed(init);
      var before := Runs(init);
      if before != [] && Last(before).key == r.key {
        var front, g := AllButLast(before), Last(before);
        assert before == front + [g];
        RunsExtend(rs, front, g);
        WellFormedReplaceLast(front, g, Group(r.key, g.values + [r.value]));
      } else {
        RunsOpen(rs, before);
        WellFormedSnoc(before, Group(r.key, [r.value]));
      }
    }
  }

  lemma WellFormedSnoc(gs: seq<Group>, g: Group)
    requires WellFormedRuns(gs) && g.values != []
    requires gs == [] || Last(gs).key != g.key
    ensures WellFormedRuns(gs + [g])
  {
  }

  lemma WellFormedDropLast(front: seq<Group>, g: Group)
    requires WellFormedRuns(front + [g])
    ensures WellFormedRuns(front)
  {
    assert forall i :: 0 <= i < |front| ==> (front + [g])[i] == front[i];
  }

  /** One more value in a group is one more record at the end. */
  lemma SpreadSnoc(g: Group, v: string)
    ensures Spread(Group(g.key, g.values + [v])) == Spread(g) + [Record(g.key, v)]
  {
  }

  lemma WellFormedReplaceLast(front: seq<Group>, g: Group, h: Group)
    requires WellFormedRuns(front + [g]) && h.key == g.key && h.values != []
    ensures WellFormedRuns(front + [h])
  {
    var before, after := front + [g], front + [h];
    assert forall i :: 0 <= i < |front| ==> before[i] == front[i] == after[i];
    assert before[|front|] == g && after[|front|] == h;
  }

  /** The runs, read back as records, are exactly the input: nothing lost,
      duplicated or reordered, keys included. */
  lemma {:induction false} ExpandRuns(rs: seq<Record>)
    ensures Expand(Runs(rs)) == rs
    decreases |rs|
  {
    if rs != [] {
      ExpandRuns(AllButLast(rs));
      ExpandRunsStep(rs);
    }
  }

  /** One step of ExpandRuns: if the runs of all but the last record read
      back as those records, the runs of all of them read back as all. */
  lemma ExpandRunsStep(rs: seq<Record>)
    requires rs != [] && Expand(Runs(AllButLast(rs))) == AllButLast(rs)
    ensures Expand(Runs(rs)) == rs
  {
    var init, r := AllButLast(rs), Last(rs);
    LastSplit(rs);
    var before := Runs(init);
    if before != [] && Last(before).key == r.key {
      var front, g := AllButLast(before), Last(before);
      LastSplit(before);
      RunsExtend(rs, front, g);
      ExpandExtendLast(front, g, r);
    } else {
      RunsOpen(rs, before);
      ExpandSnoc(before, Group(r.key, [r.value]));
      assert Spread(Group(r.key, [r.value])) == [r];
    }
  }

  /** Adding a value to the last group adds its record at the end. */
  lemma ExpandExtendLast(front: seq<Group>, g: Group, r: Record)
    requires r.key == g.key
    ensures Expand(front + [Group(g.key, g.values + [r.value])]) == Expand(front + [g]) + [r]
  {
    ExpandSnoc(front, g);
    ExpandSnoc(front, Group(g.key, g.values + [r.value]));
    SpreadSnoc(g, r.value);
  }

  /** The partner of ExpandRuns and RunsWellFormed: they pin Runs down.  Any
      well-formed sequence of groups that reads back as `rs` is Runs(rs). */
  lemma {:induction false} RunsUnique(gs: seq<Group>, rs: seq<Record>)
    requires WellFormedRuns(gs) && Expand(gs) == rs
    ensures gs == Runs(rs)
    decreases |rs|
  {
    if gs != [] {
      var shorter := DropLastValue(gs);
      RunsUnique(shorter, AllButLast(rs));
      RunsUniqueStep(gs, rs, shorter);
    }
  }

  /** One step of RunsUnique: the runs of all but the last record are the
      groups with the last value dropped, so the runs of all of them are
      `gs` itself. */
  lemma RunsUniqueStep(gs: seq<Group>, rs: seq<Record>, shorter: seq<Group>)
    requires WellFormedRuns(gs) && gs != [] && Last(gs).values != []
    requires rs != [] && Last(rs) == Record(Last(gs).key, Last(Last(gs).values))
    requires Runs(AllButLast(rs)) == shorter
    requires |Last(gs).values| == 1 ==> shorter == AllButLast(gs)
    requires |Last(gs).values| > 1 ==>
      shorter == AllButLast(gs) + [Group(Last(gs).key, AllButLast(Last(gs).values))]
    ensures gs == Runs(rs)
  {
    var front, g := AllButLast(gs), Last(gs);
    var r := Last(rs);
    LastSplit(gs);
    LastSplit(g.values);
    if |g.values| == 1 {
      if front != [] {
        assert Last(front) == gs[|gs| - 2];
      }
      RunsOpen(rs, front);
    } else {
      var cut := Group(g.key, AllButLast(g.values));
      RunsExtend(rs, front, cut);
    }
  }

  /** The well-formed groups that stand for all but the last record of
      Expand(gs): the last group loses its last value, or disappears when
      that was its only value. */
  lemma DropLastValue(gs: seq<Group>) returns (shorter: seq<Group>)
    requires WellFormedRuns(gs) && gs != []
    ensures Last(gs).values != []
    ensures Expand(gs) != [] && Last(Expand(gs)) == Record(Last(gs).key, Last(Last(gs).values))
    ensures WellFormedRuns(shorter) && Expand(shorter) == AllButLast(Expand(gs))
    ensures |Last(gs).values| == 1 ==> shorter == AllButLast(gs)
    ensures |Last(gs).values| > 1 ==>
      shorter == AllButLast(gs) + [Group(Last(gs).key, AllButLast(Last(gs).values))]
  {
    var front, g := AllButLast(gs), Last(gs);
    assert gs == front + [g];
    assert g == gs[|gs| - 1];
    var v := Last(g.values);
    var cut := Group(g.key, AllButLast(g.values));
    assert g.values == cut.values + [v];
    SpreadSnoc(cut, v);
    ExpandSnoc(front, g);
    assert Expand(gs) == (Expand(front) + Spread(cut)) + [Record(g.key, v)];
    SnocParts(Expand(front) + Spread(cut), Record(g.key, v));
    if |g.values| == 1 {
      shorter := front;
      WellFormedDropLast(front, g);
    } else {
      shorter := front + [cut];
      ExpandSnoc(front, cut);
      WellFormedReplaceLast(front, g, cut);
    }
  }

  /** Concatenating the value lists of the runs gives the input values in
      arrival order. */
  lemma {:induction false} RunsKeepValues(rs: seq<Record>)
    ensures Flatten(Runs(rs)) == Values(rs)
    decreases |rs|
  {
    if rs != [] {
      var init, r := AllButLast(rs), Last(rs);
      RunsKeepValues(init);
      RunsStep(rs);
      var before := Runs(init);
      if before != [] && Last(before).key == r.key {
        var front, g := AllButLast(before), Last(before);
        FlattenSnoc(front, g);
        FlattenSnoc(front, Group(r.key, g.values + [r.value]));
      } else {
        FlattenSnoc(before, Group(r.key, [r.value]));
      }
    }
  }

  /** The runs carry exactly the keys of the input. */
  lemma {:induction false} RunsKeys(rs: seq<Record>)
    ensures GroupKeys(Runs(rs)) == Keys(rs)
    decreases |rs|
  {
    if rs != [] {
      var init, r := AllButLast(rs), Last(rs);
      RunsKeys(init);
      RunsStep(rs);
      KeysSnoc(rs);
      var before := Runs(init);
      if before != [] && Last(before).key == r.key {
        var front, g := AllButLast(before), Last(before);
        GroupKeysSnoc(front, g);
        GroupKeysSnoc(front, Group(r.key, g.values + [r.value]));
      } else {
        GroupKeysSnoc(before, Group(r.key, [r.value]));
      }
    }
  }

  /** A key occurring in k separate maximal runs is emitted k times, whether
      or not the input is sorted. */
  lemma {:induction false} RunsCountRuns(rs: seq<Record>, k: string)
    ensures GroupCount(Runs(rs), k) == RunCount(rs, k)
    decreases |rs|
  {
    if rs != [] {
      var init, r := AllButLast(rs), Last(rs);
      RunsCountRuns(init, k);
      RunsStep(rs);
      var before := Runs(init);
      if before != [] && Last(before).key == r.key {
        var front, g := AllButLast(before), Last(before);
        GroupCountSnoc(front, g, k);
        GroupCountSnoc(front, Group(r.key, g.values + [r.value]), k);
      } else {
        GroupCountSnoc(before, Group(r.key, [r.value]), k);
      }
    }
  }

  // ---------------------------------------------------------------------
  // Under the sort precondition.

  lemma ContiguousPrefix(rs: seq<Record>)
    requires rs != [] && Contiguous(rs)
    ensures Contiguous(AllButLast(rs))
  {
    var init := AllButLast(rs);
    assert forall i :: 0 <= i < |init| ==> init[i] == rs[i];
  }

  /** With contiguous keys, a record that opens a new run carries a key not
      seen before. */
  lemma NewRunKeyIsFresh(rs: seq<Record>)
    requires Contiguous(rs) && rs != []
    requires AllButLast(rs) == [] || Last(AllButLast(rs)).key != Last(rs).key
    ensures Last(rs).key !in Keys(AllButLast(rs))
  {
    var init := AllButLast(rs);
    forall i | 0 <= i < |init|
      ensures init[i].key != Last(rs).key
    {
      assert init[i] == rs[i] && Last(init) == rs[|rs| - 2];
    }
  }

  /** With contiguous keys, every key is emitted exactly once. */
  lemma {:induction false} RunsDistinctKeys(rs: seq<Record>)
    requires Contiguous(rs)
    ensures forall i, j :: 0 <= i < j < |Runs(rs)| ==> Runs(rs)[i].key != Runs(rs)[j].key
    decreases |rs|
  {
    if rs != [] {
      var init, r := AllButLast(rs), Last(rs);
      ContiguousPrefix(rs);
      RunsDistinctKeys(init);
      RunsStep(rs);
      var before := Runs(init);
      if !(before != [] && Last(before).key == r.key) {
        NewRunKeyIsFresh(rs);
        RunsKeys(init);
        assert forall i :: 0 <= i < |before| ==> before[i].key in GroupKeys(before);
      }
    }
  }

  lemma {:induction false} ValuesOfAbsent(rs: seq<Record>, k: string)
    requires k !in Keys(rs)
    ensures ValuesOf(rs, k) == []
    decreases |rs|
  {
    if rs != [] {
      KeysSnoc(rs);
      ValuesOfAbsent(AllButLast(rs), k);
    }
  }

  /** With contiguous keys, the group of a key holds every value that
      arrived with that key, in arrival order. */
  lemma {:induction false} RunsCollectValues(rs: seq<Record>)
    requires Contiguous(rs)
    ensures forall i :: 0 <= i < |Runs(rs)| ==> Runs(rs)[i].values == ValuesOf(rs, Runs(rs)[i].key)
    decreases |rs|
  {
    if rs != [] {
      var init, r := AllButLast(rs), Last(rs);
      ContiguousPrefix(rs);
      RunsCollectValues(init);
      RunsDistinctKeys(rs);
      RunsDistinctKeys(init);
      RunsStep(rs);
      var before, after := Runs(init), Runs(rs);
      if before != [] && Last(before).key == r.key {
        assert forall i :: 0 <= i < |after| - 1 ==> after[i] == before[i];
      } else {
        NewRunKeyIsFresh(rs);
        ValuesOfAbsent(init, r.key);
        assert forall i :: 0 <= i < |after| - 1 ==> after[i] == before[i];
      }
    }
  }

  lemma {:induction false} LexLeAntisymmetric(a: string, b: string)
    requires LexLe(a, b) && LexLe(b, a)
    ensures a == b
    decreases |a|
  {
    if a != [] {
      LexLeAntisymmetric(a[1..], b[1..]);
      assert a == [a[0]] + a[1..] && b == [b[0]] + b[1..];
    }
  }

  /** Sorted keys are contiguous: the reducer's precondition follows from a
      lexicographic sort by key. */
  lemma SortedIsContiguous(rs: seq<Record>)
    requires SortedByKey(rs)
    ensures Contiguous(rs)
  {
    forall i, j, k | 0 <= i < j < k < |rs| && rs[i].key == rs[k].key
      ensures rs[j].key == rs[i].key
    {
      LexLeAntisymmetric(rs[i].key, rs[j].key);
    }
  }

  /** A key split over two runs is emitted twice, each group holding only
      its own run. */
  lemma SplitKeyEmittedTwice()
    ensures Runs([Record("a", "1"), Record("b", "2"), Record("a", "3")])
         == [Group("a", ["1"]), Group("b", ["2"]), Group("a", ["3"])]
  {
    var rs := [Record("a", "1"), Record("b", "2"), Record("a", "3")];
    assert AllButLast(rs) == [Record("a", "1"), Record("b", "2")];
    assert AllButLast(AllButLast(rs)) == [Record("a", "1")];
    assert AllButLast([Record("a", "1")]) == [];
  }
}
