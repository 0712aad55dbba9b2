/** The state of local search as a value, what one flip makes of it, and what
    every flip keeps. */
module SearchState {
  import opened Knf
  import opened IndexedStack
  import opened Scores
  import opened Tally

  datatype Instance = Instance(vars: nat, rows: seq<Row>, occ: seq<seq<Occurrence>>)

  datatype State = State(soln: seq<bool>, tally: Tally, score: seq<int>, weight: seq<int>, good: Stack)

  ghost predicate InstanceOk(inst: Instance) {
    true == (
      match inst
      case Instance(vars, rows, occ) =>
        && Plain(rows, vars) && |occ| == vars + 1
        && forall x :: 1 <= x <= vars ==> OccurrencesOf(rows, x, occ[x]))
  }

  ghost predicate InRange(rows: seq<Row>, occs: seq<Occurrence>) {
    forall i :: 0 <= i < |occs| ==> 0 <= occs[i].clause < |rows|
  }

  lemma OccurrencesInRange(rows: seq<Row>, x: int, occs: seq<Occurrence>)
    requires OccurrencesOf(rows, x, occs)
    ensures InRange(rows, occs)
  {
    assert forall i :: 0 <= i < |occs| ==> OccurrenceOk(rows, x, occs[i]);
  }

  function ScoresFor(inst: Instance, weight: seq<int>, counts: seq<int>, soln: seq<bool>): seq<int>
    requires |inst.rows| == |weight| == |counts| && |soln| == inst.vars + 1
  {
    seq(inst.vars + 1, x requires 0 <= x <= inst.vars =>
      if x == 0 then 0 else ScoreOf(inst.rows, weight, counts, x, soln[x]))
  }

  // Scores agree with the counts, except perhaps for v.
  ghost predicate ScoresBut(inst: Instance, weight: seq<int>, counts: seq<int>, soln: seq<bool>, score: seq<int>, v: int) {
    true == (
      && |inst.rows| == |weight| == |counts| && |soln| == |score| == inst.vars + 1 && score[0] == 0
      && forall x :: 1 <= x <= inst.vars && x != v ==> score[x] == ScoreOf(inst.rows, weight, counts, x, soln[x]))
  }

  // Members of the good-variable stack have positive score, except perhaps v.
  ghost predicate GoodBut(good: Stack, score: seq<int>, v: int) {
    true == (
      && Exact(good) && |good.index| == |score|
      && forall x :: Has(good, x) && x != v ==> score[x] > 0)
  }

  ghost predicate GoodOk(good: Stack, score: seq<int>) {
    GoodBut(good, score, -1)
  }

  // A variable that belongs on the stack and is not there.
  ghost predicate Absent(good: Stack, score: seq<int>, x: int) {
    0 <= x < |score| && score[x] > 0 && !Has(good, x)
  }

  // Only v may have become absent.
  ghost predicate NoNewAbsent(good: Stack, score: seq<int>, good': Stack, score': seq<int>, v: int) {
    |score'| == |score| && forall x :: x != v && Absent(good', score', x) ==> Absent(good, score, x)
  }

  ghost predicate StateOk(inst: Instance, s: State) {
    true == (
      match s
      case State(soln, tally, score, weight, good) =>
        && InstanceOk(inst)
        && |soln| == inst.vars + 1 && |weight| == |inst.rows|
        && (forall c :: 0 <= c < |weight| ==> weight[c] >= 1)
        && StacksMatch(inst.rows, tally) && TrueCounts(inst.rows, tally.counts, soln)
        && score == ScoresFor(inst, weight, tally.counts, soln)
        && GoodOk(good, score))
  }

  // The backward sweep that takes out variables no longer good.
  function Sweep(s: Stack, score: seq<int>, i: nat): (t: Stack)
    requires Exact(s) && |s.index| == |score| && i <= |s.items|
    ensures Exact(t) && |t.index| == |score|
    decreases i
  {
    if i == 0 then s
    else
      var v := s.items[i - 1];
      if score[v] <= 0 then
        RemoveExact(s, v);
        Sweep(Remove(s, v), score, i - 1)
      else Sweep(s, score, i - 1)
  }

  lemma {:induction false} SweepMembers(s: Stack, score: seq<int>, i: nat)
    requires Exact(s) && |s.index| == |score| && i <= |s.items|
    requires forall j :: i <= j < |s.items| ==> score[s.items[j]] > 0
    ensures forall y :: Has(Sweep(s, score, i), y) <==> Has(s, y) && score[y] > 0
    decreases i
  {
    if i > 0 {
      var v := s.items[i - 1];
      if score[v] <= 0 {
        RemoveExact(s, v);
        var t := Remove(s, v);
        assert forall j :: i - 1 <= j < |t.items| ==> t.items[j] == if j == i - 1 then s.items[|s.items| - 1] else s.items[j];
        SweepMembers(t, score, i - 1);
      } else {
        SweepMembers(s, score, i - 1);
      }
    }
  }

  // Then the good ones among the given variables join.
  function AddGood(s: Stack, score: seq<int>, more: seq<int>, n: nat): (t: Stack)
    requires Exact(s) && |s.index| == |score| && n <= |more|
    requires forall i :: 0 <= i < |more| ==> 0 <= more[i] < |score|
    ensures Exact(t) && |t.index| == |score|
  {
    if n == 0 then s
    else
      var t := AddGood(s, score, more, n - 1);
      var v := more[n - 1];
      if score[v] > 0 && t.index[v] == -1 then
        PushBacked(t, v);
        Push(t, v)
      else t
  }

  lemma {:induction false} AddGoodMembers(s: Stack, score: seq<int>, more: seq<int>, n: nat)
    requires Exact(s) && |s.index| == |score| && n <= |more|
    requires forall i :: 0 <= i < |more| ==> 0 <= more[i] < |score|
    ensures forall y :: Has(AddGood(s, score, more, n), y) <==> Has(s, y) || (y in more[..n] && score[y] > 0)
  {
    if n > 0 {
      AddGoodMembers(s, score, more, n - 1);
      var t, v := AddGood(s, score, more, n - 1), more[n - 1];
      assert more[..n] == more[..n - 1] + [v];
      if score[v] > 0 && t.index[v] == -1 {
        PushBacked(t, v);
      }
    }
  }

  // update_goodvarstack
  function GoodAfter(s: Stack, score: seq<int>, neighbors: seq<int>): (t: Stack)
    requires Exact(s) && |s.index| == |score|
    requires forall i :: 0 <= i < |neighbors| ==> 0 <= neighbors[i] < |score|
    ensures Exact(t) && |t.index| == |score|
  {
    AddGood(Sweep(s, score, |s.items|), score, neighbors, |neighbors|)
  }

  lemma GoodAfterMembers(s: Stack, score: seq<int>, neighbors: seq<int>)
    requires Exact(s) && |s.index| == |score|
    requires forall i :: 0 <= i < |neighbors| ==> 0 <= neighbors[i] < |score|
    ensures forall y :: Has(GoodAfter(s, score, neighbors), y) <==> (Has(s, y) || y in neighbors) && score[y] > 0
  {
    SweepMembers(s, score, |s.items|);
    AddGoodMembers(Sweep(s, score, |s.items|), score, neighbors, |neighbors|);
    assert neighbors[..|neighbors|] == neighbors;
  }

  ghost predicate Share2(rows: seq<Row>, x: int, y: int) {
    exists c :: 0 <= c < |rows| && LitOf(rows[c].lits, x) != 0 && LitOf(rows[c].lits, y) != 0
  }

  // The variables other than v that occur in some row with v, each once.
  ghost predicate NeighborsOf(inst: Instance, v: int, list: seq<int>) {
    && (forall i :: 0 <= i < |list| ==> 1 <= list[i] <= inst.vars)
    && (forall i, j :: 0 <= i < j < |list| ==> list[i] != list[j])
    && forall y :: 1 <= y <= inst.vars ==> (y in list <==> y != v && Share2(inst.rows, v, y))
  }

  ghost predicate NeighborsOk(inst: Instance, neighbors: seq<seq<int>>) {
    true == (
      |neighbors| == inst.vars + 1 && forall v :: 1 <= v <= inst.vars ==> NeighborsOf(inst, v, neighbors[v]))
  }

  // Everything a flip of v changes except the good-variable stack.
  function FlipNumbers(inst: Instance, s: State, v: int): State
    requires StateOk(inst, s) && 1 <= v <= inst.vars
  {
    var soln := s.soln[v := !s.soln[v]];
    OccurrencesInRange(inst.rows, v, inst.occ[v]);
    var tally := TallyUpTo(inst.rows, s.tally, inst.occ[v], soln[v], |inst.occ[v]|);
    State(soln, tally, ScoresFor(inst, s.weight, tally.counts, soln), s.weight, s.good)
  }

  // flip_with_neighbor
  function Flipped(inst: Instance, neighbors: seq<seq<int>>, s: State, v: int): State
    requires StateOk(inst, s) && NeighborsOk(inst, neighbors) && 1 <= v <= inst.vars
  {
    var n := FlipNumbers(inst, s, v);
    assert NeighborsOf(inst, v, neighbors[v]);
    n.(good := GoodAfter(s.good, n.score, neighbors[v]))
  }

  // The numbers after a flip are the ones computed from scratch.
  lemma FlipNumbersOk(inst: Instance, s: State, v: int)
    requires StateOk(inst, s) && 1 <= v <= inst.vars
    ensures var n := FlipNumbers(inst, s, v);
      && StacksMatch(inst.rows, n.tally) && TrueCounts(inst.rows, n.tally.counts, n.soln)
      && Toggled(inst.rows, s.tally.counts, n.tally.counts, v, s.soln[v])
      && n.score[v] == -s.score[v]
  {
    var n := FlipNumbers(inst, s, v);
    TallyToggles(inst.rows, s.tally, v, inst.occ[v], n.soln[v]);
    FlipTrueCounts(inst.rows, s.tally.counts, n.tally.counts, s.soln, v);
    FlipNegatesScore(inst.rows, s.weight, s.tally.counts, n.tally.counts, v, s.soln[v]);
  }

  // A flip keeps the whole invariant.
  lemma FlippedOk(inst: Instance, neighbors: seq<seq<int>>, s: State, v: int)
    requires StateOk(inst, s) && NeighborsOk(inst, neighbors) && 1 <= v <= inst.vars
    ensures StateOk(inst, Flipped(inst, neighbors, s, v))
  {
    FlipNumbersOk(inst, s, v);
    var n := FlipNumbers(inst, s, v);
    assert NeighborsOf(inst, v, neighbors[v]);
    GoodAfterMembers(s.good, n.score, neighbors[v]);
  }

  // Only a neighbor's score can change.
  lemma FarScore(inst: Instance, s: State, v: int, x: int)
    requires StateOk(inst, s) && 1 <= v <= inst.vars && 1 <= x <= inst.vars && x != v
    requires !Share2(inst.rows, v, x)
    ensures FlipNumbers(inst, s, v).score[x] == s.score[x]
  {
    FlipNumbersOk(inst, s, v);
    var n := FlipNumbers(inst, s, v);
    ScoreOtherRows(inst.rows, s.weight, s.tally.counts, n.tally.counts, x, s.soln[x], |inst.rows|);
  }

  // In the middle of a flip of v: all scores but that of v agree with the
  // counts so far.
  ghost predicate Midway(inst: Instance, s: State, v: int, kept: int, maintain: bool) {
    true == (
      match s
      case State(soln, tally, score, weight, good) =>
        && InstanceOk(inst) && 1 <= v <= inst.vars && StacksMatch(inst.rows, tally)
        && ScoresBut(inst, weight, tally.counts, soln, score, v) && score[v] == kept
        && Exact(good) && |good.index| == |score| && (maintain ==> GoodBut(good, score, v)))
  }

  lemma FlipStart(inst: Instance, s: State, v: int, maintain: bool)
    requires StateOk(inst, s) && 1 <= v <= inst.vars
    ensures Midway(inst, s.(soln := s.soln[v := !s.soln[v]]), v, s.score[v], maintain)
    ensures InRange(inst.rows, inst.occ[v])
  {
    OccurrencesInRange(inst.rows, v, inst.occ[v]);
  }

  // t is s after all occurrences of v, with the score of v still to change.
  ghost predicate FlipCounted(inst: Instance, s: State, v: int, maintain: bool, t: State) {
    true == (
      && StateOk(inst, s) && 1 <= v <= inst.vars && InRange(inst.rows, inst.occ[v]) && Midway(inst, t, v, s.score[v], maintain)
      && t.soln == s.soln[v := !s.soln[v]] && t.weight == s.weight
      && t.tally == TallyUpTo(inst.rows, s.tally, inst.occ[v], t.soln[v], |inst.occ[v]|))
  }

  // With the sign of the flipped variable's score changed, all scores are
  // those from scratch.
  lemma FlipEnd(inst: Instance, s: State, v: int, maintain: bool, t: State)
    requires FlipCounted(inst, s, v, maintain, t)
    ensures t.(score := t.score[v := -s.score[v]]) == FlipNumbers(inst, s, v).(good := t.good)
  {
    FlipNumbersOk(inst, s, v);
    var n := FlipNumbers(inst, s, v);
    assert t.tally == n.tally;
    assert |t.score| == |n.score|;
    forall x | 0 <= x < |n.score|
      ensures t.score[v := -s.score[v]][x] == n.score[x]
    {
    }
  }

  // With exact neighbor lists, a flip of v leaves no variable but v positive
  // and off the stack that was not so before.
  lemma FlippedAbsent(inst: Instance, neighbors: seq<seq<int>>, s: State, v: int)
    requires StateOk(inst, s) && NeighborsOk(inst, neighbors) && 1 <= v <= inst.vars
    ensures var t := Flipped(inst, neighbors, s, v);
      NoNewAbsent(s.good, s.score, t.good, t.score, v)
  {
    var t := Flipped(inst, neighbors, s, v);
    assert NeighborsOf(inst, v, neighbors[v]);
    GoodAfterMembers(s.good, t.score, neighbors[v]);
    forall x | x != v && Absent(t.good, t.score, x)
      ensures Absent(s.good, s.score, x)
    {
      assert x != 0;
      if !Share2(inst.rows, v, x) {
        FarScore(inst, s, v, x);
      }
    }
  }

  // t is s after flip_with_neighbor.
  ghost predicate IsFlipped(inst: Instance, neighbors: seq<seq<int>>, s: State, v: int, t: State) {
    true == (
      && StateOk(inst, s) && NeighborsOk(inst, neighbors) && 1 <= v <= inst.vars
      && t == Flipped(inst, neighbors, s, v))
  }

  // A flip of a variable with positive score lowers the violation by it.
  lemma FlipLowersViolation(inst: Instance, s: State, v: int)
    requires StateOk(inst, s) && 1 <= v <= inst.vars
    ensures Violation(inst.rows, s.weight, FlipNumbers(inst, s, v).tally.counts, |inst.rows|)
         == Violation(inst.rows, s.weight, s.tally.counts, |inst.rows|) - s.score[v]
  {
    FlipNumbersOk(inst, s, v);
    ScoreIsViolationChange(inst.rows, s.weight, s.tally.counts, FlipNumbers(inst, s, v).tally.counts, v, s.soln[v], |inst.rows|);
  }
}
