/** The moves of local search, each as the step-by-step patches that its loops
    make, and why whole runs of them stay in agreement with the definitions
    from scratch. */
module Moves {
  import opened Knf
  import opened Elimination
  import opened RecoveryLog
  import opened IndexedStack
  import opened Scores
  import opened Tally
  import opened SearchState
  import opened RowUpdate
  import opened Weights

  // Sizes and stacks: all that the patches need to be made.
  ghost predicate Running(inst: Instance, s: State) {
    true == (
      match s
      case State(soln, tally, score, weight, good) =>
        && InstanceOk(inst) && |weight| == |inst.rows| && StacksMatch(inst.rows, tally)
        && |soln| == |score| == |good.index| == inst.vars + 1 && Exact(good))
  }

  ghost predicate ModeOk(inst: Instance, neighbors: seq<seq<int>>, materialized: bool) {
    materialized ==> NeighborsOk(inst, neighbors)
  }

  datatype Patch = Patch(score: seq<int>, good: Stack)

  ghost predicate PatchOk(p: Patch, n: nat) {
    Exact(p.good) && |p.good.index| == |p.score| == n
  }

  function ModeFor(maintain: bool, delta: int): ScoreStackUpdate {
    if !maintain then NoStackUpdate else if delta > 0 then AfterScoreIncrease else AfterScoreDecrease
  }

  // One delta added to one score.
  ghost function Scored(p: Patch, x: int, delta: int, maintain: bool): (q: Patch)
    requires PatchOk(p, |p.score|) && 0 <= x < |p.score|
    ensures PatchOk(q, |p.score|)
  {
    var score := p.score[x := p.score[x] + delta];
    AfterScoreExact(p.good, score, x, ModeFor(maintain, delta));
    Patch(score, AfterScore(p.good, score, x, ModeFor(maintain, delta)))
  }

  // One literal of a row that crosses its degree.
  ghost function PatchLit(r: Row, j: nat, weight: int, before: int, after: int, soln: seq<bool>, v: int, maintain: bool,
                          p: Patch): (q: Patch)
    requires j < |r.lits| && VarsIn(r.lits, |soln| - 1) && PatchOk(p, |soln|)
    ensures PatchOk(q, |soln|)
  {
    if Abs(r.lits[j]) != v && Hits(r.lits[j], soln, before, after, r.degree)
    then Scored(p, Abs(r.lits[j]), Delta(before, after, r.degree, weight), maintain)
    else p
  }

  // The first n literals of the row.
  ghost function PatchRow(r: Row, n: nat, weight: int, before: int, after: int, soln: seq<bool>, v: int, maintain: bool,
                          p: Patch): (q: Patch)
    requires n <= |r.lits| && VarsIn(r.lits, |soln| - 1) && PatchOk(p, |soln|)
    ensures PatchOk(q, |soln|)
  {
    if n == 0 then p
    else PatchLit(r, n - 1, weight, before, after, soln, v, maintain, PatchRow(r, n - 1, weight, before, after, soln, v, maintain, p))
  }

  // Scores and stack, with n literals done.
  ghost predicate Patched(r: Row, n: nat, weight: int, before: int, after: int, soln: seq<bool>, v: int, maintain: bool, p: Patch, q: Patch) {
    RowDone(r, n, weight, before, after, soln, v, p.score, q.score) && GoodKept(p.good, p.score, q.good, q.score, v, maintain)
  }

  lemma {:induction false} PatchRowDone(r: Row, n: nat, weight: int, before: int, after: int, soln: seq<bool>, v: int,
                                        maintain: bool, p: Patch)
    requires n <= |r.lits| && VarsIn(r.lits, |soln| - 1) && PatchOk(p, |soln|) && DistinctVars(r.lits)
    requires (after == before + 1 || after == before - 1) && (before == r.degree || after == r.degree)
    requires maintain ==> GoodBut(p.good, p.score, v)
    ensures Patched(r, n, weight, before, after, soln, v, maintain, p, PatchRow(r, n, weight, before, after, soln, v, maintain, p))
  {
    if n == 0 {
      PatchRowStart(r, weight, before, after, soln, v, maintain, p);
    } else {
      PatchRowDone(r, n - 1, weight, before, after, soln, v, maintain, p);
      PatchRowStep(r, n - 1, weight, before, after, soln, v, maintain, p,
                   PatchRow(r, n - 1, weight, before, after, soln, v, maintain, p));
    }
  }

  lemma PatchRowStart(r: Row, weight: int, before: int, after: int, soln: seq<bool>, v: int, maintain: bool, p: Patch)
    requires PatchOk(p, |soln|) && (maintain ==> GoodBut(p.good, p.score, v))
    ensures Patched(r, 0, weight, before, after, soln, v, maintain, p, p)
  {
    RowDoneStart(r, weight, before, after, soln, v, p.score);
    GoodKeptStart(p.good, p.score, v, maintain);
  }

  lemma PatchRowStep(r: Row, j: nat, weight: int, before: int, after: int, soln: seq<bool>, v: int, maintain: bool, p: Patch, q: Patch)
    requires j < |r.lits| && VarsIn(r.lits, |soln| - 1) && PatchOk(q, |soln|) && DistinctVars(r.lits)
    requires (after == before + 1 || after == before - 1) && (before == r.degree || after == r.degree)
    requires Patched(r, j, weight, before, after, soln, v, maintain, p, q)
    ensures Patched(r, j + 1, weight, before, after, soln, v, maintain, p, PatchLit(r, j, weight, before, after, soln, v, maintain, q))
  {
    var x, delta := Abs(r.lits[j]), Delta(before, after, r.degree, weight);
    var q' := PatchLit(r, j, weight, before, after, soln, v, maintain, q);
    if x != v && Hits(r.lits[j], soln, before, after, r.degree) {
      GoodKeptStep(p.good, p.score, q.good, q.score, v, maintain, x, delta, ModeFor(maintain, delta));
    }
    RowDoneStep(r, j, weight, before, after, soln, v, p.score, q.score, q'.score);
  }

  // update_one_flip_occurrence
  ghost function PatchOccurrence(inst: Instance, s: State, v: int, o: Occurrence, maintain: bool): (t: State)
    requires Running(inst, s) && 0 <= v < |s.soln| && 0 <= o.clause < |inst.rows|
    ensures Running(inst, t) && t.soln == s.soln && t.weight == s.weight
    ensures t.tally == CountStep(inst.rows, s.tally, o, s.soln[v])
  {
    var r := inst.rows[o.clause];
    var before, after := s.tally.counts[o.clause], CountAfter(s.tally.counts, o, s.soln[v]);
    var p := Patch(s.score, s.good);
    var q := if before == r.degree || after == r.degree
      then PatchRow(r, |r.lits|, s.weight[o.clause], before, after, s.soln, v, maintain, p) else p;
    State(s.soln, CountStep(inst.rows, s.tally, o, s.soln[v]), q.score, s.weight, q.good)
  }

  lemma PatchOccurrenceDone(inst: Instance, s: State, v: int, o: Occurrence, maintain: bool)
    requires Running(inst, s) && 0 <= v < |s.soln| && 0 <= o.clause < |inst.rows|
    requires maintain ==> GoodBut(s.good, s.score, v)
    ensures var t, c := PatchOccurrence(inst, s, v, o, maintain), o.clause;
      && RowDone(inst.rows[c], |inst.rows[c].lits|, s.weight[c], s.tally.counts[c], t.tally.counts[c], s.soln, v, s.score, t.score)
      && GoodKept(s.good, s.score, t.good, t.score, v, maintain)
  {
    var r := inst.rows[o.clause];
    var before, after := s.tally.counts[o.clause], CountAfter(s.tally.counts, o, s.soln[v]);
    if before == r.degree || after == r.degree {
      PatchRowDone(r, |r.lits|, s.weight[o.clause], before, after, s.soln, v, maintain, Patch(s.score, s.good));
    } else {
      RowIdleDone(r, s.weight[o.clause], before, after, s.soln, v, s.score);
      GoodKeptStart(s.good, s.score, v, maintain);
    }
  }

  // The first n occurrences of v.
  ghost function WalkTo(inst: Instance, s: State, v: int, n: nat, maintain: bool): (t: State)
    requires Running(inst, s) && 1 <= v <= inst.vars && n <= |inst.occ[v]| && InRange(inst.rows, inst.occ[v])
    ensures Running(inst, t) && t.soln == s.soln
  {
    if n == 0 then s else PatchOccurrence(inst, WalkTo(inst, s, v, n - 1, maintain), v, inst.occ[v][n - 1], maintain)
  }

  // In the middle of the flip, n occurrences done.
  ghost predicate Walked(inst: Instance, s: State, v: int, maintain: bool, t: State) {
    true == (
      && 1 <= v < |s.score|
      && Midway(inst, t, v, s.score[v], maintain) && GoodKept(s.good, s.score, t.good, t.score, v, maintain))
  }

  lemma WalkFirst(inst: Instance, s: State, v: int, maintain: bool)
    requires 1 <= v < |s.score| && Midway(inst, s, v, s.score[v], maintain)
    ensures Walked(inst, s, v, maintain, s)
  {
    GoodKeptStart(s.good, s.score, v, maintain);
  }

  lemma WalkNext(inst: Instance, s: State, t: State, v: int, o: Occurrence, maintain: bool)
    requires Running(inst, t) && v < |t.soln| && 0 <= o.clause < |inst.rows| && Walked(inst, s, v, maintain, t)
    ensures 0 <= v < |t.soln| && Walked(inst, s, v, maintain, PatchOccurrence(inst, t, v, o, maintain))
  {
    var t' := PatchOccurrence(inst, t, v, o, maintain);
    PatchOccurrenceDone(inst, t, v, o, maintain);
    RowDoneScores(inst, t.weight, t.tally.counts, t.soln, t.score, t'.score, v, o.clause, t'.tally.counts[o.clause]);
    GoodKeptTransitive(s.good, s.score, t.good, t.score, t'.good, t'.score, v, maintain);
  }

  lemma {:induction false} WalkDone(inst: Instance, s: State, v: int, n: nat, maintain: bool)
    requires Running(inst, s) && 1 <= v <= inst.vars && n <= |inst.occ[v]| && InRange(inst.rows, inst.occ[v])
    requires Walked(inst, s, v, maintain, s)
    ensures Walked(inst, s, v, maintain, WalkTo(inst, s, v, n, maintain))
  {
    if n > 0 {
      WalkDone(inst, s, v, n - 1, maintain);
      WalkNext(inst, s, WalkTo(inst, s, v, n - 1, maintain), v, inst.occ[v][n - 1], maintain);
    }
  }

  lemma {:induction false} WalkTally(inst: Instance, s: State, v: int, n: nat, maintain: bool)
    requires Running(inst, s) && 1 <= v <= inst.vars && n <= |inst.occ[v]| && InRange(inst.rows, inst.occ[v])
    ensures var t := WalkTo(inst, s, v, n, maintain);
      t.weight == s.weight && t.tally == TallyUpTo(inst.rows, s.tally, inst.occ[v], s.soln[v], n)
  {
    if n > 0 {
      WalkTally(inst, s, v, n - 1, maintain);
    }
  }

  // t is s after the first n occurrences of v.
  ghost predicate WalkedTo(inst: Instance, s: State, v: int, n: int, maintain: bool, t: State) {
    true == (
      && Running(inst, s) && 1 <= v <= inst.vars && 0 <= n <= |inst.occ[v]| && InRange(inst.rows, inst.occ[v])
      && t == WalkTo(inst, s, v, n, maintain))
  }

  lemma WalkedBounds(inst: Instance, s: State, v: int, n: int, maintain: bool, t: State)
    requires WalkedTo(inst, s, v, n, maintain, t)
    ensures 1 <= v < |inst.occ| && 0 <= n <= |inst.occ[v]|
  {
  }

  lemma WalkedMore(inst: Instance, s: State, v: int, n: nat, maintain: bool, t: State)
    requires WalkedTo(inst, s, v, n, maintain, t) && 1 <= v < |inst.occ| && n < |inst.occ[v]|
    ensures Running(inst, t) && 0 <= inst.occ[v][n].clause < |inst.rows| && 0 <= v < |t.soln|
    ensures WalkedTo(inst, s, v, n + 1, maintain, PatchOccurrence(inst, t, v, inst.occ[v][n], maintain))
  {
  }

  // The end of a flip: the score of v, and the stack of good variables.
  ghost function FlipDone(inst: Instance, neighbors: seq<seq<int>>, materialized: bool, t: State, v: int, original: int): (t': State)
    requires Running(inst, t) && ModeOk(inst, neighbors, materialized) && 1 <= v <= inst.vars
    ensures Running(inst, t') && t'.soln == t.soln && t'.weight == t.weight && t'.tally == t.tally
    ensures t'.score == t.score[v := -original]
  {
    var score := t.score[v := -original];
    assert materialized ==> NeighborsOf(inst, v, neighbors[v]);
    var good :=
      if materialized then GoodAfter(t.good, score, neighbors[v])
      else if t.good.index[v] != -1 then
        RemoveExact(t.good, v);
        Remove(t.good, v)
      else t.good;
    State(t.soln, t.tally, score, t.weight, good)
  }

  function WithFlip(s: State, v: int): State
    requires 0 <= v < |s.soln|
  {
    State(s.soln[v := !s.soln[v]], s.tally, s.score, s.weight, s.good)
  }

  // A whole flip.
  ghost function FlipStep(inst: Instance, neighbors: seq<seq<int>>, materialized: bool, s: State, v: int): (t: State)
    requires Running(inst, s) && ModeOk(inst, neighbors, materialized) && 1 <= v <= inst.vars
    ensures Running(inst, t)
  {
    OccurrencesInRange(inst.rows, v, inst.occ[v]);
    FlipDone(inst, neighbors, materialized, WalkTo(inst, WithFlip(s, v), v, |inst.occ[v]|, !materialized), v, s.score[v])
  }

  ghost function TwoFlips(inst: Instance, neighbors: seq<seq<int>>, materialized: bool, s: State, first: int, second: int): (t: State)
    requires Running(inst, s) && ModeOk(inst, neighbors, materialized) && 1 <= first <= inst.vars && 1 <= second <= inst.vars
    ensures Running(inst, t)
  {
    FlipStep(inst, neighbors, materialized, FlipStep(inst, neighbors, materialized, s, first), second)
  }

  lemma StateRuns(inst: Instance, s: State)
    requires StateOk(inst, s)
    ensures Running(inst, s)
  {
  }

  lemma WalkStart(inst: Instance, s: State, v: int, maintain: bool)
    requires StateOk(inst, s) && 1 <= v <= inst.vars
    ensures v < |s.soln| && WalkedTo(inst, WithFlip(s, v), v, 0, maintain, WithFlip(s, v))
    ensures Walked(inst, WithFlip(s, v), v, maintain, WithFlip(s, v))
  {
    FlipStart(inst, s, v, maintain);
    WalkFirst(inst, WithFlip(s, v), v, maintain);
  }

  // t is s after a whole flip of v.
  ghost predicate FlippedTo(inst: Instance, neighbors: seq<seq<int>>, materialized: bool, s: State, v: int, t: State) {
    true == (
      && Running(inst, s) && ModeOk(inst, neighbors, materialized) && 1 <= v <= inst.vars
      && t == FlipStep(inst, neighbors, materialized, s, v))
  }

  // t is s after two whole flips.
  ghost predicate BothFlipped(inst: Instance, neighbors: seq<seq<int>>, materialized: bool, s: State, first: int, second: int, t: State) {
    true == (
      && Running(inst, s) && ModeOk(inst, neighbors, materialized) && 1 <= first <= inst.vars && 1 <= second <= inst.vars
      && t == TwoFlips(inst, neighbors, materialized, s, first, second))
  }

  lemma FlippedTwice(inst: Instance, neighbors: seq<seq<int>>, materialized: bool, s: State, first: int, m: State, second: int, t: State)
    requires FlippedTo(inst, neighbors, materialized, s, first, m) && FlippedTo(inst, neighbors, materialized, m, second, t)
    ensures BothFlipped(inst, neighbors, materialized, s, first, second, t)
  {
  }

  lemma BothFlippedOk(inst: Instance, neighbors: seq<seq<int>>, materialized: bool, s: State, first: int, second: int, t: State)
    requires StateOk(inst, s) && BothFlipped(inst, neighbors, materialized, s, first, second, t)
    ensures StateOk(inst, t)
  {
    FlipStepExact(inst, neighbors, materialized, s, first);
    FlipStepExact(inst, neighbors, materialized, FlipStep(inst, neighbors, materialized, s, first), second);
  }

  // After the walk the end of the flip can be made ...
  lemma FinishReady(inst: Instance, neighbors: seq<seq<int>>, materialized: bool, s: State, v: int, t: State)
    requires StateOk(inst, s) && ModeOk(inst, neighbors, materialized) && 1 <= v <= inst.vars && v < |s.soln|
    requires WalkedTo(inst, WithFlip(s, v), v, |inst.occ[v]|, !materialized, t)
    ensures v < |t.score| == |t.good.index| && Exact(t.good)
    ensures materialized ==> v < |neighbors| == |t.score| && forall i :: 0 <= i < |neighbors[v]| ==> 0 <= neighbors[v][i] < |t.score|
  {
    assert materialized ==> NeighborsOf(inst, v, neighbors[v]);
  }

  // ... and the whole is then a flip that keeps the invariant.
  lemma FinishStep(inst: Instance, neighbors: seq<seq<int>>, materialized: bool, s: State, v: int, t: State, t': State)
    requires StateOk(inst, s) && ModeOk(inst, neighbors, materialized) && 1 <= v <= inst.vars && v < |s.soln| && v < |s.score|
    requires WalkedTo(inst, WithFlip(s, v), v, |inst.occ[v]|, !materialized, t)
    requires Running(inst, t) && t' == FlipDone(inst, neighbors, materialized, t, v, s.score[v])
    ensures FlippedTo(inst, neighbors, materialized, s, v, t') && StateOk(inst, t')
  {
    StateRuns(inst, s);
    FlipStepExact(inst, neighbors, materialized, s, v);
  }

  lemma WalkedRuns(inst: Instance, s: State, v: int, n: int, maintain: bool, t: State)
    requires WalkedTo(inst, s, v, n, maintain, t)
    ensures Running(inst, t)
  {
  }

  // The patches of a flip end in the numbers from scratch.
  lemma FlipStepExact(inst: Instance, neighbors: seq<seq<int>>, materialized: bool, s: State, v: int)
    requires Running(inst, s) && StateOk(inst, s) && ModeOk(inst, neighbors, materialized) && 1 <= v <= inst.vars
    ensures var t := FlipStep(inst, neighbors, materialized, s, v);
      && StateOk(inst, t) && t == FlipNumbers(inst, s, v).(good := t.good)
      && NoNewAbsent(s.good, s.score, t.good, t.score, v)
      && (materialized ==> t == Flipped(inst, neighbors, s, v)) && (!materialized ==> !Has(t.good, v))
  {
    OccurrencesInRange(inst.rows, v, inst.occ[v]);
    WalkStart(inst, s, v, !materialized);
    var t := WalkTo(inst, WithFlip(s, v), v, |inst.occ[v]|, !materialized);
    WalkDone(inst, WithFlip(s, v), v, |inst.occ[v]|, !materialized);
    WalkTally(inst, WithFlip(s, v), v, |inst.occ[v]|, !materialized);
    assert FlipCounted(inst, s, v, !materialized, t);
    FlipDoneExact(inst, neighbors, materialized, s, v, t);
  }

  lemma FlippedIsStep(inst: Instance, neighbors: seq<seq<int>>, s: State, v: int, t: State)
    requires IsFlipped(inst, neighbors, s, v, t)
    ensures FlippedTo(inst, neighbors, true, s, v, t) && StateOk(inst, t)
  {
    StateRuns(inst, s);
    FlipStepExact(inst, neighbors, true, s, v);
  }

  lemma FlipDoneExact(inst: Instance, neighbors: seq<seq<int>>, materialized: bool, s: State, v: int, t: State)
    requires Running(inst, t) && ModeOk(inst, neighbors, materialized) && FlipCounted(inst, s, v, !materialized, t)
    requires GoodKept(s.good, s.score, t.good, t.score, v, !materialized)
    ensures var t' := FlipDone(inst, neighbors, materialized, t, v, s.score[v]);
      && StateOk(inst, t') && t' == FlipNumbers(inst, s, v).(good := t'.good)
      && NoNewAbsent(s.good, s.score, t'.good, t'.score, v)
      && (materialized ==> t' == Flipped(inst, neighbors, s, v)) && (!materialized ==> !Has(t'.good, v))
  {
    FlipEnd(inst, s, v, !materialized, t);
    if materialized {
      FlippedOk(inst, neighbors, s, v);
      FlippedAbsent(inst, neighbors, s, v);
    } else {
      NoNeighborEnd(inst, neighbors, s, v, t);
    }
  }

  // With v off the stack and its score set, all members are good again.
  lemma NoNeighborEnd(inst: Instance, neighbors: seq<seq<int>>, s: State, v: int, t: State)
    requires Running(inst, t) && FlipCounted(inst, s, v, true, t) && GoodKept(s.good, s.score, t.good, t.score, v, true)
    ensures var t' := FlipDone(inst, neighbors, false, t, v, s.score[v]);
      StateOk(inst, t') && NoNewAbsent(s.good, s.score, t'.good, t'.score, v) && !Has(t'.good, v)
  {
    var t' := FlipDone(inst, neighbors, false, t, v, s.score[v]);
    FlipEnd(inst, s, v, true, t);
    FlipNumbersOk(inst, s, v);
    if t.good.index[v] != -1 {
      RemoveExact(t.good, v);
    }
    forall x | x != v && Absent(t'.good, t'.score, x)
      ensures Absent(s.good, s.score, x)
    {
      assert Absent(t.good, t.score, x);
    }
  }

  // Weights, collected deltas, and the variables they belong to.
  datatype Bump = Bump(weight: seq<int>, delta: seq<int>, flags: seq<bool>, touched: seq<int>)

  ghost predicate BumpSized(b: Bump, rows: nat, n: nat) {
    |b.weight| == rows && |b.delta| == |b.flags| == n && forall i :: 0 <= i < |b.touched| ==> 0 <= b.touched[i] < n
  }

  ghost function BumpLit(l: int, soln: seq<bool>, b: Bump): (c: Bump)
    requires BumpSized(b, |b.weight|, |soln|) && Abs(l) < |soln|
    ensures BumpSized(c, |b.weight|, |soln|) && c.weight == b.weight
  {
    var v := Abs(l);
    Bump(b.weight, b.delta[v := b.delta[v] + if (l > 0) == soln[v] then -1 else 1], b.flags[v := true],
         if b.flags[v] then b.touched else b.touched + [v])
  }

  // The first n literals of a violated row.
  ghost function BumpRowTo(r: Row, n: nat, soln: seq<bool>, b: Bump): (c: Bump)
    requires BumpSized(b, |b.weight|, |soln|) && VarsIn(r.lits, |soln| - 1) && n <= |r.lits|
    ensures BumpSized(c, |b.weight|, |soln|) && c.weight == b.weight
  {
    if n == 0 then b else BumpLit(r.lits[n - 1], soln, BumpRowTo(r, n - 1, soln, b))
  }

  // One violated row.
  ghost function BumpRowOf(inst: Instance, s: State, c: int, b: Bump): (d: Bump)
    requires Running(inst, s) && 0 <= c < |inst.rows| && BumpSized(b, |inst.rows|, |s.soln|)
    ensures BumpSized(d, |inst.rows|, |s.soln|)
  {
    var r := inst.rows[c];
    var d := BumpRowTo(r, |r.lits|, s.soln, b);
    Bump(b.weight[c := b.weight[c] + 1], d.delta, d.flags, d.touched)
  }

  // The first n rows of the stack of violated rows.
  ghost function BumpRowsTo(inst: Instance, s: State, n: nat): (b: Bump)
    requires Running(inst, s) && n <= |s.tally.hard.items|
    ensures BumpSized(b, |inst.rows|, |s.soln|)
  {
    if n == 0 then Bump(s.weight, Repeat(0, inst.vars + 1), NoneDeleted(inst.vars + 1), [])
    else
      assert Has(s.tally.hard, s.tally.hard.items[n - 1]);
      BumpRowOf(inst, s, s.tally.hard.items[n - 1], BumpRowsTo(inst, s, n - 1))
  }

  // One touched variable.
  ghost function ApplyLit(b: Bump, j: nat, p: Patch): (q: Patch)
    requires BumpSized(b, |b.weight|, |p.score|) && PatchOk(p, |p.score|) && j < |b.touched|
    ensures PatchOk(q, |p.score|)
  {
    var v := b.touched[j];
    if b.delta[v] == 0 then p else Scored(p, v, b.delta[v], true)
  }

  // The first n touched variables.
  ghost function ApplyTo(b: Bump, n: nat, p: Patch): (q: Patch)
    requires BumpSized(b, |b.weight|, |p.score|) && PatchOk(p, |p.score|) && n <= |b.touched|
    ensures PatchOk(q, |p.score|)
  {
    if n == 0 then p else ApplyLit(b, n - 1, ApplyTo(b, n - 1, p))
  }

  // increase_weights
  ghost function Reweigh(inst: Instance, s: State): (t: State)
    requires Running(inst, s)
    ensures Running(inst, t)
  {
    var b := BumpRowsTo(inst, s, |s.tally.hard.items|);
    var p := ApplyTo(b, |b.touched|, Patch(s.score, s.good));
    State(s.soln, s.tally, p.score, b.weight, p.good)
  }

  // The deltas with n literals of the row done.
  ghost predicate BumpRowAt(r: Row, n: int, soln: seq<bool>, b: Bump, c: Bump) {
    true == BumpRowState(r, n, soln, b.delta, c.delta, c.flags, c.touched)
  }

  lemma BumpRowFirst(r: Row, soln: seq<bool>, b: Bump)
    requires |b.delta| == |soln| && BumpTouched(b.flags, b.delta, b.touched)
    ensures BumpRowAt(r, 0, soln, b, b)
  {
    BumpRowStart(r, soln, b.delta, b.flags, b.touched);
  }

  lemma BumpRowNext(r: Row, j: nat, soln: seq<bool>, b: Bump, c: Bump)
    requires BumpSized(c, |c.weight|, |soln|) && VarsIn(r.lits, |soln| - 1) && DistinctVars(r.lits) && j < |r.lits|
    requires BumpRowAt(r, j, soln, b, c)
    ensures BumpRowAt(r, j + 1, soln, b, BumpLit(r.lits[j], soln, c))
  {
    BumpRowStep(r, j, soln, b.delta, c.delta, c.flags, c.touched);
  }

  lemma {:induction false} BumpRowDone(r: Row, n: nat, soln: seq<bool>, b: Bump)
    requires BumpSized(b, |b.weight|, |soln|) && VarsIn(r.lits, |soln| - 1) && DistinctVars(r.lits) && n <= |r.lits|
    requires BumpTouched(b.flags, b.delta, b.touched)
    ensures BumpRowAt(r, n, soln, b, BumpRowTo(r, n, soln, b))
  {
    if n == 0 {
      BumpRowFirst(r, soln, b);
    } else {
      BumpRowDone(r, n - 1, soln, b);
      BumpRowNext(r, n - 1, soln, b, BumpRowTo(r, n - 1, soln, b));
    }
  }

  // Weights and deltas after n violated rows.
  ghost predicate Bumped(inst: Instance, s: State, n: int, b: Bump) {
    true == (
      && BumpTouched(b.flags, b.delta, b.touched)
      && Bumping(inst, s.weight, b.weight, s.tally.counts, s.soln, b.delta)
      && WeightsUpTo(s.tally.hard, s.weight, b.weight, n))
  }

  lemma BumpStart(inst: Instance, s: State)
    requires Running(inst, s)
    ensures Bumped(inst, s, 0, Bump(s.weight, Repeat(0, inst.vars + 1), NoneDeleted(inst.vars + 1), []))
  {
  }

  lemma BumpRowOfDone(inst: Instance, s: State, n: nat, b: Bump)
    requires Running(inst, s) && Bumped(inst, s, n, b) && n < |s.tally.hard.items| && BumpSized(b, |inst.rows|, |s.soln|)
    ensures 0 <= s.tally.hard.items[n] < |inst.rows|
    ensures Bumped(inst, s, n + 1, BumpRowOf(inst, s, s.tally.hard.items[n], b))
  {
    var c := s.tally.hard.items[n];
    WeightsStep(s.tally.hard, s.weight, b.weight, n);
    assert Has(s.tally.hard, c);
    var r := inst.rows[c];
    BumpRowDone(r, |r.lits|, s.soln, b);
    BumpingRow(inst, s.weight, b.weight, s.tally.counts, s.soln, b.delta, BumpRowTo(r, |r.lits|, s.soln, b).delta, c);
  }

  // The first n rows are done as they should.
  ghost predicate BumpedTo(inst: Instance, s: State, n: int) {
    true == (Running(inst, s) && 0 <= n <= |s.tally.hard.items| && Bumped(inst, s, n, BumpRowsTo(inst, s, n)))
  }

  lemma BumpedNext(inst: Instance, s: State, n: nat)
    requires 0 < n <= |s.tally.hard.items| && BumpedTo(inst, s, n - 1)
    ensures BumpedTo(inst, s, n)
  {
    BumpedStep(inst, s, n - 1);
  }

  lemma BumpedStep(inst: Instance, s: State, n: nat)
    requires BumpedTo(inst, s, n) && n < |s.tally.hard.items|
    ensures BumpedTo(inst, s, n + 1)
  {
    BumpRowOfDone(inst, s, n, BumpRowsTo(inst, s, n));
  }

  lemma {:induction false} BumpRowsDone(inst: Instance, s: State, n: nat)
    requires BumpedTo(inst, s, 0) && n <= |s.tally.hard.items|
    ensures BumpedTo(inst, s, n)
  {
    if n > 0 {
      BumpRowsDone(inst, s, n - 1);
      BumpedNext(inst, s, n);
    }
  }

  // Deltas of the first n touched variables applied.
  ghost predicate Applied(b: Bump, n: int, p: Patch, q: Patch) {
    true == (
      && |q.score| == |p.score| == |b.delta| && 0 <= n <= |b.touched|
      && (forall x :: 0 <= x < |q.score| ==> q.score[x] == p.score[x] + if x in b.touched[..n] then b.delta[x] else 0)
      && GoodKept(p.good, p.score, q.good, q.score, -1, true))
  }

  lemma ApplyStart(b: Bump, p: Patch)
    requires |b.delta| == |p.score| && GoodOk(p.good, p.score)
    ensures Applied(b, 0, p, p)
  {
    GoodKeptStart(p.good, p.score, -1, true);
  }

  lemma ApplyOne(b: Bump, n: nat, p: Patch, q: Patch)
    requires Unrepeated(b.touched) && BumpSized(b, |b.weight|, |p.score|) && PatchOk(q, |p.score|)
    requires Applied(b, n, p, q) && n < |b.touched|
    ensures Applied(b, n + 1, p, ApplyLit(b, n, q))
  {
    var v := b.touched[n];
    UnrepeatedAt(b.touched, n);
    assert b.touched[..n + 1] == b.touched[..n] + [v];
    if b.delta[v] != 0 {
      GoodKeptStep(p.good, p.score, q.good, q.score, -1, true, v, b.delta[v], ModeFor(true, b.delta[v]));
    }
  }

  lemma {:induction false} ApplyDone(b: Bump, n: nat, p: Patch)
    requires Unrepeated(b.touched) && BumpSized(b, |b.weight|, |p.score|) && PatchOk(p, |p.score|)
    requires n <= |b.touched| && Applied(b, 0, p, p)
    ensures Applied(b, n, p, ApplyTo(b, n, p))
  {
    if n > 0 {
      ApplyDone(b, n - 1, p);
      ApplyOne(b, n - 1, p, ApplyTo(b, n - 1, p));
    }
  }

  // The collected deltas are those of the touched variables.
  lemma BumpTouchedOnly(inst: Instance, s: State, b: Bump)
    requires Running(inst, s) && b == BumpRowsTo(inst, s, |s.tally.hard.items|)
    ensures BumpTouched(b.flags, b.delta, b.touched) && BumpSized(b, |inst.rows|, |s.soln|)
  {
    BumpStart(inst, s);
    BumpRowsDone(inst, s, |s.tally.hard.items|);
  }

  // Deltas and flags with those of the first i touched variables cleared.
  ghost predicate ClearedUpTo(b: Bump, i: int, delta: seq<int>, flags: seq<bool>) {
    true == (
      && |delta| == |flags| == |b.delta| && 0 <= i <= |b.touched| && BumpTouched(b.flags, b.delta, b.touched)
      && forall x :: 0 <= x < |delta| ==>
           if x in b.touched[..i] then delta[x] == 0 && !flags[x] else delta[x] == b.delta[x] && flags[x] == b.flags[x])
  }

  lemma ClearedStep(b: Bump, i: nat, delta: seq<int>, flags: seq<bool>)
    requires ClearedUpTo(b, i, delta, flags) && i < |b.touched|
    ensures var v := b.touched[i];
      0 <= v < |delta| && delta[v] == b.delta[v] && ClearedUpTo(b, i + 1, delta[v := 0], flags[v := false])
  {
    assert b.touched[..i + 1] == b.touched[..i] + [b.touched[i]];
    UnrepeatedAt(b.touched, i);
  }

  lemma ClearedEnd(b: Bump, delta: seq<int>, flags: seq<bool>)
    requires ClearedUpTo(b, |b.touched|, delta, flags)
    ensures delta == Repeat(0, |b.delta|) && flags == NoneDeleted(|b.delta|)
  {
    assert b.touched[..|b.touched|] == b.touched;
  }

  // The loop over the touched variables, i of them done.
  ghost predicate Applying(b: Bump, i: int, p: Patch, q: Patch, delta: seq<int>, flags: seq<bool>) {
    true == (
      && BumpSized(b, |b.weight|, |p.score|) && PatchOk(p, |p.score|) && PatchOk(q, |p.score|)
      && ClearedUpTo(b, i, delta, flags) && 0 <= i <= |b.touched| && q == ApplyTo(b, i, p))
  }

  lemma ApplyingNext(b: Bump, i: nat, p: Patch, q: Patch, delta: seq<int>, flags: seq<bool>)
    requires Applying(b, i, p, q, delta, flags) && i < |b.touched|
    ensures BumpSized(b, |b.weight|, |q.score|) && PatchOk(q, |q.score|) && |delta| == |flags| == |q.score|
    ensures var v := b.touched[i];
      0 <= v < |delta| && delta[v] == b.delta[v] && Applying(b, i + 1, p, ApplyLit(b, i, q), delta[v := 0], flags[v := false])
  {
    ClearedStep(b, i, delta, flags);
  }

  // Exactly the violated rows weigh one more; scores and stack follow.
  lemma ReweighExact(inst: Instance, s: State)
    requires Running(inst, s) && StateOk(inst, s)
    ensures var t := Reweigh(inst, s);
      && StateOk(inst, t) && t.soln == s.soln && t.tally == s.tally
      && (forall c :: 0 <= c < |inst.rows| ==> t.weight[c] == s.weight[c] + ToInt(s.tally.counts[c] < inst.rows[c].degree))
      && NoNewAbsent(s.good, s.score, t.good, t.score, -1)
  {
    var b := BumpRowsTo(inst, s, |s.tally.hard.items|);
    BumpStart(inst, s);
    BumpRowsDone(inst, s, |s.tally.hard.items|);
    var p := ApplyTo(b, |b.touched|, Patch(s.score, s.good));
    ApplyStart(b, Patch(s.score, s.good));
    ApplyDone(b, |b.touched|, Patch(s.score, s.good));
    BumpEnd(inst, s, b, p);
  }

  lemma BumpEnd(inst: Instance, s: State, b: Bump, p: Patch)
    requires StateOk(inst, s) && Bumped(inst, s, |s.tally.hard.items|, b) && Applied(b, |b.touched|, Patch(s.score, s.good), p)
    ensures var t := State(s.soln, s.tally, p.score, b.weight, p.good);
      && StateOk(inst, t) && NoNewAbsent(s.good, s.score, t.good, t.score, -1)
      && (forall c :: 0 <= c < |inst.rows| ==> t.weight[c] == s.weight[c] + ToInt(s.tally.counts[c] < inst.rows[c].degree))
  {
    assert b.touched[..|b.touched|] == b.touched;
    BumpedScores(inst, s.weight, b.weight, s.tally.counts, s.soln, b.delta, s.score, p.score);
    forall c | 0 <= c < |inst.rows|
      ensures b.weight[c] == s.weight[c] + ToInt(s.tally.counts[c] < inst.rows[c].degree)
    {
      assert Has(s.tally.hard, c) <==> s.tally.counts[c] < inst.rows[c].degree;
    }
  }

  // t is s after increase_weights.
  ghost predicate Reweighed(inst: Instance, s: State, t: State) {
    true == (Running(inst, s) && t == Reweigh(inst, s))
  }

  lemma ReweighFacts(inst: Instance, s: State)
    requires StateOk(inst, s)
    ensures forall t :: Reweighed(inst, s, t) ==> StateOk(inst, t)
  {
    StateRuns(inst, s);
    ReweighExact(inst, s);
  }

  // A swap is two flips.
  datatype Move = FlipMove(v: int) | BumpMove

  ghost predicate Legal(inst: Instance, moves: seq<Move>) {
    forall i :: 0 <= i < |moves| && moves[i].FlipMove? ==> 1 <= moves[i].v <= inst.vars
  }

  ghost function MoveStep(inst: Instance, neighbors: seq<seq<int>>, materialized: bool, s: State, move: Move): (t: State)
    requires Running(inst, s) && ModeOk(inst, neighbors, materialized) && (move.FlipMove? ==> 1 <= move.v <= inst.vars)
    ensures Running(inst, t)
  {
    match move
    case FlipMove(v) => FlipStep(inst, neighbors, materialized, s, v)
    case BumpMove => Reweigh(inst, s)
  }

  // The state after all the patches of all the moves.
  ghost function Play(inst: Instance, neighbors: seq<seq<int>>, materialized: bool, s: State, moves: seq<Move>): (t: State)
    requires Running(inst, s) && ModeOk(inst, neighbors, materialized) && Legal(inst, moves)
    ensures Running(inst, t)
  {
    if moves == [] then s
    else
      var n := |moves| - 1;
      MoveStep(inst, neighbors, materialized, Play(inst, neighbors, materialized, s, moves[..n]), moves[n])
  }

  lemma PlayMore(inst: Instance, neighbors: seq<seq<int>>, materialized: bool, s: State, moves: seq<Move>, move: Move)
    requires Running(inst, s) && ModeOk(inst, neighbors, materialized) && Legal(inst, moves)
    requires move.FlipMove? ==> 1 <= move.v <= inst.vars
    ensures Legal(inst, moves + [move])
    ensures Play(inst, neighbors, materialized, s, moves + [move])
         == MoveStep(inst, neighbors, materialized, Play(inst, neighbors, materialized, s, moves), move)
  {
    assert (moves + [move])[..|moves|] == moves;
  }

  // t is what the moves make of s.
  ghost predicate Played(inst: Instance, neighbors: seq<seq<int>>, materialized: bool, s: State, moves: seq<Move>, t: State) {
    true == (
      && Running(inst, s) && ModeOk(inst, neighbors, materialized) && Legal(inst, moves)
      && t == Play(inst, neighbors, materialized, s, moves))
  }

  lemma PlayedNone(inst: Instance, neighbors: seq<seq<int>>, materialized: bool, s: State)
    requires StateOk(inst, s) && ModeOk(inst, neighbors, materialized)
    ensures Played(inst, neighbors, materialized, s, [], s)
  {
  }

  lemma PlayedMore(inst: Instance, neighbors: seq<seq<int>>, materialized: bool, s: State, moves: seq<Move>, m: State, move: Move, t: State)
    requires Played(inst, neighbors, materialized, s, moves, m) && Running(inst, m)
    requires match move
      case FlipMove(v) => FlippedTo(inst, neighbors, materialized, m, v, t)
      case BumpMove => Reweighed(inst, m, t)
    ensures Played(inst, neighbors, materialized, s, moves + [move], t)
  {
    PlayMore(inst, neighbors, materialized, s, moves, move);
  }

  // From s to t the violation went down by `gain`, at equal weights.
  ghost predicate Lowered(inst: Instance, s: State, gain: int, t: State) {
    true == (
      && t.weight == s.weight && |s.weight| == |s.tally.counts| == |t.tally.counts| == |inst.rows|
      && Violation(inst.rows, t.weight, t.tally.counts, |inst.rows|)
         == Violation(inst.rows, s.weight, s.tally.counts, |inst.rows|) - gain)
  }

  lemma FlipLowers(inst: Instance, neighbors: seq<seq<int>>, materialized: bool, m: State, v: int, t: State)
    requires StateOk(inst, m) && FlippedTo(inst, neighbors, materialized, m, v, t)
    ensures 1 <= v < |m.score| && Lowered(inst, m, m.score[v], t)
  {
    StateRuns(inst, m);
    FlipStepExact(inst, neighbors, materialized, m, v);
    FlipLowersViolation(inst, m, v);
  }

  lemma PlayedFlip(inst: Instance, neighbors: seq<seq<int>>, materialized: bool, s: State, moves: seq<Move>, m: State, v: int, t: State)
    requires Played(inst, neighbors, materialized, s, moves, m) && FlippedTo(inst, neighbors, materialized, m, v, t)
    ensures Played(inst, neighbors, materialized, s, moves + [FlipMove(v)], t)
  {
    PlayedMore(inst, neighbors, materialized, s, moves, m, FlipMove(v), t);
  }

  lemma PlayedBump(inst: Instance, neighbors: seq<seq<int>>, materialized: bool, s: State, moves: seq<Move>, m: State, t: State)
    requires Played(inst, neighbors, materialized, s, moves, m) && Reweighed(inst, m, t)
    ensures Played(inst, neighbors, materialized, s, moves + [BumpMove], t)
  {
    PlayedMore(inst, neighbors, materialized, s, moves, m, BumpMove, t);
  }

  // A swap is two moves.
  lemma PlayedSwap(inst: Instance, neighbors: seq<seq<int>>, materialized: bool, s: State, moves: seq<Move>, m: State,
                   first: int, second: int, t: State)
    requires Played(inst, neighbors, materialized, s, moves, m)
    requires BothFlipped(inst, neighbors, materialized, m, first, second, t)
    ensures Played(inst, neighbors, materialized, s, moves + [FlipMove(first)] + [FlipMove(second)], t)
  {
    var h := FlipStep(inst, neighbors, materialized, m, first);
    PlayedMore(inst, neighbors, materialized, s, moves, m, FlipMove(first), h);
    PlayedMore(inst, neighbors, materialized, s, moves + [FlipMove(first)], h, FlipMove(second), t);
  }

  // Only the moved variable may have become positive and absent.
  lemma MoveStepExact(inst: Instance, neighbors: seq<seq<int>>, materialized: bool, s: State, move: Move)
    requires Running(inst, s) && StateOk(inst, s) && ModeOk(inst, neighbors, materialized)
    requires move.FlipMove? ==> 1 <= move.v <= inst.vars
    ensures var t := MoveStep(inst, neighbors, materialized, s, move);
      && StateOk(inst, t)
      && forall x :: Absent(t.good, t.score, x) ==> Absent(s.good, s.score, x) || move == FlipMove(x)
  {
    match move
    case FlipMove(v) => FlipStepExact(inst, neighbors, materialized, s, v);
    case BumpMove => ReweighExact(inst, s);
  }

  // The invariant after some moves.
  ghost predicate Reached(inst: Instance, s: State, moves: seq<Move>, t: State) {
    true == (
      && StateOk(inst, t)
      && forall x :: Absent(t.good, t.score, x) ==> Absent(s.good, s.score, x) || FlipMove(x) in moves)
  }

  lemma ReachedStart(inst: Instance, s: State)
    requires StateOk(inst, s)
    ensures Reached(inst, s, [], s)
  {
  }

  lemma ReachedStep(inst: Instance, neighbors: seq<seq<int>>, materialized: bool, s: State, moves: seq<Move>, n: nat, t: State)
    requires Running(inst, t) && |moves| == n + 1 && Reached(inst, s, moves[..n], t) && ModeOk(inst, neighbors, materialized)
    requires moves[n].FlipMove? ==> 1 <= moves[n].v <= inst.vars
    ensures Reached(inst, s, moves, MoveStep(inst, neighbors, materialized, t, moves[n]))
  {
    MoveStepExact(inst, neighbors, materialized, t, moves[n]);
    assert moves == moves[..n] + [moves[n]];
  }

  lemma {:induction false} RunReached(inst: Instance, neighbors: seq<seq<int>>, materialized: bool, s: State, moves: seq<Move>)
    requires Running(inst, s) && Reached(inst, s, [], s) && ModeOk(inst, neighbors, materialized) && Legal(inst, moves)
    ensures Reached(inst, s, moves, Play(inst, neighbors, materialized, s, moves))
  {
    if moves != [] {
      var n := |moves| - 1;
      RunReached(inst, neighbors, materialized, s, moves[..n]);
      ReachedStep(inst, neighbors, materialized, s, moves, n, Play(inst, neighbors, materialized, s, moves[..n]));
    }
  }

  // In either mode, whatever the moves: after all their patches the counts,
  // stacks and scores are those from scratch, and only flipped variables can
  // have a positive score off the stack.
  lemma RunKeepsState(inst: Instance, neighbors: seq<seq<int>>, materialized: bool, s: State, moves: seq<Move>)
    requires Running(inst, s) && StateOk(inst, s) && ModeOk(inst, neighbors, materialized) && Legal(inst, moves)
    ensures var t := Play(inst, neighbors, materialized, s, moves);
      && TrueCounts(inst.rows, t.tally.counts, t.soln) && StacksMatch(inst.rows, t.tally)
      && t.score == ScoresFor(inst, t.weight, t.tally.counts, t.soln) && GoodOk(t.good, t.score)
      && forall x :: Absent(t.good, t.score, x) ==> Absent(s.good, s.score, x) || FlipMove(x) in moves
  {
    ReachedStart(inst, s);
    RunReached(inst, neighbors, materialized, s, moves);
  }

  // Every move flips a variable that has positive score at that time.
  ghost predicate GoodRun(inst: Instance, neighbors: seq<seq<int>>, materialized: bool, s: State, moves: seq<Move>)
    requires Running(inst, s) && ModeOk(inst, neighbors, materialized) && Legal(inst, moves)
  {
    moves == [] ||
    var n := |moves| - 1;
    && moves[n].FlipMove? && Play(inst, neighbors, materialized, s, moves[..n]).score[moves[n].v] > 0
    && GoodRun(inst, neighbors, materialized, s, moves[..n])
  }

  // Moves made and violation left are at most the violation at the start.
  ghost predicate Paid(inst: Instance, s: State, n: int, t: State) {
    true == (
      && StateOk(inst, t) && |s.weight| == |s.tally.counts| == |inst.rows|
      && n + Violation(inst.rows, t.weight, t.tally.counts, |inst.rows|) <= Violation(inst.rows, s.weight, s.tally.counts, |inst.rows|))
  }

  lemma PaidStart(inst: Instance, s: State)
    requires StateOk(inst, s)
    ensures Paid(inst, s, 0, s)
  {
  }

  lemma PaidStep(inst: Instance, neighbors: seq<seq<int>>, materialized: bool, s: State, n: nat, m: State, v: int)
    requires Running(inst, m) && Paid(inst, s, n, m) && ModeOk(inst, neighbors, materialized)
    requires 1 <= v <= inst.vars && m.score[v] > 0
    ensures Paid(inst, s, n + 1, FlipStep(inst, neighbors, materialized, m, v))
  {
    FlipStepExact(inst, neighbors, materialized, m, v);
    FlipLowersViolation(inst, m, v);
  }

  lemma {:induction false} GoodRunPaid(inst: Instance, neighbors: seq<seq<int>>, materialized: bool, s: State, moves: seq<Move>)
    requires Running(inst, s) && Paid(inst, s, 0, s) && ModeOk(inst, neighbors, materialized) && Legal(inst, moves)
    requires GoodRun(inst, neighbors, materialized, s, moves)
    ensures Paid(inst, s, |moves|, Play(inst, neighbors, materialized, s, moves))
  {
    if moves != [] {
      var n := |moves| - 1;
      GoodRunPaid(inst, neighbors, materialized, s, moves[..n]);
      PaidStep(inst, neighbors, materialized, s, n, Play(inst, neighbors, materialized, s, moves[..n]), moves[n].v);
    }
  }

  // Such a run is no longer than the violation it starts with.
  lemma GoodRunBounded(inst: Instance, neighbors: seq<seq<int>>, materialized: bool, s: State, moves: seq<Move>)
    requires Running(inst, s) && StateOk(inst, s) && ModeOk(inst, neighbors, materialized) && Legal(inst, moves)
    requires GoodRun(inst, neighbors, materialized, s, moves)
    ensures var t := Play(inst, neighbors, materialized, s, moves);
      && |moves| + Violation(inst.rows, t.weight, t.tally.counts, |inst.rows|) <= Violation(inst.rows, s.weight, s.tally.counts, |inst.rows|)
      && |moves| <= Violation(inst.rows, s.weight, s.tally.counts, |inst.rows|)
  {
    var t := Play(inst, neighbors, materialized, s, moves);
    PaidStart(inst, s);
    GoodRunPaid(inst, neighbors, materialized, s, moves);
    NoViolation(inst.rows, t.weight, t.tally.counts, |inst.rows|);
  }
}
