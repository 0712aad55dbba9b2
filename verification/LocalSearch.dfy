/** Local search on KNF rows: scores, counts and stacks are patched in place
    and always agree with their definitions from scratch. */
module LocalSearch {
  import opened Knf
  import opened Elimination
  import opened RecoveryLog
  import opened IndexedStack
  import opened Scores
  import opened Tally
  import opened SearchState
  import opened RowUpdate
  import opened FusedSwap
  import opened Weights
  import opened Moves
  import opened Swap
  import opened Turns
  import opened Neighbors

  class CardSATLS {
    const inst: Instance
    var neighbors: seq<seq<int>>
    var materialized: bool
    var soln: seq<bool>
    var tally: Tally
    var score: seq<int>
    var weight: seq<int>
    var good: Stack
    var satVar: seq<int>
    var neighborFlag: seq<int>
    var deltaScore: seq<int>
    var weightTouched: seq<bool>
    var timeStamp: seq<int>

    // parse_from_preprocess, and the choice of mode in `settings`.
    constructor (rows: seq<Row>, vars: nat, attempt: bool, budget: nat)
      requires Plain(rows, vars)
      ensures Sized() && inst.rows == rows && inst.vars == vars
    {
      var parsed := ParseInstance(rows, vars);
      var ok, flags, lists := false, Repeat(0, vars + 1), EmptyLists(vars + 1);
      if attempt {
        ok, flags, lists := BuildNeighborRelation(parsed, flags, budget);
      }
      inst := parsed;
      materialized, neighbors := ok, lists;
      soln, score, weight := NoneDeleted(vars + 1), Repeat(0, vars + 1), Repeat(0, |rows|);
      good := Stack([], Repeat(0, vars + 1));
      var unused := Stack([], Repeat(-1, |rows|));
      tally := Tally(Repeat(0, |rows|), unused, unused, 0);
      satVar, neighborFlag, deltaScore := Repeat(0, |rows|), flags, Repeat(0, vars + 1);
      weightTouched, timeStamp := NoneDeleted(vars + 1), Repeat(0, vars + 1);
    }

    ghost function Now(): State
      reads this
    {
      State(soln, tally, score, weight, good)
    }

    ghost predicate Scratch()
      reads this
    {
      true == (
        && satVar == Repeat(0, |inst.rows|)
        && neighborFlag == Repeat(0, inst.vars + 1) && deltaScore == Repeat(0, inst.vars + 1)
        && weightTouched == NoneDeleted(inst.vars + 1))
    }

    ghost predicate Valid()
      reads this
    {
      StateOk(inst, Now()) && Scratch() && |timeStamp| == inst.vars + 1 && ModeOk(inst, neighbors, materialized)
    }

    // update_score
    method UpdateScore(v: int, delta: int, mode: ScoreStackUpdate)
      requires Exact(good) && |good.index| == |score| && 0 <= v < |score|
      modifies this`score, this`good
      ensures score == old(score)[v := old(score)[v] + delta]
      ensures good == AfterScore(old(good), score, v, mode) && Exact(good) && |good.index| == |score|
    {
      score := score[v := score[v] + delta];
      AfterScoreExact(good, score, v, mode);
      if mode.AfterScoreIncrease? {
        if score[v] > 0 && good.index[v] == -1 {
          good := Push(good, v);
        }
      } else if mode.AfterScoreDecrease? {
        if good.index[v] != -1 && score[v] <= 0 {
          good := Remove(good, v);
        }
      }
    }

    // update_clause_neighbor_scores
    method UpdateClauseNeighborScores(c: nat, flipvar: int, before: int, after: int, maintain: bool)
      requires InstanceOk(inst) && c < |inst.rows| == |weight| && |soln| == |score| == inst.vars + 1
      requires Exact(good) && |good.index| == |score|
      modifies this`score, this`good
      ensures Patch(score, good) ==
        PatchRow(inst.rows[c], |inst.rows[c].lits|, weight[c], before, after, soln, flipvar, maintain, Patch(old(score), old(good)))
    {
      var r := inst.rows[c];
      var phase := Phase(before, after, r.degree);
      var delta := Delta(before, after, r.degree, weight[c]);
      ghost var p := Patch(score, good);
      for j := 0 to |r.lits|
        invariant PatchOk(Patch(score, good), |soln|)
        invariant Patch(score, good) == PatchRow(r, j, weight[c], before, after, soln, flipvar, maintain, p)
      {
        var v: int := Abs(r.lits[j]);
        if v != flipvar && ((r.lits[j] > 0) == soln[v]) == phase {
          UpdateScore(v, delta, if !maintain then NoStackUpdate else if delta > 0 then AfterScoreIncrease else AfterScoreDecrease);
        }
      }
    }

    // update_count_for_occurrence
    method UpdateCountForOccurrence(flipvar: int, o: Occurrence)
      requires 0 <= o.clause < |inst.rows| && StacksMatch(inst.rows, tally) && 0 <= flipvar < |soln|
      modifies this`tally
      ensures tally == CountStep(inst.rows, old(tally), o, soln[flipvar])
    {
      var c := o.clause;
      var before := tally.counts[c];
      var after := before + (if soln[flipvar] == o.sense then 1 else -1);
      if before < inst.rows[c].degree && after >= inst.rows[c].degree {
        tally := SatRow(inst.rows, tally, c);
      } else if before >= inst.rows[c].degree && after < inst.rows[c].degree {
        tally := UnsatRow(inst.rows, tally, c);
      }
      tally := tally.(counts := tally.counts[c := after]);
    }

    // update_one_flip_occurrence
    method UpdateOneFlipOccurrence(flipvar: int, o: Occurrence, maintain: bool)
      requires Running(inst, Now()) && 0 <= o.clause < |inst.rows| && 0 <= flipvar < |soln|
      modifies this`score, this`good, this`tally
      ensures Now() == PatchOccurrence(inst, old(Now()), flipvar, o, maintain)
    {
      var c := o.clause;
      var before := tally.counts[c];
      var after := before + (if soln[flipvar] == o.sense then 1 else -1);
      if before == inst.rows[c].degree || after == inst.rows[c].degree {
        UpdateClauseNeighborScores(c, flipvar, before, after, maintain);
      }
      UpdateCountForOccurrence(flipvar, o);
    }

    // flip_update_score_multi and its twin that maintains the stack
    method FlipUpdateScoreMulti(flipvar: int, maintain: bool, ghost s: State)
      requires WalkedTo(inst, s, flipvar, 0, maintain, Now())
      modifies this`score, this`good, this`tally
      ensures 1 <= flipvar < |inst.occ| && WalkedTo(inst, s, flipvar, |inst.occ[flipvar]|, maintain, Now())
    {
      WalkedBounds(inst, s, flipvar, 0, maintain, Now());
      for i := 0 to |inst.occ[flipvar]|
        invariant WalkedTo(inst, s, flipvar, i, maintain, Now())
      {
        FlipOccurrence(flipvar, i, maintain, s);
      }
    }

    method FlipOccurrence(flipvar: int, i: nat, maintain: bool, ghost s: State)
      requires WalkedTo(inst, s, flipvar, i, maintain, Now()) && 1 <= flipvar < |inst.occ| && i < |inst.occ[flipvar]|
      modifies this`score, this`good, this`tally
      ensures WalkedTo(inst, s, flipvar, i + 1, maintain, Now())
    {
      WalkedMore(inst, s, flipvar, i, maintain, Now());
      UpdateOneFlipOccurrence(flipvar, inst.occ[flipvar][i], maintain);
    }

    // update_goodvarstack
    method UpdateGoodvarstack(flipvar: int)
      requires Exact(good) && |good.index| == |score| == |neighbors| && 0 <= flipvar < |neighbors|
      requires forall i :: 0 <= i < |neighbors[flipvar]| ==> 0 <= neighbors[flipvar][i] < |score|
      modifies this`good
      ensures good == GoodAfter(old(good), score, neighbors[flipvar])
    {
      var index := |good.items| - 1;
      while index >= 0
        invariant -1 <= index < |good.items| && Exact(good) && |good.index| == |score|
        invariant Sweep(old(good), score, |old(good).items|) == Sweep(good, score, index + 1)
        decreases index
      {
        var v := good.items[index];
        if score[v] <= 0 {
          RemoveExact(good, v);
          good := Remove(good, v);
        }
        index := index - 1;
      }
      ghost var swept := good;
      for i := 0 to |neighbors[flipvar]|
        invariant good == AddGood(swept, score, neighbors[flipvar], i)
      {
        var v := neighbors[flipvar][i];
        if score[v] > 0 {
          if good.index[v] == -1 {
            good := Push(good, v);
          }
        }
      }
    }

    method FlipWithNeighbor(flipvar: int)
      requires StateOk(inst, Now()) && NeighborsOk(inst, neighbors) && 1 <= flipvar <= inst.vars
      modifies this`soln, this`tally, this`score, this`good
      ensures StateOk(inst, Now()) && FlippedTo(inst, neighbors, true, old(Now()), flipvar, Now())
    {
      ghost var s := Now();
      var original := score[flipvar];
      FlipCount(flipvar, false);
      FinishWithNeighbor(flipvar, original, s);
    }

    method FinishWithNeighbor(v: int, original: int, ghost s: State)
      requires StateOk(inst, s) && NeighborsOk(inst, neighbors) && 1 <= v <= inst.vars && v < |s.soln| && v < |s.score|
      requires original == s.score[v] && WalkedTo(inst, WithFlip(s, v), v, |inst.occ[v]|, false, Now())
      modifies this`score, this`good
      ensures StateOk(inst, Now()) && FlippedTo(inst, neighbors, true, s, v, Now())
    {
      ghost var t := Now();
      FinishReady(inst, neighbors, true, s, v, t);
      WalkedRuns(inst, WithFlip(s, v), v, |inst.occ[v]|, false, t);
      score := score[v := -original];
      UpdateGoodvarstack(v);
      FinishStep(inst, neighbors, true, s, v, t, Now());
    }

    // The value of the variable, and the walk over its occurrences.
    method FlipCount(v: int, maintain: bool)
      requires StateOk(inst, Now()) && 1 <= v <= inst.vars
      modifies this`soln, this`tally, this`score, this`good
      ensures 1 <= v < |inst.occ| && v < |old(soln)|
      ensures WalkedTo(inst, WithFlip(old(Now()), v), v, |inst.occ[v]|, maintain, Now())
    {
      ghost var s := Now();
      WalkStart(inst, s, v, maintain);
      soln := soln[v := !soln[v]];
      FlipUpdateScoreMulti(v, maintain, WithFlip(s, v));
    }

    // The end of a flip with neighbor lists.
    method FinishFlip(v: int, original: int, ghost s: State)
      requires FlipCounted(inst, s, v, false, Now()) && NeighborsOk(inst, neighbors)
      requires original == s.score[v] && good == s.good
      modifies this`score, this`good
      ensures IsFlipped(inst, neighbors, s, v, Now())
    {
      assert NeighborsOf(inst, v, neighbors[v]);
      FlipEnd(inst, s, v, false, Now());
      score := score[v := -original];
      UpdateGoodvarstack(v);
    }

    method FlipNoNeighbor(flipvar: int)
      requires StateOk(inst, Now()) && 1 <= flipvar <= inst.vars
      modifies this`soln, this`tally, this`score, this`good
      ensures StateOk(inst, Now()) && FlippedTo(inst, neighbors, false, old(Now()), flipvar, Now())
    {
      ghost var s := Now();
      var original := score[flipvar];
      FlipCount(flipvar, true);
      FinishNoNeighbor(flipvar, original, s);
    }

    method FinishNoNeighbor(v: int, original: int, ghost s: State)
      requires StateOk(inst, s) && 1 <= v <= inst.vars && v < |s.soln| && v < |s.score|
      requires original == s.score[v] && WalkedTo(inst, WithFlip(s, v), v, |inst.occ[v]|, true, Now())
      modifies this`score, this`good
      ensures StateOk(inst, Now()) && FlippedTo(inst, neighbors, false, s, v, Now())
    {
      ghost var t := Now();
      FinishReady(inst, neighbors, false, s, v, t);
      WalkedRuns(inst, WithFlip(s, v), v, |inst.occ[v]|, true, t);
      score := score[v := -original];
      if good.index[v] != -1 {
        good := Remove(good, v);
      }
      FinishStep(inst, neighbors, false, s, v, t, Now());
    }

    // flip, in the mode chosen by `settings`
    method Flip(flipvar: int)
      requires StateOk(inst, Now()) && ModeOk(inst, neighbors, materialized) && 1 <= flipvar <= inst.vars
      modifies this`soln, this`tally, this`score, this`good
      ensures StateOk(inst, Now()) && FlippedTo(inst, neighbors, materialized, old(Now()), flipvar, Now())
    {
      if materialized {
        FlipWithNeighbor(flipvar);
      } else {
        FlipNoNeighbor(flipvar);
      }
    }

    method FlipBoth(first: int, second: int)
      requires StateOk(inst, Now()) && ModeOk(inst, neighbors, materialized) && 1 <= first <= inst.vars && 1 <= second <= inst.vars
      modifies this`soln, this`tally, this`score, this`good
      ensures StateOk(inst, Now()) && BothFlipped(inst, neighbors, materialized, old(Now()), first, second, Now())
    {
      ghost var s := Now();
      Flip(first);
      ghost var m := Now();
      Flip(second);
      FlippedTwice(inst, neighbors, materialized, s, first, m, second, Now());
    }

    // has_repeated_clause_occurrence
    method HasRepeatedClauseOccurrence(v: int) returns (repeated: bool)
      requires 1 <= v < |inst.occ|
      ensures repeated <==> exists i :: 1 <= i < |inst.occ[v]| && inst.occ[v][i - 1].clause == inst.occ[v][i].clause
    {
      repeated := false;
      var i := 1;
      while i < |inst.occ[v]| && !repeated
        invariant 1 <= i
        invariant !repeated ==> forall k :: 1 <= k < i && k < |inst.occ[v]| ==> inst.occ[v][k - 1].clause != inst.occ[v][k].clause
        invariant repeated ==> exists k :: 1 <= k < |inst.occ[v]| && inst.occ[v][k - 1].clause == inst.occ[v][k].clause
      {
        repeated := inst.occ[v][i - 1].clause == inst.occ[v][i].clause;
        i := i + 1;
      }
    }

    // The merge that marks the rows of both variables.
    method MarkShared(first: int, second: int) returns (shared: seq<int>)
      requires InstanceOk(inst) && 1 <= first <= inst.vars && 1 <= second <= inst.vars
      requires satVar == Repeat(0, |inst.rows|)
      modifies this`satVar
      ensures SharedMarks(inst, first, second, satVar, shared)
    {
      var i, j := 0, 0;
      shared := [];
      while i < |inst.occ[first]| && j < |inst.occ[second]|
        invariant Merging(inst, first, second, i, j, satVar, shared)
        decreases |inst.occ[first]| - i + |inst.occ[second]| - j
      {
        i, j, shared := MergeHeads(first, second, i, j, shared);
      }
      MergingEnd(inst, first, second, i, j, satVar, shared);
    }

    method MergeHeads(first: int, second: int, i: int, j: int, shared: seq<int>) returns (i': int, j': int, shared': seq<int>)
      requires Merging(inst, first, second, i, j, satVar, shared) && i < |inst.occ[first]| && j < |inst.occ[second]|
      modifies this`satVar
      ensures Merging(inst, first, second, i', j', satVar, shared') && i' >= i && j' >= j && i' + j' > i + j
    {
      MergingStep(inst, first, second, i, j, satVar, shared);
      var c1, c2 := inst.occ[first][i].clause, inst.occ[second][j].clause;
      i', j', shared' := i, j, shared;
      if c1 < c2 {
        i' := i + 1;
      } else if c2 < c1 {
        j' := j + 1;
      } else {
        shared' := shared + [c1];
        satVar := satVar[c1 := if inst.occ[second][j].sense then 2 else 1];
        i', j' := i + 1, j + 1;
      }
    }

    method ClearMarks(ghost first: int, ghost second: int, shared: seq<int>)
      requires SharedMarks(inst, first, second, satVar, shared)
      modifies this`satVar
      ensures satVar == Repeat(0, |inst.rows|)
    {
      for i := 0 to |shared|
        invariant |satVar| == |inst.rows|
        invariant forall c :: 0 <= c < |satVar| && satVar[c] != 0 ==> c in shared[i..]
      {
        satVar := satVar[shared[i] := 0];
      }
    }

    // accumulate_delayed_score
    method AccumulateDelayedScore(v: int, delta: int, touched: seq<int>) returns (touched': seq<int>)
      requires TouchedOk(neighborFlag, deltaScore, touched) && 0 <= v < |deltaScore|
      modifies this`neighborFlag, this`deltaScore
      ensures TouchedOk(neighborFlag, deltaScore, touched')
      ensures deltaScore == old(deltaScore)[v := old(deltaScore)[v] + delta]
    {
      touched' := touched;
      if delta == 0 {
        return;
      }
      if neighborFlag[v] == 0 {
        neighborFlag := neighborFlag[v := 1];
        UnrepeatedSnoc(touched, v);
        touched' := touched + [v];
        deltaScore := deltaScore[v := delta];
      } else {
        deltaScore := deltaScore[v := deltaScore[v] + delta];
      }
    }

    // update_shared_pair_scores
    method UpdateSharedPairScores(c: nat, first: int, second: int, before: int, middle: int, final: int, touched: seq<int>)
        returns (touched': seq<int>)
      requires InstanceOk(inst) && c < |inst.rows| == |weight| && |soln| == |score| == |deltaScore| == inst.vars + 1
      requires Exact(good) && |good.index| == |score| && TouchedOk(neighborFlag, deltaScore, touched)
      requires (middle == before + 1 || middle == before - 1) && (final == middle + 1 || final == middle - 1)
      modifies this`score, this`good, this`neighborFlag, this`deltaScore
      ensures good == old(good) && TouchedOk(neighborFlag, deltaScore, touched')
      ensures RowDone(inst.rows[c], |inst.rows[c].lits|, weight[c], before, middle, soln, first, old(score), score)
      ensures RowDone(inst.rows[c], |inst.rows[c].lits|, weight[c], middle, final, soln, second, old(deltaScore), deltaScore)
    {
      var r, w := inst.rows[c], weight[c];
      var updateFirst := before == r.degree || middle == r.degree;
      var updateSecond := middle == r.degree || final == r.degree;
      touched' := touched;
      RowDoneStart(r, w, before, middle, soln, first, score);
      RowDoneStart(r, w, middle, final, soln, second, deltaScore);
      if !updateFirst {
        RowIdleDone(r, w, before, middle, soln, first, score);
      }
      if !updateSecond {
        RowIdleDone(r, w, middle, final, soln, second, deltaScore);
      }
      if updateFirst || updateSecond {
        touched' := SharedRow(c, first, second, before, middle, final, touched);
      }
    }

    method SharedRow(c: nat, first: int, second: int, before: int, middle: int, final: int, touched: seq<int>)
        returns (touched': seq<int>)
      requires InstanceOk(inst) && c < |inst.rows| == |weight| && |soln| == |score| == |deltaScore| == inst.vars + 1
      requires Exact(good) && |good.index| == |score| && TouchedOk(neighborFlag, deltaScore, touched)
      requires (middle == before + 1 || middle == before - 1) && (final == middle + 1 || final == middle - 1)
      modifies this`score, this`good, this`neighborFlag, this`deltaScore
      ensures good == old(good) && TouchedOk(neighborFlag, deltaScore, touched')
      ensures var r := inst.rows[c];
        if before == r.degree || middle == r.degree then
          RowDone(r, |r.lits|, weight[c], before, middle, soln, first, old(score), score)
        else score == old(score)
      ensures var r := inst.rows[c];
        if middle == r.degree || final == r.degree then
          RowDone(r, |r.lits|, weight[c], middle, final, soln, second, old(deltaScore), deltaScore)
        else deltaScore == old(deltaScore)
    {
      var r := inst.rows[c];
      touched' := touched;
      for j := 0 to |r.lits|
        invariant good == old(good) && TouchedOk(neighborFlag, deltaScore, touched')
        invariant RowDoneIf(before == r.degree || middle == r.degree, r, j, weight[c], before, middle, soln, first, old(score), score)
        invariant RowDoneIf(middle == r.degree || final == r.degree, r, j, weight[c], middle, final, soln, second, old(deltaScore), deltaScore)
      {
        ghost var mid, midDelta := score, deltaScore;
        var v: int := Abs(r.lits[j]);
        if (before == r.degree || middle == r.degree) && v != first && Hits(r.lits[j], soln, before, middle, r.degree) {
          UpdateScore(v, Delta(before, middle, r.degree, weight[c]), NoStackUpdate);
        }
        if (middle == r.degree || final == r.degree) && v != second && Hits(r.lits[j], soln, middle, final, r.degree) {
          touched' := AccumulateDelayedScore(v, Delta(middle, final, r.degree, weight[c]), touched');
        }
        RowDoneIfStep(r, j, weight[c], before, middle, soln, first, old(score), mid, score);
        RowDoneIfStep(r, j, weight[c], middle, final, soln, second, old(deltaScore), midDelta, deltaScore);
      }
    }

    // One row of the fused walk.
    method FusedOccurrence(first: int, second: int, i: nat, touched: seq<int>, ghost kept: int, ghost t0: Tally, ghost later: seq<int>)
        returns (touched': seq<int>, ghost later': seq<int>)
      requires FusedState(inst, Now(), satVar, neighborFlag, deltaScore, first, second, i, kept, t0, later, touched)
      requires i < |inst.occ[first]| && forall c :: 0 <= c < |satVar| ==> satVar[c] == PairMark(inst.rows[c], first, second)
      modifies this`score, this`good, this`tally, this`neighborFlag, this`deltaScore
      ensures FusedState(inst, Now(), satVar, neighborFlag, deltaScore, first, second, i + 1, kept, t0, later', touched')
      ensures good == old(good)
    {
      var o := inst.occ[first][i];
      if satVar[o.clause] == 0 {
        touched' := touched;
        UpdateOneFlipOccurrence(first, o, false);
        PatchOccurrenceDone(inst, old(Now()), first, o, false);
        FusedOwnRow(inst, old(Now()), Now(), satVar, neighborFlag, deltaScore, first, second, i, kept, t0, later, touched);
        later' := later[o.clause := tally.counts[o.clause]];
      } else {
        touched', later' := FusedShared(first, second, i, touched, kept, t0, later);
      }
    }

    method FusedShared(first: int, second: int, i: nat, touched: seq<int>, ghost kept: int, ghost t0: Tally, ghost later: seq<int>)
        returns (touched': seq<int>, ghost later': seq<int>)
      requires FusedState(inst, Now(), satVar, neighborFlag, deltaScore, first, second, i, kept, t0, later, touched)
      requires i < |inst.occ[first]| && satVar[inst.occ[first][i].clause] != 0
      requires forall c :: 0 <= c < |satVar| ==> satVar[c] == PairMark(inst.rows[c], first, second)
      modifies this`score, this`good, this`tally, this`neighborFlag, this`deltaScore
      ensures FusedState(inst, Now(), satVar, neighborFlag, deltaScore, first, second, i + 1, kept, t0, later', touched')
      ensures good == old(good)
    {
      var o := inst.occ[first][i];
      var c := o.clause;
      var before := tally.counts[c];
      var middle := before + (if soln[first] == o.sense then 1 else -1);
      var final := middle + (if !soln[second] == (satVar[c] == 2) then 1 else -1);
      ghost var s := Now();
      assert final == middle + Toggle(LitOf(inst.rows[c].lits, second), soln[second]);
      touched' := UpdateSharedPairScores(c, first, second, before, middle, final, touched);
      UpdateCountForOccurrence(first, o);
      assert tally.counts[c] == middle;
      FusedSharedRow(inst, s, Now(), satVar, old(neighborFlag), old(deltaScore), neighborFlag, deltaScore,
                     first, second, i, kept, t0, later, touched, touched', final);
      later' := later[c := final];
    }

    method FusedWalk(first: int, second: int, ghost kept: int) returns (touched: seq<int>, ghost later: seq<int>)
      requires 1 <= first <= inst.vars && |inst.occ| == inst.vars + 1
      requires FusedState(inst, Now(), satVar, neighborFlag, deltaScore, first, second, 0, kept, tally, tally.counts, [])
      requires forall c :: 0 <= c < |satVar| ==> satVar[c] == PairMark(inst.rows[c], first, second)
      modifies this`score, this`good, this`tally, this`neighborFlag, this`deltaScore
      ensures FusedState(inst, Now(), satVar, neighborFlag, deltaScore, first, second, |inst.occ[first]|, kept, old(tally), later, touched)
      ensures good == old(good)
    {
      touched, later := [], tally.counts;
      for i := 0 to |inst.occ[first]|
        invariant FusedState(inst, Now(), satVar, neighborFlag, deltaScore, first, second, i, kept, old(tally), later, touched)
        invariant good == old(good)
      {
        touched, later := FusedOccurrence(first, second, i, touched, kept, old(tally), later);
      }
    }

    // The first half of the fused swap ends in the state after flip(first).
    method FusedFirst(first: int, second: int) returns (touched: seq<int>, ghost later: seq<int>)
      requires StateOk(inst, Now()) && NeighborsOk(inst, neighbors)
      requires 1 <= first <= inst.vars && 1 <= second <= inst.vars
      requires |satVar| == |inst.rows| && forall c :: 0 <= c < |satVar| ==> satVar[c] == PairMark(inst.rows[c], first, second)
      requires neighborFlag == Repeat(0, inst.vars + 1) && deltaScore == Repeat(0, inst.vars + 1)
      modifies this`soln, this`score, this`good, this`tally, this`neighborFlag, this`deltaScore
      ensures IsFlipped(inst, neighbors, old(Now()), first, Now())
      ensures HalfWay(inst, Now(), satVar, neighborFlag, deltaScore, second, later, touched)
    {
      ghost var s := Now();
      FusedStart(inst, s, satVar, neighborFlag, deltaScore, first, second);
      var original := score[first];
      soln := soln[first := !soln[first]];
      touched, later := FusedWalk(first, second, original);
      FusedEnd(inst, Now(), satVar, neighborFlag, deltaScore, first, second, original, s.tally, later, touched);
      FinishFlip(first, original, s);
    }

    // The delayed deltas are applied and their scratch space is cleared.
    method ApplyDelayed(touched: seq<int>)
      requires TouchedOk(neighborFlag, deltaScore, touched) && |score| == |deltaScore| == |good.index| && Exact(good)
      modifies this`score, this`good, this`neighborFlag, this`deltaScore
      ensures good == old(good)
      ensures |score| == |old(score)| && forall x :: 0 <= x < |score| ==> score[x] == old(score)[x] + old(deltaScore)[x]
      ensures neighborFlag == Repeat(0, |score|) && deltaScore == Repeat(0, |score|)
    {
      for i := 0 to |touched|
        invariant good == old(good) && |score| == |old(score)| == |neighborFlag| == |deltaScore|
        invariant forall x :: 0 <= x < |score| ==>
          if x in touched[..i] then score[x] == old(score)[x] + old(deltaScore)[x] && neighborFlag[x] == 0 && deltaScore[x] == 0
          else score[x] == old(score)[x] && neighborFlag[x] == old(neighborFlag)[x] && deltaScore[x] == old(deltaScore)[x]
      {
        var v := touched[i];
        UnrepeatedAt(touched, i);
        assert touched[..i + 1] == touched[..i] + [v];
        UpdateScore(v, deltaScore[v], NoStackUpdate);
        deltaScore := deltaScore[v := 0];
        neighborFlag := neighborFlag[v := 0];
      }
      assert touched[..|touched|] == touched;
    }

    // One row of the second walk.
    method SecondOccurrence(second: int, i: nat, ghost kept: int, ghost t0: Tally, ghost later: seq<int>) returns (ghost later': seq<int>)
      requires CatchingState(inst, Now(), satVar, second, i, kept, t0, later) && i < |inst.occ[second]|
      modifies this`score, this`good, this`tally
      ensures CatchingState(inst, Now(), satVar, second, i + 1, kept, t0, later') && good == old(good)
    {
      var o := inst.occ[second][i];
      if satVar[o.clause] == 0 {
        UpdateOneFlipOccurrence(second, o, false);
        PatchOccurrenceDone(inst, old(Now()), second, o, false);
      } else {
        UpdateCountForOccurrence(second, o);
      }
      CatchingRow(inst, old(Now()), Now(), satVar, second, i, kept, t0, later);
      later' := later[o.clause := tally.counts[o.clause]];
    }

    method SecondWalk(second: int, ghost kept: int, ghost later0: seq<int>)
      requires CatchingState(inst, Now(), satVar, second, 0, kept, tally, later0)
      modifies this`score, this`good, this`tally
      ensures Midway(inst, Now(), second, kept, false) && good == old(good)
      ensures tally == TallyUpTo(inst.rows, old(tally), inst.occ[second], soln[second], |inst.occ[second]|)
    {
      ghost var later := later0;
      for i := 0 to |inst.occ[second]|
        invariant CatchingState(inst, Now(), satVar, second, i, kept, old(tally), later) && good == old(good)
      {
        later := SecondOccurrence(second, i, kept, old(tally), later);
      }
      CatchingEnd(inst, Now(), satVar, second, kept, old(tally), later);
    }

    // The second half ends in the state after flip(second).
    method FusedSecond(second: int, touched: seq<int>, ghost later: seq<int>)
      requires StateOk(inst, Now()) && NeighborsOk(inst, neighbors) && 1 <= second <= inst.vars
      requires HalfWay(inst, Now(), satVar, neighborFlag, deltaScore, second, later, touched)
      modifies this`soln, this`score, this`good, this`tally, this`neighborFlag, this`deltaScore
      ensures IsFlipped(inst, neighbors, old(Now()), second, Now())
      ensures neighborFlag == Repeat(0, inst.vars + 1) && deltaScore == Repeat(0, inst.vars + 1)
    {
      ghost var s := Now();
      var original := score[second];
      FusedCatchUp(second, touched, later);
      FinishFlip(second, original, s);
    }

    // All of it but the score of the second variable and the good stack.
    method FusedCatchUp(second: int, touched: seq<int>, ghost later: seq<int>)
      requires StateOk(inst, Now()) && 1 <= second <= inst.vars
      requires HalfWay(inst, Now(), satVar, neighborFlag, deltaScore, second, later, touched)
      modifies this`soln, this`score, this`good, this`tally, this`neighborFlag, this`deltaScore
      ensures FlipCounted(inst, old(Now()), second, false, Now()) && good == old(good)
      ensures neighborFlag == Repeat(0, inst.vars + 1) && deltaScore == Repeat(0, inst.vars + 1)
    {
      ghost var s, flags, delta := Now(), neighborFlag, deltaScore;
      soln := soln[second := !soln[second]];
      ApplyDelayed(touched);
      CatchingStart(inst, s, satVar, flags, delta, second, later, touched, score);
      SecondWalk(second, s.score[second], later);
    }

    // flip_pair_atomic: exactly flip(first); flip(second), scratch space and
    // the order of all stacks included.
    method FlipPairAtomic(first: int, second: int)
      requires Valid()
      modifies this`soln, this`score, this`good, this`tally, this`neighborFlag, this`deltaScore, this`satVar
      ensures Valid()
      ensures if 1 <= first <= inst.vars && 1 <= second <= inst.vars && first != second
        then BothFlipped(inst, neighbors, materialized, old(Now()), first, second, Now()) else Now() == old(Now())
    {
      if first <= 0 || second <= 0 || first > inst.vars || second > inst.vars || first == second {
        return;
      }
      ghost var s := Now();
      FlipDistinctPair(first, second);
      BothFlippedOk(inst, neighbors, materialized, s, first, second, Now());
    }

    method FlipDistinctPair(first: int, second: int)
      requires StateOk(inst, Now()) && ModeOk(inst, neighbors, materialized) && Idle()
      requires 1 <= first <= inst.vars && 1 <= second <= inst.vars && first != second
      modifies this`soln, this`score, this`good, this`tally, this`neighborFlag, this`deltaScore, this`satVar
      ensures BothFlipped(inst, neighbors, materialized, old(Now()), first, second, Now()) && Idle()
    {
      assert 1 <= first < |inst.occ| && 1 <= second < |inst.occ|;
      var repeated1 := HasRepeatedClauseOccurrence(first);
      var repeated2 := HasRepeatedClauseOccurrence(second);
      if !materialized || repeated1 || repeated2 {
        FlipBoth(first, second);
      } else {
        FlipMaterializedPair(first, second);
      }
    }

    method FlipMaterializedPair(first: int, second: int)
      requires StateOk(inst, Now()) && NeighborsOk(inst, neighbors) && materialized && Idle()
      requires 1 <= first <= inst.vars && 1 <= second <= inst.vars && first != second
      modifies this`soln, this`score, this`good, this`tally, this`neighborFlag, this`deltaScore, this`satVar
      ensures BothFlipped(inst, neighbors, materialized, old(Now()), first, second, Now()) && Idle()
    {
      var shared := MarkShared(first, second);
      if |shared| == 0 {
        FlipUnshared(first, second, shared);
      } else {
        FuseShared(first, second, shared);
      }
    }

    // Without shared rows two flips will do.
    method FlipUnshared(first: int, second: int, shared: seq<int>)
      requires StateOk(inst, Now()) && ModeOk(inst, neighbors, materialized) && 1 <= first <= inst.vars && 1 <= second <= inst.vars
      requires SharedMarks(inst, first, second, satVar, shared) && |shared| == 0 && ScratchClear()
      modifies this`soln, this`tally, this`score, this`good
      ensures BothFlipped(inst, neighbors, materialized, old(Now()), first, second, Now()) && Idle()
    {
      NothingMarked(inst, first, second, satVar, shared);
      FlipBoth(first, second);
    }

    // The scratch tables of the fused swap are zero, the marks apart.
    ghost predicate ScratchClear()
      reads this
    {
      true == (neighborFlag == Repeat(0, inst.vars + 1) && deltaScore == Repeat(0, inst.vars + 1))
    }

    ghost predicate Idle()
      reads this
    {
      true == (ScratchClear() && satVar == Repeat(0, |inst.rows|))
    }

    // The fused walk, and the marks cleared after it.
    method FuseShared(first: int, second: int, shared: seq<int>)
      requires StateOk(inst, Now()) && NeighborsOk(inst, neighbors) && materialized && ScratchClear()
      requires 1 <= first <= inst.vars && 1 <= second <= inst.vars && first != second
      requires SharedMarks(inst, first, second, satVar, shared)
      modifies this`soln, this`score, this`good, this`tally, this`neighborFlag, this`deltaScore, this`satVar
      ensures BothFlipped(inst, neighbors, materialized, old(Now()), first, second, Now()) && Idle()
    {
      FusedPair(first, second, shared);
      ClearMarks(first, second, shared);
    }

    // The two halves of the fused swap.
    method FusedPair(first: int, second: int, ghost shared: seq<int>)
      requires StateOk(inst, Now()) && NeighborsOk(inst, neighbors)
      requires 1 <= first <= inst.vars && 1 <= second <= inst.vars && first != second
      requires SharedMarks(inst, first, second, satVar, shared)
      requires neighborFlag == Repeat(0, inst.vars + 1) && deltaScore == Repeat(0, inst.vars + 1)
      modifies this`soln, this`score, this`good, this`tally, this`neighborFlag, this`deltaScore
      ensures BothFlipped(inst, neighbors, true, old(Now()), first, second, Now())
      ensures neighborFlag == Repeat(0, inst.vars + 1) && deltaScore == Repeat(0, inst.vars + 1)
    {
      ghost var s := Now();
      var touched;
      ghost var later;
      touched, later := FusedFirst(first, second);
      ghost var m := Now();
      FlippedIsStep(inst, neighbors, s, first, m);
      FusedSecond(second, touched, later);
      FlippedIsStep(inst, neighbors, m, second, Now());
      FlippedTwice(inst, neighbors, true, s, first, m, second, Now());
    }

    method BumpRow(c: nat, touched: seq<int>) returns (touched': seq<int>)
      requires c < |inst.rows| && VarsIn(inst.rows[c].lits, |soln| - 1)
      requires BumpSized(Bump(weight, deltaScore, weightTouched, touched), |weight|, |soln|)
      modifies this`weightTouched, this`deltaScore
      ensures Bump(weight, deltaScore, weightTouched, touched') ==
        BumpRowTo(inst.rows[c], |inst.rows[c].lits|, soln, Bump(weight, old(deltaScore), old(weightTouched), touched))
    {
      var r := inst.rows[c];
      touched' := touched;
      ghost var b := Bump(weight, deltaScore, weightTouched, touched);
      for j := 0 to |r.lits|
        invariant Bump(weight, deltaScore, weightTouched, touched') == BumpRowTo(r, j, soln, b)
      {
        var v: int := Abs(r.lits[j]);
        if !weightTouched[v] {
          touched' := touched' + [v];
        }
        weightTouched := weightTouched[v := true];
        var litTrue := (r.lits[j] > 0) == soln[v];
        deltaScore := deltaScore[v := deltaScore[v] + (if litTrue then -1 else 1)];
      }
    }

    // The loop over the violated rows: one more unit of weight for each.
    method BumpWeights() returns (touched: seq<int>)
      requires Running(inst, Now()) && deltaScore == Repeat(0, inst.vars + 1) && weightTouched == NoneDeleted(inst.vars + 1)
      modifies this`weight, this`weightTouched, this`deltaScore
      ensures Running(inst, old(Now()))
      ensures Bump(weight, deltaScore, weightTouched, touched) == BumpRowsTo(inst, old(Now()), |tally.hard.items|)
    {
      ghost var s := Now();
      touched := [];
      for i := 0 to |tally.hard.items|
        invariant Bump(weight, deltaScore, weightTouched, touched) == BumpRowsTo(inst, s, i)
      {
        var c := tally.hard.items[i];
        assert Has(tally.hard, c);
        touched := BumpRow(c, touched);
        weight := weight[c := weight[c] + 1];
      }
    }

    // The loop over the touched variables.
    method ApplyBumps(touched: seq<int>)
      requires BumpTouched(weightTouched, deltaScore, touched) && |deltaScore| == |score| && Exact(good) && |good.index| == |score|
      modifies this`weightTouched, this`deltaScore, this`score, this`good
      ensures BumpSized(Bump(weight, old(deltaScore), old(weightTouched), touched), |weight|, |old(score)|)
      ensures Patch(score, good) ==
        ApplyTo(Bump(weight, old(deltaScore), old(weightTouched), touched), |touched|, Patch(old(score), old(good)))
      ensures deltaScore == Repeat(0, |score|) && weightTouched == NoneDeleted(|score|)
    {
      ghost var b, p := Bump(weight, deltaScore, weightTouched, touched), Patch(score, good);
      for i := 0 to |touched|
        invariant Applying(b, i, p, Patch(score, good), deltaScore, weightTouched)
      {
        ApplyBump(i, touched[i], b, p);
      }
      ClearedEnd(b, deltaScore, weightTouched);
    }

    method ApplyBump(ghost i: nat, v: int, ghost b: Bump, ghost p: Patch)
      requires Applying(b, i, p, Patch(score, good), deltaScore, weightTouched) && i < |b.touched| && v == b.touched[i]
      modifies this`weightTouched, this`deltaScore, this`score, this`good
      ensures Applying(b, i + 1, p, Patch(score, good), deltaScore, weightTouched)
    {
      ApplyingNext(b, i, p, Patch(score, good), deltaScore, weightTouched);
      var delta := deltaScore[v];
      deltaScore := deltaScore[v := 0];
      weightTouched := weightTouched[v := false];
      if delta != 0 {
        UpdateScore(v, delta, if delta > 0 then AfterScoreIncrease else AfterScoreDecrease);
      }
    }

    // increase_weights, as called by update_clause_weights
    method IncreaseWeights()
      requires Valid()
      modifies this`weight, this`weightTouched, this`deltaScore, this`score, this`good
      ensures Valid() && Reweighed(inst, old(Now()), Now())
    {
      ghost var s := Now();
      StateRuns(inst, s);
      ReweighFacts(inst, s);
      RaiseWeights();
    }

    method RaiseWeights()
      requires Running(inst, Now()) && deltaScore == Repeat(0, inst.vars + 1) && weightTouched == NoneDeleted(inst.vars + 1)
      modifies this`weight, this`weightTouched, this`deltaScore, this`score, this`good
      ensures Reweighed(inst, old(Now()), Now())
      ensures deltaScore == Repeat(0, inst.vars + 1) && weightTouched == NoneDeleted(inst.vars + 1)
    {
      ghost var s := Now();
      var touched := BumpWeights();
      BumpTouchedOnly(inst, s, Bump(weight, deltaScore, weightTouched, touched));
      ApplyBumps(touched);
    }

    // Sizes only: what local search needs before a try is set up.
    ghost predicate Sized()
      reads this
    {
      && InstanceOk(inst) && |soln| == |timeStamp| == inst.vars + 1
      && |tally.counts| == |tally.hard.index| == |tally.card.index| == |inst.rows|
      && |good.index| == inst.vars + 1
      && Scratch() && (materialized ==> NeighborsOk(inst, neighbors))
      && forall c :: 0 <= c < |inst.rows| && inst.rows[c].degree <= 1 ==> tally.card.index[c] == -1
    }

    method CountTrue(c: nat) returns (count: nat)
      requires c < |inst.rows| && VarsIn(inst.rows[c].lits, |soln| - 1)
      ensures count == Count(inst.rows[c].lits, Current(soln))
    {
      var lits := inst.rows[c].lits;
      count := 0;
      for j := 0 to |lits|
        invariant count == Count(lits[..j], Current(soln))
      {
        assert lits[..j + 1][..j] == lits[..j];
        if (lits[j] > 0) == soln[Abs(lits[j])] {
          count := count + 1;
        }
      }
      assert lits[..|lits|] == lits;
    }

    // The first loop of init_local_search.
    method InitTally()
      requires Sized()
      modifies this`tally
      ensures StacksMatch(inst.rows, tally) && TrueCounts(inst.rows, tally.counts, soln)
    {
      tally := Tally(tally.counts, Stack([], tally.hard.index), Stack([], tally.card.index), 0);
      for c := 0 to |inst.rows|
        invariant CountedUpTo(inst.rows, tally, soln, c)
      {
        var count := CountTrue(c);
        CountedNext(inst.rows, tally, soln, c, count);
        tally := CountedRow(inst.rows, tally, c, count);
      }
      CountedEnd(inst.rows, tally, soln);
    }

    // init_score_multi
    method InitScoreMulti()
      requires InstanceOk(inst) && |soln| == inst.vars + 1 && |weight| == |tally.counts| == |inst.rows|
      modifies this`score
      ensures score == ScoresFor(inst, weight, tally.counts, soln)
    {
      score := Repeat(0, inst.vars + 1);
      for v := 1 to inst.vars + 1
        invariant |score| == inst.vars + 1 && score[0] == 0
        invariant forall x :: 1 <= x < v ==> score[x] == ScoreOf(inst.rows, weight, tally.counts, x, soln[x])
      {
        var s := InitScore(v);
        score := score[v := s];
      }
    }

    method InitScore(v: int) returns (s: int)
      requires InstanceOk(inst) && 1 <= v <= inst.vars && |soln| == inst.vars + 1 && |weight| == |tally.counts| == |inst.rows|
      ensures s == ScoreOf(inst.rows, weight, tally.counts, v, soln[v])
    {
      s := 0;
      var occs := inst.occ[v];
      for i := 0 to |occs|
        invariant 0 <= After(occs, i) <= |inst.rows|
        invariant s == ScoreUpTo(inst.rows, weight, tally.counts, v, soln[v], After(occs, i))
      {
        ScoreNextOccurrence(inst.rows, weight, tally.counts, v, soln[v], occs, i);
        assert OccurrenceOk(inst.rows, v, occs[i]);
        s := s + InitShare(v, occs[i]);
      }
      ScoreAllOccurrences(inst.rows, weight, tally.counts, v, soln[v], occs);
    }

    // The branches of init_score_multi for one occurrence: its share.
    function InitShare(v: int, o: Occurrence): (gain: int)
      reads this
      requires InstanceOk(inst) && 1 <= v < |soln| && OccurrenceOk(inst.rows, v, o)
      requires |weight| == |tally.counts| == |inst.rows|
      ensures gain == Share(inst.rows[o.clause], weight[o.clause], tally.counts[o.clause], v, soln[v])
    {
      var w, k, d := weight[o.clause], tally.counts[o.clause], inst.rows[o.clause].degree;
      if k < d then
        if o.sense != soln[v] then MakeContribution(w, d - k) else -MakeContribution(w, d - k + 1)
      else if o.sense == soln[v] then -MakeContribution(w, d - k + 1)
      else 0
    }

    method InitGood()
      requires |score| == |good.index| == inst.vars + 1 && score[0] == 0
      modifies this`good
      ensures GoodOk(good, score) && forall x :: !Absent(good, score, x)
    {
      good := Stack([], good.index[0 := -1]);
      for v := 1 to inst.vars + 1
        invariant Backed(good) && |good.index| == |score|
        invariant forall x :: Has(good, x) <==> 1 <= x < v && score[x] > 0
        invariant forall x :: 0 <= x < v && good.index[x] != -1 ==> Has(good, x)
      {
        if score[v] > 0 {
          PushBacked(good, v);
          good := Push(good, v);
        } else {
          ClearedStack(good, v, Stack(good.items, good.index[v := -1]));
          good := Stack(good.items, good.index[v := -1]);
        }
      }
    }

    // init_local_search: from any assignment to a state in which everything
    // agrees, and every variable with positive score is on the stack.
    method InitLocalSearch()
      requires Sized()
      modifies this`weight, this`tally, this`score, this`good
      ensures Valid() && forall x :: !Absent(good, score, x)
      ensures weight == Repeat(1, |inst.rows|)
    {
      weight := Repeat(1, |inst.rows|);
      InitTally();
      InitScoreMulti();
      InitGood();
    }

    // verify_sol
    method VerifySol() returns (code: int)
      requires InstanceOk(inst) && |soln| == inst.vars + 1
      ensures code == 10 || code == 0
      ensures code == 10 <==> RowsSat(inst.rows, Current(soln))
    {
      for c := 0 to |inst.rows|
        invariant forall d :: 0 <= d < c ==> RowSat(inst.rows[d], Current(soln))
      {
        var count := CountTrue(c);
        if count < inst.rows[c].degree {
          return 0;
        }
      }
      code := 10;
    }

    // The greedy branch of pick_var: best score, oldest first.
    method PickBestGood() returns (best: int)
      requires GoodOk(good, score) && |timeStamp| == |score| && |good.items| > 0
      ensures Has(good, best)
      ensures forall u :: Has(good, u) ==> !Better(score, timeStamp, u, best)
    {
      best := good.items[0];
      for i := 1 to |good.items|
        invariant Has(good, best)
        invariant forall k :: 0 <= k < i ==> !Better(score, timeStamp, good.items[k], best)
      {
        var v := good.items[i];
        if score[v] > score[best] {
          best := v;
        } else if score[v] == score[best] && timeStamp[v] < timeStamp[best] {
          best := v;
        }
      }
    }

    // The sampling branch: the best of some members.
    method PickSampledGood(samples: int) returns (best: int)
      requires GoodOk(good, score) && |timeStamp| == |score| && |good.items| > 0
      ensures Has(good, best)
    {
      var r: nat := *;
      best := good.items[r % |good.items|];
      var i := 1;
      while i < samples
        invariant Has(good, best)
      {
        r := *;
        var v := good.items[r % |good.items|];
        if Better(score, timeStamp, v, best) {
          best := v;
        }
        i := i + 1;
      }
    }

    // select_var_after_update_weight: a false literal of a violated row, at
    // random or the best one, or the best of all when none is false.
    method SelectVarAfterUpdateWeight(walk: bool) returns (v: int, ghost c: int)
      requires StateOk(inst, Now()) && |timeStamp| == |score| && |tally.hard.items| > 0
      ensures 1 <= v <= inst.vars && 0 <= c < |inst.rows| && tally.counts[c] < inst.rows[c].degree
      ensures Pickable(inst.rows[c], soln, v)
      ensures !walk || Candidate(inst.rows[c], soln, v, true) ==>
        forall u :: Pickable(inst.rows[c], soln, u) ==> !Better(score, timeStamp, u, v)
    {
      var r: nat := *;
      var row := tally.hard.items[r % |tally.hard.items|];
      c := row;
      assert Has(tally.hard, c);
      var lits := inst.rows[row].lits;
      var unsat: seq<int> := [];
      for i := 0 to |lits|
        invariant FalseAmong(inst.rows[row], soln, i, unsat)
      {
        FalseAmongStep(inst.rows[row], soln, i, unsat);
        if (lits[i] > 0) != soln[Abs(lits[i])] {
          unsat := unsat + [Abs(lits[i])];
        }
      }
      PickableMembers(inst.rows[row], soln, unsat);
      if |unsat| == 0 {
        var all: seq<int> := seq(|lits|, i requires 0 <= i < |lits| => Abs(lits[i]));
        forall u | Mentions(lits, u)
          ensures u in all
        {
          var k :| 0 <= k < |lits| && Abs(lits[k]) == u;
          assert all[k] == u;
        }
        v := BestOf(all);
      } else if walk {
        r := *;
        v := unsat[r % |unsat|];
      } else {
        v := BestOf(unsat);
      }
    }

    // The best of some variables; ties may go either way.
    method BestOf(candidates: seq<int>) returns (best: int)
      requires |candidates| > 0 && |timeStamp| == |score|
      requires forall i :: 0 <= i < |candidates| ==> 0 <= candidates[i] < |score|
      ensures best in candidates
      ensures forall u :: u in candidates && 0 <= u < |score| ==> !Better(score, timeStamp, u, best)
    {
      best := candidates[0];
      for i := 1 to |candidates|
        invariant best in candidates
        invariant forall k :: 0 <= k < i ==> !Better(score, timeStamp, candidates[k], best)
      {
        var v := candidates[i];
        var tie: bool := *;
        if Better(score, timeStamp, v, best) || (tie && !Better(score, timeStamp, best, v)) {
          best := v;
        }
      }
    }

    // pick_var. A good variable if there is one, the best of them in the
    // greedy branch; else the weights grow and a violated row is repaired.
    method PickVar(hdCountThreshold: int, walk: bool, rowWalk: bool) returns (v: int, ghost c: int)
      requires Valid() && tally.hardUnsatNb > 0
      modifies this`weight, this`weightTouched, this`deltaScore, this`score, this`good
      ensures Valid() && 1 <= v <= inst.vars && Running(inst, old(Now()))
      ensures |old(good).items| > 0 ==> Now() == old(Now()) && Has(good, v) && score[v] > 0
      ensures 0 < |old(good).items| < hdCountThreshold && !walk ==> forall u :: Has(good, u) ==> !Better(score, timeStamp, u, v)
      ensures |old(good).items| == 0 ==> Reweighed(inst, old(Now()), Now())
      ensures |old(good).items| == 0 ==> 0 <= c < |inst.rows| && tally.counts[c] < inst.rows[c].degree && Pickable(inst.rows[c], soln, v)
      ensures |old(good).items| == 0 && (!rowWalk || Candidate(inst.rows[c], soln, v, true)) ==>
        forall u :: Pickable(inst.rows[c], soln, u) ==> !Better(score, timeStamp, u, v)
    {
      StateRuns(inst, Now());
      c := 0;
      if |good.items| > 0 {
        if walk {
          var r: nat := *;
          v := good.items[r % |good.items|];
        } else if |good.items| < hdCountThreshold {
          v := PickBestGood();
        } else {
          v := PickSampledGood(hdCountThreshold);
        }
        assert Has(good, v);
        assert score[0] == 0;
      } else {
        IncreaseWeights();
        v, c := SelectVarAfterUpdateWeight(rowWalk);
      }
    }

    // The lambda `consider` of swap_vars.
    method Consider(r: Row, l: int, bestTrue: int, bestFalse: int) returns (bestTrue': int, bestFalse': int)
      requires |soln| == |score| == |timeStamp| && 1 <= Abs(l) < |soln| && LitOf(r.lits, Abs(l)) == l
      requires bestTrue == 0 || Candidate(r, soln, bestTrue, true)
      requires bestFalse == 0 || Candidate(r, soln, bestFalse, false)
      ensures bestTrue' == 0 || Candidate(r, soln, bestTrue', true)
      ensures bestFalse' == 0 || Candidate(r, soln, bestFalse', false)
      ensures if (l > 0) == soln[Abs(l)] then bestFalse' == bestFalse && Improved(score, timeStamp, bestTrue, Abs(l), bestTrue')
              else bestTrue' == bestTrue && Improved(score, timeStamp, bestFalse, Abs(l), bestFalse')
    {
      bestTrue', bestFalse' := bestTrue, bestFalse;
      var v: int := Abs(l);
      var tie: bool := *;
      if (l > 0) == soln[v] {
        if bestTrue == 0 || Better(score, timeStamp, v, bestTrue) || (tie && !Better(score, timeStamp, bestTrue, v)) {
          bestTrue' := v;
        }
      } else {
        if bestFalse == 0 || Better(score, timeStamp, v, bestFalse) || (tie && !Better(score, timeStamp, bestFalse, v)) {
          bestFalse' := v;
        }
      }
    }

    ghost function Snap(): Snapshot
      reads this
    {
      Snapshot(Now(), timeStamp)
    }

    ghost function Board(): Game
      reads this
    {
      Game(inst, neighbors, materialized)
    }

    // The probes of swap_vars: the best true and the best false literal.
    method ProbeRow(c: nat, cap: int) returns (bestTrue: int, bestFalse: int, ghost first: int, ghost step: int)
      requires StateOk(inst, Now()) && c < |inst.rows| && |timeStamp| == inst.vars + 1
      ensures var n := |inst.rows[c].lits|;
        && n >= 1 && 0 <= first < n && (step == 1 || (n > 1 && step == n - 1))
        && Probed(inst.rows[c], Snap(), first, step, SampleCount(n, cap), true, bestTrue)
        && Probed(inst.rows[c], Snap(), first, step, SampleCount(n, cap), false, bestFalse)
    {
      var r := inst.rows[c];
      var n := |r.lits|;
      var probes := SampleCount(n, cap);
      var random: nat := *;
      var start := random % n;
      var stride := 1;
      var backward: bool := *;
      if n > 1 && backward {
        stride := n - 1;
      }
      first, step := start, stride;
      bestTrue, bestFalse := 0, 0;
      for i := 0 to if probes > 0 then probes else 0
        invariant Probed(r, Snap(), start, stride, i, true, bestTrue) && Probed(r, Snap(), start, stride, i, false, bestFalse)
      {
        bestTrue, bestFalse := ProbeOne(c, start, stride, i, bestTrue, bestFalse);
      }
    }

    method ProbeOne(c: nat, start: int, stride: int, i: nat, bestTrue: int, bestFalse: int) returns (bestTrue': int, bestFalse': int)
      requires StateOk(inst, Now()) && c < |inst.rows| && |timeStamp| == inst.vars + 1
      requires Probed(inst.rows[c], Snap(), start, stride, i, true, bestTrue)
      requires Probed(inst.rows[c], Snap(), start, stride, i, false, bestFalse)
      ensures Probed(inst.rows[c], Snap(), start, stride, i + 1, true, bestTrue')
      ensures Probed(inst.rows[c], Snap(), start, stride, i + 1, false, bestFalse')
    {
      var r := inst.rows[c];
      var probe := Probe(start, stride, i, |r.lits|);
      LitOfAt(r.lits, probe);
      bestTrue', bestFalse' := Consider(r, r.lits[probe], bestTrue, bestFalse);
      ProbedMore(r, Snap(), start, stride, i, true, bestTrue, bestTrue');
      ProbedMore(r, Snap(), start, stride, i, false, bestFalse, bestFalse');
    }

    method SwapIn(c: nat, bestTrue: int, bestFalse: int, step: int)
      requires Valid() && c < |inst.rows| && Has(tally.card, c)
      requires Candidate(inst.rows[c], soln, bestTrue, true) && Candidate(inst.rows[c], soln, bestFalse, false)
      modifies this`soln, this`score, this`good, this`tally, this`neighborFlag, this`deltaScore, this`satVar, this`timeStamp
      ensures Valid() && SwappedIn(inst, neighbors, materialized, old(Now()), Now(), c, bestTrue, bestFalse)
      ensures PairMade(Board(), old(Snap()), bestTrue, bestFalse, step, Snap())
    {
      ghost var s := Now();
      CandidatesApart(inst, s, bestTrue, bestFalse, c);
      FlipPairAtomic(bestTrue, bestFalse);
      SwapDone(inst, neighbors, materialized, s, bestTrue, bestFalse, c, Now());
      timeStamp := timeStamp[bestTrue := step][bestFalse := step];
    }

    // A random row of the stack, and the best probed literals of both kinds.
    method PickSwap(cap: int) returns (row: int, bestTrue: int, bestFalse: int, ghost turn: Turn)
      requires Valid() && |tally.card.items| > 0
      ensures turn.SwapTurn? && turn.c == row && turn.first == bestTrue && turn.second == bestFalse
      ensures 0 <= row < |inst.rows| && Has(tally.card, row) && ProbedSwap(Board(), cap, Snap(), turn)
    {
      var r: nat := *;
      row := tally.card.items[r % |tally.card.items|];
      assert Has(tally.card, row);
      ghost var start, stride;
      bestTrue, bestFalse, start, stride := ProbeRow(row, cap);
      turn := SwapTurn(row, start, stride, bestTrue, bestFalse);
    }

    // swap_vars: a row of the stack of satisfied cardinality rows exchanges a
    // true and a false literal, and stays satisfied and on the stack. Nothing
    // changes only if there is no such row, or if all probed literals are true
    // or all are false.
    method SwapVars(cap: int, step: int) returns (ghost swapped: bool, ghost turn: Turn)
      requires Valid()
      modifies this`soln, this`score, this`good, this`tally, this`neighborFlag, this`deltaScore, this`satVar, this`timeStamp
      ensures Valid() && turn.SwapTurn?
      ensures |old(tally).card.items| > 0 ==> old(ProbedSwap(Board(), cap, Snap(), turn))
      ensures swapped <==> |old(tally).card.items| > 0 && turn.first != 0 && turn.second != 0
      ensures swapped ==> SwappedIn(inst, neighbors, materialized, old(Now()), Now(), turn.c, turn.first, turn.second)
      ensures if swapped then PairMade(Board(), old(Snap()), turn.first, turn.second, step, Snap()) else Snap() == old(Snap())
    {
      swapped, turn := false, SwapTurn(0, 0, 0, 0, 0);
      if |tally.card.items| > 0 {
        var row, bestTrue, bestFalse;
        row, bestTrue, bestFalse, turn := PickSwap(cap);
        if bestTrue != 0 && bestFalse != 0 && bestTrue != bestFalse {
          SwapIn(row, bestTrue, bestFalse, step);
          swapped := true;
        } else if bestTrue != 0 && bestFalse != 0 {
          CandidatesApart(inst, Now(), bestTrue, bestFalse, row);
        }
      }
    }

    // One turn of local_search_flip that flips a single variable.
    method PickAndFlip(limits: Limits, step: int) returns (ghost turn: Turn)
      requires Valid() && tally.hardUnsatNb > 0
      modifies this`weight, this`weightTouched, this`deltaScore, this`score, this`good, this`soln, this`tally, this`timeStamp
      ensures Valid() && !turn.SwapTurn? && TurnMade(Board(), limits, old(Snap()), turn, step, Snap())
    {
      ghost var s, m := Snap(), Now();
      var flipvar;
      flipvar, turn, m := PickMove(limits.hdCountThreshold);
      Flip(flipvar);
      timeStamp := timeStamp[flipvar := step];
      TurnFlipped(Board(), limits, s, turn, m, flipvar, step, Snap());
    }

    // The pick, and the growing weights if it takes them.
    method PickMove(hdCountThreshold: int) returns (flipvar: int, ghost turn: Turn, ghost m: State)
      requires Valid() && tally.hardUnsatNb > 0
      modifies this`weight, this`weightTouched, this`deltaScore, this`score, this`good
      ensures Valid() && 1 <= flipvar <= inst.vars && m == Now()
      ensures !turn.SwapTurn? && turn.v == flipvar && Picked(Board(), hdCountThreshold, old(Snap()), turn, m)
    {
      var walk, rowWalk: bool := *, *;
      ghost var s := Snap();
      ghost var c;
      flipvar, c := PickVar(hdCountThreshold, walk, rowWalk);
      m := Now();
      turn := if |s.state.good.items| > 0 then GoodTurn(flipvar, walk) else RepairTurn(flipvar, c, rowWalk, m);
    }

    // A swap step.
    method SwapStep(limits: Limits, step: int) returns (ghost turn: Turn)
      requires Valid() && |tally.card.items| > 0 && limits.enableSwap
      modifies this`score, this`good, this`soln, this`tally, this`timeStamp, this`neighborFlag, this`deltaScore, this`satVar
      ensures Valid() && turn.SwapTurn? && TurnMade(Board(), limits, old(Snap()), turn, step, Snap())
    {
      ghost var swapped;
      swapped, turn := SwapVars(limits.cap, step);
    }

    // local_search_flip: a run of turns as `Turns` describes them, up to a
    // limit or the first model. It returns 10 only with every row satisfied,
    // and 0 only at a limit.
    method LocalSearchFlip(limits: Limits) returns (code: int, ghost trace: seq<Snapshot>, ghost turns: seq<Turn>)
      requires Valid()
      modifies this`weight, this`weightTouched, this`deltaScore, this`score, this`good, this`soln, this`tally, this`timeStamp,
               this`neighborFlag, this`satVar
      ensures Valid() && Ended(limits, trace, code)
      ensures code == 10 ==> RowsSat(inst.rows, Current(soln))
      ensures SearchRun(Board(), limits, trace, turns) && trace[0] == old(Snap()) && trace[|turns|] == Snap()
      ensures Played(inst, neighbors, materialized, old(Now()), AllMoves(turns), Now())
    {
      trace, turns, code := [Snap()], [], 0;
      PlayedNone(inst, neighbors, materialized, Now());
      var best := tally.hardUnsatNb;
      var nonImprove := 0;
      var step := 1;
      while step < limits.maxFlips
        invariant Valid() && |trace| == step && SearchRun(Board(), limits, trace, turns)
        invariant trace[0] == old(Snap()) && trace[step - 1] == Snap()
        invariant best == Fewest(trace) && nonImprove == Stale(trace)
      {
        if tally.hardUnsatNb == 0 {
          NoneViolated(inst, Now());
          code := 10;
          break;
        }
        if nonImprove >= limits.maxNonImprove {
          break;
        }
        ghost var turn := TakeTurn(limits, step, nonImprove);
        RunMore(Board(), limits, trace, turns, turn, Snap());
        trace, turns := trace + [Snap()], turns + [turn];
        if tally.hardUnsatNb < best {
          best, nonImprove := tally.hardUnsatNb, 0;
        } else {
          nonImprove := nonImprove + 1;
        }
        step := step + 1;
      }
      RunPlayed(Board(), limits, trace, turns);
    }

    // One turn of the loop.
    method TakeTurn(limits: Limits, step: int, nonImprove: nat) returns (ghost turn: Turn)
      requires Valid() && tally.hardUnsatNb > 0
      modifies this`weight, this`weightTouched, this`deltaScore, this`score, this`good, this`soln, this`tally, this`timeStamp,
               this`neighborFlag, this`satVar
      ensures Valid() && TurnMade(Board(), limits, old(Snap()), turn, step, Snap())
      ensures turn.SwapTurn? ==> nonImprove >= limits.swapNonImprove
    {
      var swap: bool := *;
      if limits.enableSwap && |tally.card.items| > 0 && nonImprove >= limits.swapNonImprove && swap {
        turn := SwapStep(limits, step);
      } else {
        turn := PickAndFlip(limits, step);
      }
    }

    // init_assignment, with the mode that set_init_method chose: all false or
    // all true, at random, or false for the variables that have been flipped
    // late in the try before.
    method InitAssignment(initMode: int, backbone: int, tries: int)
      requires |soln| == |timeStamp| == inst.vars + 1
      modifies this`soln, this`timeStamp
      ensures |soln| == |timeStamp| == inst.vars + 1
      ensures StartOfTry(initMode, backbone, tries, old(soln), old(timeStamp), soln, timeStamp)
    {
      for v := 1 to inst.vars + 1
        invariant |soln| == |timeStamp| == inst.vars + 1
        invariant forall x :: 1 <= x < v ==>
          timeStamp[x] == 0 && StartsAs(initMode, backbone, tries, old(soln)[x], old(timeStamp)[x], soln[x])
        invariant forall x :: v <= x <= inst.vars ==> soln[x] == old(soln)[x] && timeStamp[x] == old(timeStamp)[x]
      {
        var b: bool := *;
        if initMode == 3 || (initMode != 0 && initMode != 4 && tries == 1) {
          b := false;
        } else if initMode == 4 {
          b := true;
        } else if initMode != 0 {
          b := soln[v] && timeStamp[v] <= backbone;
        }
        soln, timeStamp := soln[v := b], timeStamp[v := 0];
      }
    }

    // One try of local_search.
    method Try(limits: Limits, initMode: int, backbone: int, tries: int) returns (res: int, ghost attempt: Attempt)
      requires Sized()
      modifies this
      ensures Sized() && (res == 10 ==> RowsSat(inst.rows, Current(soln)))
      ensures neighbors == old(neighbors) && materialized == old(materialized)
      ensures Tried(Board(), limits, initMode, backbone, tries, old(soln), old(timeStamp), attempt)
      ensures attempt.res == res && attempt.trace[|attempt.turns|] == Snap()
    {
      InitAssignment(initMode, backbone, tries);
      InitLocalSearch();
      ghost var trace, turns;
      res, trace, turns := LocalSearchFlip(limits);
      attempt := Attempt(trace, turns, res);
      ValidIsSized();
    }

    // local_search and the verification at the end of solve. The tries are
    // runs as described, each from where the one before has ended.
    method Solve(maxTries: nat, limits: Limits, initMode: int, backbone: int) returns (code: int, ghost attempts: seq<Attempt>)
      requires Sized()
      modifies this
      ensures code == 10 || code == 0
      ensures code == 10 <==> |soln| == inst.vars + 1 && RowsSat(inst.rows, Current(soln))
      ensures Board() == old(Board()) && AllTried(Board(), limits, initMode, backbone, old(soln), old(timeStamp), attempts)
      ensures code == 0 ==> |attempts| + 1 >= maxTries
    {
      var tries := 1;
      var res := 0;
      attempts := [];
      while tries < maxTries && res != 10
        invariant Sized() && (res == 10 ==> RowsSat(inst.rows, Current(soln)))
        invariant Board() == old(Board()) && |attempts| == tries - 1
        invariant AllTried(Board(), limits, initMode, backbone, old(soln), old(timeStamp), attempts)
        invariant forall i :: 0 <= i < |attempts| ==> attempts[i].res == (if i == |attempts| - 1 then res else 0)
        invariant LastSnap(old(soln), old(timeStamp), attempts) == (soln, timeStamp)
        decreases maxTries - tries, res != 10
      {
        ghost var attempt;
        res, attempt := Try(limits, initMode, backbone, tries);
        AttemptMore(Board(), limits, initMode, backbone, old(soln), old(timeStamp), attempts, attempt);
        attempts := attempts + [attempt];
        tries := tries + 1;
      }
      code := VerifySol();
    }

    lemma ValidIsSized()
      requires Valid()
      ensures Sized()
    {
      forall c | 0 <= c < |inst.rows| && inst.rows[c].degree <= 1
        ensures tally.card.index[c] == -1
      {
        assert !Has(tally.card, c);
      }
    }
  }
}
