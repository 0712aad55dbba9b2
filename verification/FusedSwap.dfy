/** Why one fused walk over the rows of two variables is the same as flipping
    the first and then the second. */
module FusedSwap {
  import opened Knf
  import opened RecoveryLog
  import opened IndexedStack
  import opened Scores
  import opened Tally
  import opened SearchState
  import opened RowUpdate

  // The mark of a row: 0 unless it holds both variables, else the phase of
  // the second one.
  function PairMark(r: Row, first: int, second: int): int {
    if LitOf(r.lits, first) == 0 || LitOf(r.lits, second) == 0 then 0
    else if LitOf(r.lits, second) > 0 then 2 else 1
  }

  ghost predicate SharedMarks(inst: Instance, first: int, second: int, marks: seq<int>, shared: seq<int>) {
    true == (
      && |marks| == |inst.rows|
      && (forall c :: 0 <= c < |marks| ==> marks[c] == PairMark(inst.rows[c], first, second))
      && MarkedOnly(marks, shared))
  }

  ghost predicate MarkedOnly(marks: seq<int>, shared: seq<int>) {
    && (forall i :: 0 <= i < |shared| ==> 0 <= shared[i] < |marks|)
    && forall c :: 0 <= c < |marks| && marks[c] != 0 ==> c in shared
  }

  lemma NothingMarked(inst: Instance, first: int, second: int, marks: seq<int>, shared: seq<int>)
    requires SharedMarks(inst, first, second, marks, shared) && |shared| == 0
    ensures marks == Repeat(0, |inst.rows|)
  {
  }

  // The merge of two ordered occurrence lists, i and j entries into them.
  ghost predicate MarkedSoFar(rows: seq<Row>, occs1: seq<Occurrence>, occs2: seq<Occurrence>, first: int, second: int,
                              i: int, j: int, marks: seq<int>) {
    && |marks| == |rows| && 0 <= i <= |occs1| && 0 <= j <= |occs2|
    && (forall k :: 0 <= k < i && j < |occs2| ==> occs1[k].clause < occs2[j].clause)
    && (forall k :: 0 <= k < j && i < |occs1| ==> occs2[k].clause < occs1[i].clause)
    && forall c :: 0 <= c < |rows| ==>
         marks[c] == if Seen(occs1, i, c) && Seen(occs2, j, c) then PairMark(rows[c], first, second) else 0
  }

  lemma MergeOrdered(rows: seq<Row>, occs1: seq<Occurrence>, occs2: seq<Occurrence>, first: int, second: int,
                  i: int, j: int, marks: seq<int>)
    requires MarkedSoFar(rows, occs1, occs2, first, second, i, j, marks) && i < |occs1| && j < |occs2|
    requires OccurrencesOf(rows, first, occs1) && OccurrencesOf(rows, second, occs2) && first >= 1 && second >= 1
    ensures var c1, c2 := occs1[i].clause, occs2[j].clause;
      && 0 <= c1 < |rows| && 0 <= c2 < |rows|
      && (c1 < c2 ==> MarkedSoFar(rows, occs1, occs2, first, second, i + 1, j, marks))
      && (c2 < c1 ==> MarkedSoFar(rows, occs1, occs2, first, second, i, j + 1, marks))
      && (c1 == c2 ==> MarkedSoFar(rows, occs1, occs2, first, second, i + 1, j + 1, marks[c1 := if occs2[j].sense then 2 else 1]))
  {
    assert OccurrenceOk(rows, first, occs1[i]) && OccurrenceOk(rows, second, occs2[j]);
    forall c | 0 <= c < |rows|
      ensures Seen(occs1, i + 1, c) <==> Seen(occs1, i, c) || c == occs1[i].clause
      ensures Seen(occs2, j + 1, c) <==> Seen(occs2, j, c) || c == occs2[j].clause
    {
    }
  }

  lemma MergeEnd(rows: seq<Row>, occs1: seq<Occurrence>, occs2: seq<Occurrence>, first: int, second: int,
                 i: int, j: int, marks: seq<int>)
    requires MarkedSoFar(rows, occs1, occs2, first, second, i, j, marks) && (i == |occs1| || j == |occs2|)
    requires OccurrencesOf(rows, first, occs1) && OccurrencesOf(rows, second, occs2)
    ensures forall c :: 0 <= c < |rows| ==> marks[c] == PairMark(rows[c], first, second)
  {
    forall c | 0 <= c < |rows| && LitOf(rows[c].lits, first) != 0 && LitOf(rows[c].lits, second) != 0
      ensures Seen(occs1, i, c) && Seen(occs2, j, c)
    {
      var k1 :| 0 <= k1 < |occs1| && occs1[k1].clause == c;
      var k2 :| 0 <= k2 < |occs2| && occs2[k2].clause == c;
      if i == |occs1| {
        assert k2 < j;
      }
    }
  }

  ghost predicate Merging(inst: Instance, first: int, second: int, i: int, j: int, marks: seq<int>, shared: seq<int>) {
    true == (
      match inst
      case Instance(vars, rows, occ) =>
        && InstanceOk(inst) && 1 <= first <= vars && 1 <= second <= vars
        && MarkedSoFar(rows, occ[first], occ[second], first, second, i, j, marks) && MarkedOnly(marks, shared))
  }

  lemma MergingStep(inst: Instance, first: int, second: int, i: int, j: int, marks: seq<int>, shared: seq<int>)
    requires Merging(inst, first, second, i, j, marks, shared) && i < |inst.occ[first]| && j < |inst.occ[second]|
    ensures var c1, c2 := inst.occ[first][i].clause, inst.occ[second][j].clause;
      && 0 <= c1 < |marks|
      && (c1 < c2 ==> Merging(inst, first, second, i + 1, j, marks, shared))
      && (c2 < c1 ==> Merging(inst, first, second, i, j + 1, marks, shared))
      && (c1 == c2 ==> Merging(inst, first, second, i + 1, j + 1,
                               marks[c1 := if inst.occ[second][j].sense then 2 else 1], shared + [c1]))
  {
    MergeOrdered(inst.rows, inst.occ[first], inst.occ[second], first, second, i, j, marks);
  }

  lemma MergingEnd(inst: Instance, first: int, second: int, i: int, j: int, marks: seq<int>, shared: seq<int>)
    requires Merging(inst, first, second, i, j, marks, shared) && (i == |inst.occ[first]| || j == |inst.occ[second]|)
    ensures SharedMarks(inst, first, second, marks, shared)
  {
    MergeEnd(inst.rows, inst.occ[first], inst.occ[second], first, second, i, j, marks);
  }

  // The delayed deltas take the scores for `counts` to those for `later`.
  ghost predicate Delayed(inst: Instance, weight: seq<int>, counts: seq<int>, later: seq<int>, soln: seq<bool>,
                          delta: seq<int>, second: int) {
    && |inst.rows| == |weight| == |counts| == |later| && |soln| == |delta| == inst.vars + 1
    && forall x :: 0 <= x <= inst.vars ==>
         delta[x] == if x == 0 || x == second then 0
                     else ScoreOf(inst.rows, weight, later, x, soln[x]) - ScoreOf(inst.rows, weight, counts, x, soln[x])
  }

  // Exactly the touched variables are flagged, and only they have a delta.
  ghost predicate TouchedOk(flags: seq<int>, delta: seq<int>, touched: seq<int>) {
    true == (
      && |flags| == |delta|
      && (forall i :: 0 <= i < |touched| ==> 0 <= touched[i] < |flags|) && Unrepeated(touched)
      && (forall x {:trigger x in touched} :: 0 <= x < |flags| ==> (x in touched <==> flags[x] == 1))
      && (forall x {:trigger flags[x]} :: 0 <= x < |flags| ==> flags[x] == 0 || flags[x] == 1)
      && (forall x {:trigger delta[x]} :: 0 <= x < |flags| && delta[x] != 0 ==> flags[x] == 1))
  }

  // `later` counts the marked rows among the first n occurrences of the first
  // variable as they will be after the second flip.
  ghost predicate Ahead(inst: Instance, marks: seq<int>, counts: seq<int>, later: seq<int>, second: int, b: bool,
                        occs: seq<Occurrence>, n: int) {
    && |marks| == |counts| == |later| == |inst.rows|
    && forall c :: 0 <= c < |counts| ==>
         later[c] == counts[c] + if marks[c] != 0 && Seen(occs, n, c) then Toggle(LitOf(inst.rows[c].lits, second), b) else 0
  }

  // ... and `later` when those among the first n occurrences of the second
  // variable have caught up.
  ghost predicate CatchingUp(inst: Instance, marks: seq<int>, counts: seq<int>, later: seq<int>, second: int, b: bool,
                             occs: seq<Occurrence>, n: int) {
    && |marks| == |counts| == |later| == |inst.rows|
    && forall c :: 0 <= c < |counts| ==>
         later[c] == counts[c] + if marks[c] != 0 && !Seen(occs, n, c) then Toggle(LitOf(inst.rows[c].lits, second), b) else 0
  }

  lemma DelayedShared(inst: Instance, weight: seq<int>, counts: seq<int>, later: seq<int>, soln: seq<bool>,
                      delta: seq<int>, delta': seq<int>, second: int, c: nat, middle: int, final: int)
    requires Delayed(inst, weight, counts, later, soln, delta, second) && c < |inst.rows| && later[c] == counts[c]
    requires RowDone(inst.rows[c], |inst.rows[c].lits|, weight[c], middle, final, soln, second, delta, delta')
    ensures Delayed(inst, weight, counts[c := middle], later[c := final], soln, delta', second)
  {
    var r := inst.rows[c];
    assert Row(r.lits[..|r.lits|], r.degree) == r;
    forall x | 1 <= x <= inst.vars
      ensures ScoreOf(inst.rows, weight, counts[c := middle], x, soln[x])
           == ScoreOf(inst.rows, weight, counts, x, soln[x]) + Share(r, weight[c], middle, x, soln[x]) - Share(r, weight[c], counts[c], x, soln[x])
      ensures ScoreOf(inst.rows, weight, later[c := final], x, soln[x])
           == ScoreOf(inst.rows, weight, later, x, soln[x]) + Share(r, weight[c], final, x, soln[x]) - Share(r, weight[c], counts[c], x, soln[x])
    {
      ScoreOneRow(inst.rows, weight, counts, weight, counts[c := middle], x, soln[x], c, |inst.rows|);
      ScoreOneRow(inst.rows, weight, later, weight, later[c := final], x, soln[x], c, |inst.rows|);
    }
  }

  lemma DelayedOther(inst: Instance, weight: seq<int>, counts: seq<int>, later: seq<int>, soln: seq<bool>,
                     delta: seq<int>, second: int, c: nat, after: int)
    requires Delayed(inst, weight, counts, later, soln, delta, second) && c < |inst.rows| && later[c] == counts[c]
    ensures Delayed(inst, weight, counts[c := after], later[c := after], soln, delta, second)
  {
    forall x | 1 <= x <= inst.vars
      ensures ScoreOf(inst.rows, weight, later[c := after], x, soln[x]) - ScoreOf(inst.rows, weight, counts[c := after], x, soln[x])
           == ScoreOf(inst.rows, weight, later, x, soln[x]) - ScoreOf(inst.rows, weight, counts, x, soln[x])
    {
      ScoreOneRow(inst.rows, weight, counts, weight, counts[c := after], x, soln[x], c, |inst.rows|);
      ScoreOneRow(inst.rows, weight, later, weight, later[c := after], x, soln[x], c, |inst.rows|);
    }
  }

  lemma AheadStep(inst: Instance, marks: seq<int>, counts: seq<int>, later: seq<int>, first: int, second: int, b: bool,
                  occs: seq<Occurrence>, n: nat, after: int)
    requires Ahead(inst, marks, counts, later, second, b, occs, n) && n < |occs| && OccurrencesOf(inst.rows, first, occs)
    ensures var c := occs[n].clause;
      && 0 <= c < |inst.rows| && later[c] == counts[c]
      && Ahead(inst, marks, counts[c := after],
               later[c := if marks[c] != 0 then after + Toggle(LitOf(inst.rows[c].lits, second), b) else after], second, b, occs, n + 1)
  {
    assert OccurrenceOk(inst.rows, first, occs[n]);
    forall c | 0 <= c < |inst.rows|
      ensures Seen(occs, n + 1, c) <==> Seen(occs, n, c) || c == occs[n].clause
      ensures c == occs[n].clause ==> !Seen(occs, n, c)
    {
    }
  }

  // When the first walk is over, all marked rows are ahead and none of them
  // has caught up.
  lemma AheadEnd(inst: Instance, marks: seq<int>, counts: seq<int>, later: seq<int>, first: int, second: int, b: bool,
                 occs: seq<Occurrence>, occs2: seq<Occurrence>)
    requires Ahead(inst, marks, counts, later, second, b, occs, |occs|) && OccurrencesOf(inst.rows, first, occs)
    requires forall c :: 0 <= c < |marks| ==> marks[c] == PairMark(inst.rows[c], first, second)
    ensures CatchingUp(inst, marks, counts, later, second, b, occs2, 0)
  {
  }

  lemma CatchingUpStep(inst: Instance, marks: seq<int>, counts: seq<int>, later: seq<int>, second: int, b: bool,
                       occs: seq<Occurrence>, n: nat, after: int)
    requires CatchingUp(inst, marks, counts, later, second, b, occs, n) && n < |occs|
    requires OccurrencesOf(inst.rows, second, occs) && second >= 1
    requires 0 <= occs[n].clause < |inst.rows| && after == CountAfter(counts, occs[n], !b)
    ensures var c := occs[n].clause;
      && (marks[c] == 0 ==> later[c] == counts[c]) && (marks[c] != 0 ==> later[c] == after)
      && CatchingUp(inst, marks, counts[c := after], later[c := after], second, b, occs, n + 1)
  {
    assert OccurrenceOk(inst.rows, second, occs[n]);
    forall c | 0 <= c < |inst.rows|
      ensures Seen(occs, n + 1, c) <==> Seen(occs, n, c) || c == occs[n].clause
      ensures c == occs[n].clause ==> !Seen(occs, n, c)
    {
    }
  }

  lemma CaughtUp(inst: Instance, marks: seq<int>, counts: seq<int>, later: seq<int>, second: int, b: bool,
                 occs: seq<Occurrence>)
    requires CatchingUp(inst, marks, counts, later, second, b, occs, |occs|) && OccurrencesOf(inst.rows, second, occs)
    ensures later == counts
  {
    forall c | 0 <= c < |counts|
      ensures later[c] == counts[c]
    {
    }
  }

  // Applying the deltas and flipping the second variable.
  lemma DelayedApplied(inst: Instance, weight: seq<int>, counts: seq<int>, later: seq<int>, soln: seq<bool>,
                       delta: seq<int>, second: int, score: seq<int>, score': seq<int>)
    requires Delayed(inst, weight, counts, later, soln, delta, second) && 1 <= second <= inst.vars
    requires |score| == |score'| == inst.vars + 1 && score[0] == 0
    requires forall x :: 1 <= x <= inst.vars ==> score[x] == ScoreOf(inst.rows, weight, counts, x, soln[x])
    requires forall x :: 0 <= x <= inst.vars ==> score'[x] == score[x] + delta[x]
    ensures ScoresBut(inst, weight, later, soln[second := !soln[second]], score', second) && score'[second] == score[second]
  {
  }

  // The fused walk after i occurrences of the first variable: its own flip is
  // done there, and the deltas of the second flip are kept for later.
  ghost predicate FusedState(inst: Instance, s: State, marks: seq<int>, flags: seq<int>, delta: seq<int>, first: int, second: int,
                             i: int, kept: int, t0: Tally, later: seq<int>, touched: seq<int>) {
    true == (
      && Midway(inst, s, first, kept, false) && 1 <= second <= inst.vars && StacksMatch(inst.rows, t0)
      && InRange(inst.rows, inst.occ[first]) && 0 <= i <= |inst.occ[first]|
      && s.tally == TallyUpTo(inst.rows, t0, inst.occ[first], s.soln[first], i)
      && Ahead(inst, marks, s.tally.counts, later, second, s.soln[second], inst.occ[first], i)
      && Delayed(inst, s.weight, s.tally.counts, later, s.soln, delta, second)
      && TouchedOk(flags, delta, touched))
  }

  lemma FusedStart(inst: Instance, s: State, marks: seq<int>, flags: seq<int>, delta: seq<int>, first: int, second: int)
    requires StateOk(inst, s) && 1 <= first <= inst.vars && 1 <= second <= inst.vars && |marks| == |inst.rows|
    requires |flags| == |delta| == inst.vars + 1 && forall x :: 0 <= x <= inst.vars ==> flags[x] == 0 && delta[x] == 0
    ensures FusedState(inst, s.(soln := s.soln[first := !s.soln[first]]), marks, flags, delta, first, second,
                       0, s.score[first], s.tally, s.tally.counts, [])
  {
    FlipStart(inst, s, first, false);
  }

  // A row of the first variable alone.
  lemma FusedOwnRow(inst: Instance, s: State, s': State, marks: seq<int>, flags: seq<int>, delta: seq<int>, first: int, second: int,
                    i: nat, kept: int, t0: Tally, later: seq<int>, touched: seq<int>)
    requires FusedState(inst, s, marks, flags, delta, first, second, i, kept, t0, later, touched) && i < |inst.occ[first]|
    requires marks[inst.occ[first][i].clause] == 0
    requires s' == s.(score := s'.score, tally := CountStep(inst.rows, s.tally, inst.occ[first][i], s.soln[first]))
    requires var c := inst.occ[first][i].clause;
      RowDone(inst.rows[c], |inst.rows[c].lits|, s.weight[c], s.tally.counts[c], s'.tally.counts[c], s.soln, first, s.score, s'.score)
    ensures var c := inst.occ[first][i].clause;
      FusedState(inst, s', marks, flags, delta, first, second, i + 1, kept, t0, later[c := s'.tally.counts[c]], touched)
  {
    var c := inst.occ[first][i].clause;
    var after := s'.tally.counts[c];
    AheadStep(inst, marks, s.tally.counts, later, first, second, s.soln[second], inst.occ[first], i, after);
    DelayedOther(inst, s.weight, s.tally.counts, later, s.soln, delta, second, c, after);
    RowDoneScores(inst, s.weight, s.tally.counts, s.soln, s.score, s'.score, first, c, after);
  }

  // A row of both: its second crossing goes to the deltas.
  lemma FusedSharedRow(inst: Instance, s: State, s': State, marks: seq<int>, flags: seq<int>, delta: seq<int>,
                       flags': seq<int>, delta': seq<int>, first: int, second: int, i: nat, kept: int, t0: Tally, later: seq<int>,
                       touched: seq<int>, touched': seq<int>, final: int)
    requires FusedState(inst, s, marks, flags, delta, first, second, i, kept, t0, later, touched) && i < |inst.occ[first]|
    requires marks[inst.occ[first][i].clause] != 0 && TouchedOk(flags', delta', touched')
    requires s' == s.(score := s'.score, tally := CountStep(inst.rows, s.tally, inst.occ[first][i], s.soln[first]))
    requires var c := inst.occ[first][i].clause;
      && final == s'.tally.counts[c] + Toggle(LitOf(inst.rows[c].lits, second), s.soln[second])
      && RowDone(inst.rows[c], |inst.rows[c].lits|, s.weight[c], s.tally.counts[c], s'.tally.counts[c], s.soln, first, s.score, s'.score)
      && RowDone(inst.rows[c], |inst.rows[c].lits|, s.weight[c], s'.tally.counts[c], final, s.soln, second, delta, delta')
    ensures FusedState(inst, s', marks, flags', delta', first, second, i + 1, kept, t0, later[inst.occ[first][i].clause := final], touched')
  {
    var c := inst.occ[first][i].clause;
    var middle := s'.tally.counts[c];
    AheadStep(inst, marks, s.tally.counts, later, first, second, s.soln[second], inst.occ[first], i, middle);
    DelayedShared(inst, s.weight, s.tally.counts, later, s.soln, delta, delta', second, c, middle, final);
    RowDoneScores(inst, s.weight, s.tally.counts, s.soln, s.score, s'.score, first, c, middle);
  }

  // The second walk after i occurrences: rows already paid for by a delayed
  // delta only have their count updated.
  ghost predicate CatchingState(inst: Instance, s: State, marks: seq<int>, second: int, i: int, kept: int, t0: Tally, later: seq<int>) {
    true == (
      && InstanceOk(inst) && 1 <= second <= inst.vars && StacksMatch(inst.rows, t0) && StacksMatch(inst.rows, s.tally)
      && InRange(inst.rows, inst.occ[second]) && 0 <= i <= |inst.occ[second]|
      && ScoresBut(inst, s.weight, later, s.soln, s.score, second) && s.score[second] == kept
      && Exact(s.good) && |s.good.index| == |s.score|
      && s.tally == TallyUpTo(inst.rows, t0, inst.occ[second], s.soln[second], i)
      && CatchingUp(inst, marks, s.tally.counts, later, second, !s.soln[second], inst.occ[second], i))
  }

  lemma CatchingRow(inst: Instance, s: State, s': State, marks: seq<int>, second: int, i: nat, kept: int, t0: Tally, later: seq<int>)
    requires CatchingState(inst, s, marks, second, i, kept, t0, later) && i < |inst.occ[second]|
    requires s' == s.(score := s'.score, tally := CountStep(inst.rows, s.tally, inst.occ[second][i], s.soln[second]))
    requires var c := inst.occ[second][i].clause;
      if marks[c] != 0 then s'.score == s.score
      else RowDone(inst.rows[c], |inst.rows[c].lits|, s.weight[c], s.tally.counts[c], s'.tally.counts[c], s.soln, second, s.score, s'.score)
    ensures var c := inst.occ[second][i].clause;
      CatchingState(inst, s', marks, second, i + 1, kept, t0, later[c := s'.tally.counts[c]])
  {
    var c := inst.occ[second][i].clause;
    var after := s'.tally.counts[c];
    CatchingUpStep(inst, marks, s.tally.counts, later, second, !s.soln[second], inst.occ[second], i, after);
    if marks[c] == 0 {
      RowDoneScores(inst, s.weight, later, s.soln, s.score, s'.score, second, c, after);
    } else {
      assert later[c := after] == later;
    }
  }

  lemma CatchingEnd(inst: Instance, s: State, marks: seq<int>, second: int, kept: int, t0: Tally, later: seq<int>)
    requires 1 <= second < |inst.occ|
    requires CatchingState(inst, s, marks, second, |inst.occ[second]|, kept, t0, later)
    ensures Midway(inst, s, second, kept, false)
    ensures s.tally == TallyUpTo(inst.rows, t0, inst.occ[second], s.soln[second], |inst.occ[second]|)
  {
    CaughtUp(inst, marks, s.tally.counts, later, second, !s.soln[second], inst.occ[second]);
  }

  // After the first half: the scores are those of the state after one flip,
  // and the deltas lead to those for the counts after both.
  ghost predicate HalfWay(inst: Instance, s: State, marks: seq<int>, flags: seq<int>, delta: seq<int>,
                          second: int, later: seq<int>, touched: seq<int>) {
    true == (
      && 1 <= second < |s.soln| == |inst.occ| == |delta|
      && CatchingUp(inst, marks, s.tally.counts, later, second, s.soln[second], inst.occ[second], 0)
      && Delayed(inst, s.weight, s.tally.counts, later, s.soln, delta, second)
      && TouchedOk(flags, delta, touched))
  }

  lemma FusedEnd(inst: Instance, s: State, marks: seq<int>, flags: seq<int>, delta: seq<int>, first: int, second: int,
                 kept: int, t0: Tally, later: seq<int>, touched: seq<int>)
    requires 1 <= first < |inst.occ|
    requires FusedState(inst, s, marks, flags, delta, first, second, |inst.occ[first]|, kept, t0, later, touched)
    requires forall c :: 0 <= c < |marks| ==> marks[c] == PairMark(inst.rows[c], first, second)
    ensures Midway(inst, s, first, kept, false) && HalfWay(inst, s, marks, flags, delta, second, later, touched)
    ensures s.tally == TallyUpTo(inst.rows, t0, inst.occ[first], s.soln[first], |inst.occ[first]|)
  {
    AheadEnd(inst, marks, s.tally.counts, later, first, second, s.soln[second], inst.occ[first], inst.occ[second]);
  }

  // The deltas applied, the second walk can begin.
  lemma CatchingStart(inst: Instance, s: State, marks: seq<int>, flags: seq<int>, delta: seq<int>, second: int,
                      later: seq<int>, touched: seq<int>, score': seq<int>)
    requires StateOk(inst, s) && HalfWay(inst, s, marks, flags, delta, second, later, touched)
    requires |score'| == |s.score| && forall x :: 0 <= x < |score'| ==> score'[x] == s.score[x] + delta[x]
    ensures CatchingState(inst, s.(soln := s.soln[second := !s.soln[second]], score := score'), marks, second, 0, s.score[second], s.tally, later)
  {
    OccurrencesInRange(inst.rows, second, inst.occ[second]);
    DelayedApplied(inst, s.weight, s.tally.counts, later, s.soln, delta, second, s.score, score');
  }
}
