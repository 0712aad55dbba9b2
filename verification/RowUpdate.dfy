/** One pass over a row after a flip: which literals are touched, by how much,
    and why that is the change of their shares. */
module RowUpdate {
  import opened Knf
  import opened IndexedStack
  import opened Scores
  import opened SearchState

  datatype ScoreStackUpdate = NoStackUpdate | AfterScoreIncrease | AfterScoreDecrease

  // update_true_literals
  function Phase(before: int, after: int, threshold: int): bool {
    if after > before then before == threshold else after == threshold
  }

  function Delta(before: int, after: int, threshold: int, weight: int): int {
    if after > before then
      if Phase(before, after, threshold) then weight else -weight
    else
      if Phase(before, after, threshold) then -weight else weight
  }

  predicate Hits(l: int, soln: seq<bool>, before: int, after: int, threshold: int)
    requires Abs(l) < |soln|
  {
    ((l > 0) == soln[Abs(l)]) == Phase(before, after, threshold)
  }

  // The first j literals of r have been visited: the scores of their
  // variables, except v, moved with their shares.
  ghost predicate RowDone(r: Row, j: int, weight: int, before: int, after: int, soln: seq<bool>, v: int,
                          score0: seq<int>, score: seq<int>) {
    true == (
      match r
      case Row(lits, degree) =>
        && |score| == |score0| == |soln| && 0 <= j <= |lits|
        && forall x :: 0 <= x < |score| ==>
             score[x] == score0[x] + if x == v || x == 0 then 0 else ShareChange(Row(lits[..j], degree), weight, before, after, x, soln[x]))
  }

  function ShareChange(r: Row, weight: int, before: int, after: int, x: int, b: bool): int {
    Share(r, weight, after, x, b) - Share(r, weight, before, x, b)
  }

  lemma RowDoneStart(r: Row, weight: int, before: int, after: int, soln: seq<bool>, v: int, score: seq<int>)
    requires |score| == |soln|
    ensures RowDone(r, 0, weight, before, after, soln, v, score, score)
  {
  }

  lemma RowDoneStep(r: Row, j: nat, weight: int, before: int, after: int, soln: seq<bool>, v: int,
                    score0: seq<int>, score: seq<int>, score': seq<int>)
    requires RowDone(r, j, weight, before, after, soln, v, score0, score) && j < |r.lits|
    requires DistinctVars(r.lits) && VarsIn(r.lits, |soln| - 1)
    requires (after == before + 1 || after == before - 1) && (before == r.degree || after == r.degree)
    requires var x := Abs(r.lits[j]);
      score' == if x != v && Hits(r.lits[j], soln, before, after, r.degree)
                then score[x := score[x] + Delta(before, after, r.degree, weight)] else score
    ensures RowDone(r, j + 1, weight, before, after, soln, v, score0, score')
  {
    var l := r.lits[j];
    assert r.lits[..j + 1][..j] == r.lits[..j];
    LitOfAt(r.lits, j);
    forall x | 0 <= x < |score|
      ensures score'[x] == score0[x] + if x == v || x == 0 then 0 else ShareChange(Row(r.lits[..j + 1], r.degree), weight, before, after, x, soln[x])
    {
      assert LitOf(r.lits[..j + 1], x) == if Abs(l) == x then l else LitOf(r.lits[..j], x);
    }
  }

  // A row that crosses its degree is walked, any other one is left alone.
  ghost predicate RowDoneIf(crosses: bool, r: Row, j: int, weight: int, before: int, after: int, soln: seq<bool>, v: int,
                            score0: seq<int>, score: seq<int>) {
    true == (
      match crosses
      case true => RowDone(r, j, weight, before, after, soln, v, score0, score)
      case false => |score| == |soln| && score == score0)
  }

  lemma RowDoneIfStep(r: Row, j: nat, weight: int, before: int, after: int, soln: seq<bool>, v: int,
                      score0: seq<int>, score: seq<int>, score': seq<int>)
    requires RowDoneIf(before == r.degree || after == r.degree, r, j, weight, before, after, soln, v, score0, score)
    requires j < |r.lits| && DistinctVars(r.lits) && VarsIn(r.lits, |soln| - 1)
    requires after == before + 1 || after == before - 1
    requires var x := Abs(r.lits[j]);
      score' == if (before == r.degree || after == r.degree) && x != v && Hits(r.lits[j], soln, before, after, r.degree)
                then score[x := score[x] + Delta(before, after, r.degree, weight)] else score
    ensures RowDoneIf(before == r.degree || after == r.degree, r, j + 1, weight, before, after, soln, v, score0, score')
  {
    if before == r.degree || after == r.degree {
      RowDoneStep(r, j, weight, before, after, soln, v, score0, score, score');
    }
  }

  // A row that stays on one side of its degree moves no score.
  lemma RowIdle(r: Row, weight: int, before: int, after: int, x: int, b: bool)
    requires after == before + 1 || after == before - 1
    requires before != r.degree && after != r.degree
    ensures ShareChange(r, weight, before, after, x, b) == 0
  {
  }

  function AfterScore(good: Stack, score: seq<int>, v: int, mode: ScoreStackUpdate): Stack
    requires Exact(good) && |good.index| == |score| && 0 <= v < |score|
  {
    match mode
    case AfterScoreIncrease => if score[v] > 0 && good.index[v] == -1 then Push(good, v) else good
    case AfterScoreDecrease => if good.index[v] != -1 && score[v] <= 0 then Remove(good, v) else good
    case NoStackUpdate => good
  }

  // In the two modes that maintain the stack, the variable is on it
  // afterwards exactly if its score and the direction of the change ask for
  // it; all others are as before.
  lemma AfterScoreMembers(good: Stack, score: seq<int>, v: int, mode: ScoreStackUpdate)
    requires Exact(good) && |good.index| == |score| && 0 <= v < |score|
    ensures var t := AfterScore(good, score, v, mode);
      && Exact(t) && |t.index| == |score|
      && (forall x :: x != v ==> (Has(t, x) <==> Has(good, x)))
      && (Has(t, v) <==>
           match mode
           case AfterScoreIncrease => Has(good, v) || score[v] > 0
           case AfterScoreDecrease => Has(good, v) && score[v] > 0
           case NoStackUpdate => Has(good, v))
  {
    if good.index[v] == -1 {
      PushBacked(good, v);
    } else {
      RemoveExact(good, v);
    }
  }

  lemma AfterScoreExact(good: Stack, score: seq<int>, v: int, mode: ScoreStackUpdate)
    requires Exact(good) && |good.index| == |score| && 0 <= v < |score|
    ensures var t := AfterScore(good, score, v, mode);
      Exact(t) && |t.index| == |score|
  {
    AfterScoreMembers(good, score, v, mode);
  }

  // What is kept of the good-variable stack while v is being flipped.
  ghost predicate GoodKept(good0: Stack, score0: seq<int>, good: Stack, score: seq<int>, v: int, maintain: bool) {
    true == (
      match maintain
      case true =>
        && GoodBut(good, score, v) && NoNewAbsent(good0, score0, good, score, v)
        && (Has(good, v) <==> Has(good0, v))
      case false => good == good0 && |score| == |score0|)
  }

  lemma GoodKeptStart(good: Stack, score: seq<int>, v: int, maintain: bool)
    requires maintain ==> GoodBut(good, score, v)
    ensures GoodKept(good, score, good, score, v, maintain)
  {
  }

  lemma GoodKeptTransitive(good0: Stack, score0: seq<int>, good1: Stack, score1: seq<int>, good2: Stack, score2: seq<int>,
                           v: int, maintain: bool)
    requires GoodKept(good0, score0, good1, score1, v, maintain) && GoodKept(good1, score1, good2, score2, v, maintain)
    ensures GoodKept(good0, score0, good2, score2, v, maintain)
  {
  }

  lemma GoodKeptStep(good0: Stack, score0: seq<int>, good: Stack, score: seq<int>, v: int, maintain: bool,
                     x: int, delta: int, mode: ScoreStackUpdate)
    requires GoodKept(good0, score0, good, score, v, maintain)
    requires Exact(good) && |good.index| == |score| && 0 <= x < |score| && x != v
    requires mode == if !maintain then NoStackUpdate else if delta > 0 then AfterScoreIncrease else AfterScoreDecrease
    ensures var score' := score[x := score[x] + delta];
      GoodKept(good0, score0, AfterScore(good, score', x, mode), score', v, maintain)
  {
    var score' := score[x := score[x] + delta];
    if maintain {
      if delta > 0 && score'[x] > 0 && good.index[x] == -1 {
        PushBacked(good, x);
      } else if delta <= 0 && good.index[x] != -1 && score'[x] <= 0 {
        RemoveExact(good, x);
      }
      var good' := AfterScore(good, score', x, mode);
      forall y | y != v && Absent(good', score', y)
        ensures Absent(good0, score0, y)
      {
        assert Absent(good, score, y);
      }
    }
  }

  // Once the row is done, scores agree with the counts in which this row has
  // the new one.
  lemma RowDoneScores(inst: Instance, weight: seq<int>, counts: seq<int>, soln: seq<bool>, score0: seq<int>, score: seq<int>,
                      v: int, c: nat, after: int)
    requires InstanceOk(inst) && c < |inst.rows| && ScoresBut(inst, weight, counts, soln, score0, v)
    requires RowDone(inst.rows[c], |inst.rows[c].lits|, weight[c], counts[c], after, soln, v, score0, score)
    ensures ScoresBut(inst, weight, counts[c := after], soln, score, v)
  {
    var r := inst.rows[c];
    assert Row(r.lits[..|r.lits|], r.degree) == r;
    forall x | 1 <= x <= inst.vars && x != v
      ensures score[x] == ScoreOf(inst.rows, weight, counts[c := after], x, soln[x])
    {
      ScoreOneRow(inst.rows, weight, counts, weight, counts[c := after], x, soln[x], c, |inst.rows|);
    }
  }

  lemma RowIdleDone(r: Row, weight: int, before: int, after: int, soln: seq<bool>, v: int, score: seq<int>)
    requires |score| == |soln| && (after == before + 1 || after == before - 1)
    requires before != r.degree && after != r.degree
    ensures RowDone(r, |r.lits|, weight, before, after, soln, v, score, score)
  {
    forall x | 0 <= x < |score|
      ensures ShareChange(Row(r.lits[..|r.lits|], r.degree), weight, before, after, x, soln[x]) == 0
    {
      RowIdle(Row(r.lits[..|r.lits|], r.degree), weight, before, after, x, soln[x]);
    }
  }
}
