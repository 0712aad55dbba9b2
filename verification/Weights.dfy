/** Raising the weights of violated rows, and setting up the counts, stacks and
    scores from scratch. */
module Weights {
  import opened Knf
  import opened IndexedStack
  import opened Scores
  import opened Tally
  import opened SearchState

  // What one more unit of weight on a violated row does to a variable of it.
  function BumpOf(l: int, b: bool): int {
    if l == 0 then 0 else if (l > 0) == b then -1 else 1
  }

  ghost predicate BumpDone(r: Row, j: int, soln: seq<bool>, delta0: seq<int>, delta: seq<int>) {
    true == (
      && |delta| == |delta0| == |soln| && 0 <= j <= |r.lits|
      && forall x :: 0 <= x < |soln| ==> delta[x] == delta0[x] + BumpOf(LitOf(r.lits[..j], x), soln[x]))
  }

  lemma BumpStep(r: Row, j: nat, soln: seq<bool>, delta0: seq<int>, delta: seq<int>)
    requires BumpDone(r, j, soln, delta0, delta) && j < |r.lits| && DistinctVars(r.lits) && VarsIn(r.lits, |soln| - 1)
    ensures var l := r.lits[j];
      BumpDone(r, j + 1, soln, delta0, delta[Abs(l) := delta[Abs(l)] + BumpOf(l, soln[Abs(l)])])
  {
    var l := r.lits[j];
    assert r.lits[..j + 1][..j] == r.lits[..j];
    LitOfAt(r.lits, j);
    forall x | 0 <= x < |soln|
      ensures LitOf(r.lits[..j + 1], x) == if Abs(l) == x then l else LitOf(r.lits[..j], x)
    {
    }
  }

  // The deltas lead from the scores for one weighting to those for another.
  ghost predicate Bumping(inst: Instance, weight0: seq<int>, weight: seq<int>, counts: seq<int>, soln: seq<bool>, delta: seq<int>) {
    true == (
      && |inst.rows| == |weight0| == |weight| == |counts| && |soln| == |delta| == inst.vars + 1 && delta[0] == 0
      && forall x :: 1 <= x <= inst.vars ==>
           delta[x] == ScoreOf(inst.rows, weight, counts, x, soln[x]) - ScoreOf(inst.rows, weight0, counts, x, soln[x]))
  }

  lemma BumpingRow(inst: Instance, weight0: seq<int>, weight: seq<int>, counts: seq<int>, soln: seq<bool>,
                   delta: seq<int>, delta': seq<int>, c: nat)
    requires InstanceOk(inst) && Bumping(inst, weight0, weight, counts, soln, delta)
    requires c < |inst.rows| && counts[c] < inst.rows[c].degree
    requires BumpDone(inst.rows[c], |inst.rows[c].lits|, soln, delta, delta')
    ensures Bumping(inst, weight0, weight[c := weight[c] + 1], counts, soln, delta')
  {
    var r := inst.rows[c];
    assert r.lits[..|r.lits|] == r.lits;
    LitOfMentions(r.lits, 0);
    forall x | 1 <= x <= inst.vars
      ensures ScoreOf(inst.rows, weight[c := weight[c] + 1], counts, x, soln[x])
           == ScoreOf(inst.rows, weight, counts, x, soln[x]) + BumpOf(LitOf(r.lits, x), soln[x])
    {
      ScoreOneRow(inst.rows, weight, counts, weight[c := weight[c] + 1], counts, x, soln[x], c, |inst.rows|);
    }
  }

  ghost predicate BumpTouched(flags: seq<bool>, delta: seq<int>, touched: seq<int>) {
    true == (
      && |flags| == |delta|
      && (forall i :: 0 <= i < |touched| ==> 0 <= touched[i] < |flags|) && Unrepeated(touched)
      && (forall x {:trigger x in touched} :: 0 <= x < |flags| ==> (x in touched <==> flags[x]))
      && (forall x {:trigger delta[x]} :: 0 <= x < |flags| && delta[x] != 0 ==> flags[x]))
  }

  lemma BumpTouchedStep(flags: seq<bool>, delta: seq<int>, touched: seq<int>, v: int, gain: int)
    requires BumpTouched(flags, delta, touched) && 0 <= v < |flags|
    ensures BumpTouched(flags[v := true], delta[v := delta[v] + gain], if flags[v] then touched else touched + [v])
  {
    if !flags[v] {
      UnrepeatedSnoc(touched, v);
    }
  }

  ghost predicate BumpRowState(r: Row, j: int, soln: seq<bool>, delta0: seq<int>, delta: seq<int>, flags: seq<bool>, touched: seq<int>) {
    true == (BumpDone(r, j, soln, delta0, delta) && BumpTouched(flags, delta, touched))
  }

  lemma BumpRowStart(r: Row, soln: seq<bool>, delta: seq<int>, flags: seq<bool>, touched: seq<int>)
    requires |delta| == |soln| && BumpTouched(flags, delta, touched)
    ensures BumpRowState(r, 0, soln, delta, delta, flags, touched)
  {
  }

  lemma BumpRowStep(r: Row, j: nat, soln: seq<bool>, delta0: seq<int>, delta: seq<int>, flags: seq<bool>, touched: seq<int>)
    requires BumpRowState(r, j, soln, delta0, delta, flags, touched)
    requires j < |r.lits| && DistinctVars(r.lits) && VarsIn(r.lits, |soln| - 1)
    ensures var v := Abs(r.lits[j]);
      && v < |soln| == |delta| == |flags|
      && BumpRowState(r, j + 1, soln, delta0, delta[v := delta[v] + if (r.lits[j] > 0) == soln[v] then -1 else 1],
                      flags[v := true], if flags[v] then touched else touched + [v])
  {
    var v: int := Abs(r.lits[j]);
    BumpTouchedStep(flags, delta, touched, v, BumpOf(r.lits[j], soln[v]));
    BumpStep(r, j, soln, delta0, delta);
  }

  // The weights after the first i rows of the stack of violated rows.
  ghost predicate WeightsUpTo(hard: Stack, weight0: seq<int>, weight: seq<int>, i: int) {
    |weight| == |weight0| && forall c :: 0 <= c < |weight| ==>
      weight[c] == weight0[c] + ToInt(Has(hard, c) && hard.index[c] < i)
  }

  lemma WeightsStep(hard: Stack, weight0: seq<int>, weight: seq<int>, i: nat)
    requires WeightsUpTo(hard, weight0, weight, i) && Backed(hard) && i < |hard.items| && |hard.index| == |weight|
    ensures 0 <= hard.items[i] < |weight| && WeightsUpTo(hard, weight0, weight[hard.items[i] := weight[hard.items[i]] + 1], i + 1)
  {
    var c := hard.items[i];
    assert Has(hard, c);
    forall d | 0 <= d < |weight| && d != c && Has(hard, d)
      ensures hard.index[d] != i
    {
    }
  }

  // The scores once all deltas are applied.
  lemma BumpedScores(inst: Instance, weight0: seq<int>, weight: seq<int>, counts: seq<int>, soln: seq<bool>, delta: seq<int>,
                     score0: seq<int>, score: seq<int>)
    requires Bumping(inst, weight0, weight, counts, soln, delta) && score0 == ScoresFor(inst, weight0, counts, soln)
    requires |score| == |score0| && forall x :: 0 <= x < |score| ==> score[x] == score0[x] + delta[x]
    ensures score == ScoresFor(inst, weight, counts, soln)
  {
    assert |score| == |ScoresFor(inst, weight, counts, soln)|;
  }

  // Counts and stacks of the first i rows.
  ghost predicate CountedUpTo(rows: seq<Row>, t: Tally, soln: seq<bool>, i: int) {
    true == (
      && |t.counts| == |t.hard.index| == |t.card.index| == |rows| && 0 <= i <= |rows|
      && Backed(t.hard) && Backed(t.card) && t.hardUnsatNb == |t.hard.items|
      && (forall c :: 0 <= c < i ==> t.counts[c] == Count(rows[c].lits, Current(soln)))
      && (forall c :: Has(t.hard, c) <==> 0 <= c < i && t.counts[c] < rows[c].degree)
      && (forall c :: Has(t.card, c) <==> 0 <= c < i && rows[c].degree > 1 && t.counts[c] >= rows[c].degree)
      && (forall c :: 0 <= c < |rows| && (c < i || rows[c].degree <= 1) && t.card.index[c] != -1 ==> Has(t.card, c)))
  }

  // One turn of the first loop of init_local_search.
  function CountedRow(rows: seq<Row>, t: Tally, c: int, count: int): Tally
    requires 0 <= c < |rows| == |t.counts| == |t.hard.index| == |t.card.index|
  {
    var d := rows[c].degree;
    var cleared := if d > 1 then Stack(t.card.items, t.card.index[c := -1]) else t.card;
    Tally(t.counts[c := count],
          if count < d then Push(t.hard, c) else t.hard,
          if d > 1 && count >= d then Push(cleared, c) else cleared,
          if count < d then t.hardUnsatNb + 1 else t.hardUnsatNb)
  }

  lemma CountedNext(rows: seq<Row>, t: Tally, soln: seq<bool>, c: nat, count: int)
    requires CountedUpTo(rows, t, soln, c) && c < |rows| && count == Count(rows[c].lits, Current(soln))
    ensures CountedUpTo(rows, CountedRow(rows, t, c, count), soln, c + 1)
  {
    var d := rows[c].degree;
    var cleared := if d > 1 then Stack(t.card.items, t.card.index[c := -1]) else t.card;
    ClearedStack(t.card, c, cleared);
    if count < d {
      PushBacked(t.hard, c);
    }
    if d > 1 && count >= d {
      PushBacked(cleared, c);
    }
  }

  lemma ClearedStack(s: Stack, c: int, t: Stack)
    requires Backed(s) && 0 <= c < |s.index| && !Has(s, c)
    requires t == s || t == Stack(s.items, s.index[c := -1])
    ensures Backed(t) && forall x :: Has(t, x) <==> Has(s, x)
  {
    forall i | 0 <= i < |s.items|
      ensures s.items[i] != c
    {
      assert s.index[s.items[i]] == i;
    }
  }

  lemma CountedEnd(rows: seq<Row>, t: Tally, soln: seq<bool>)
    requires CountedUpTo(rows, t, soln, |rows|)
    ensures StacksMatch(rows, t) && TrueCounts(rows, t.counts, soln)
  {
  }

  // Rows without x do not contribute to its score.
  lemma {:induction false} ScoreSkips(rows: seq<Row>, weight: seq<int>, counts: seq<int>, x: int, b: bool, m: nat, n: nat)
    requires m <= n <= |rows| == |weight| == |counts|
    requires forall c :: m <= c < n ==> LitOf(rows[c].lits, x) == 0
    ensures ScoreUpTo(rows, weight, counts, x, b, n) == ScoreUpTo(rows, weight, counts, x, b, m)
  {
    if m < n {
      ScoreSkips(rows, weight, counts, x, b, m, n - 1);
    }
  }

  // The row after the i-th occurrence.
  function After(occs: seq<Occurrence>, i: nat): int
    requires i <= |occs|
  {
    if i == 0 then 0 else occs[i - 1].clause + 1
  }

  // Summing over occurrences is summing over rows.
  lemma ScoreNextOccurrence(rows: seq<Row>, weight: seq<int>, counts: seq<int>, x: int, b: bool, occs: seq<Occurrence>, i: nat)
    requires |rows| == |weight| == |counts| && OccurrencesOf(rows, x, occs) && i < |occs|
    ensures 0 <= After(occs, i) <= occs[i].clause < |rows|
    ensures ScoreUpTo(rows, weight, counts, x, b, After(occs, i + 1))
         == ScoreUpTo(rows, weight, counts, x, b, After(occs, i)) + Share(rows[occs[i].clause], weight[occs[i].clause], counts[occs[i].clause], x, b)
  {
    assert OccurrenceOk(rows, x, occs[i]);
    if i > 0 {
      assert OccurrenceOk(rows, x, occs[i - 1]);
      assert occs[i - 1].clause < occs[i].clause;
    }
    forall c | After(occs, i) <= c < occs[i].clause
      ensures LitOf(rows[c].lits, x) == 0
    {
      NotBetween(rows, x, occs, i, c);
    }
    ScoreSkips(rows, weight, counts, x, b, After(occs, i), occs[i].clause);
  }

  lemma NotBetween(rows: seq<Row>, x: int, occs: seq<Occurrence>, i: nat, c: int)
    requires OccurrencesOf(rows, x, occs) && i <= |occs|
    requires After(occs, i) <= c && (i < |occs| ==> c < occs[i].clause) && 0 <= c < |rows|
    ensures LitOf(rows[c].lits, x) == 0
  {
    if LitOf(rows[c].lits, x) != 0 {
      var k :| 0 <= k < |occs| && occs[k].clause == c;
      assert false;
    }
  }

  lemma ScoreAllOccurrences(rows: seq<Row>, weight: seq<int>, counts: seq<int>, x: int, b: bool, occs: seq<Occurrence>)
    requires |rows| == |weight| == |counts| && OccurrencesOf(rows, x, occs)
    ensures 0 <= After(occs, |occs|) <= |rows|
    ensures ScoreOf(rows, weight, counts, x, b) == ScoreUpTo(rows, weight, counts, x, b, After(occs, |occs|))
  {
    if |occs| > 0 {
      assert OccurrenceOk(rows, x, occs[|occs| - 1]);
    }
    forall c | After(occs, |occs|) <= c < |rows|
      ensures LitOf(rows[c].lits, x) == 0
    {
      NotBetween(rows, x, occs, |occs|, c);
    }
    ScoreSkips(rows, weight, counts, x, b, After(occs, |occs|), |rows|);
  }
}
