/** The swap step: which positions of a row are probed, and why exchanging a
    true and a false literal keeps the row satisfied. */
module Swap {
  import opened Knf
  import opened IndexedStack
  import opened Scores
  import opened Tally
  import opened SearchState
  import opened Moves

  // swap_bms_sample_count
  function SampleCount(n: int, cap: int): (k: int)
    requires n >= 1
    ensures k <= n && k <= cap && 2 * k <= n + 1 && (k == cap || 2 * k >= n)
  {
    var half := (n - 1) / 2 + 1;
    if half < cap then half else cap
  }

  function Probe(start: int, stride: int, i: int, n: int): int
    requires n >= 1
  {
    (start + i * stride) % n
  }

  lemma {:induction false} ModShift(x: int, i: nat, n: int)
    requires n >= 1
    ensures (x + i * n) % n == x % n
  {
    if i > 0 {
      ModShift(x, i - 1, n);
      var y := x + (i - 1) * n;
      assert x + i * n == y + n;
      assert y + n == n * (y / n + 1) + y % n;
      QuotientUnique(y + n, n, y / n + 1, y % n);
    }
  }

  lemma MultipleSize(n: int, d: int)
    requires n >= 1
    ensures d >= 1 ==> n * d >= n
    ensures d <= -1 ==> n * d <= -n
    ensures d == 0 ==> n * d == 0
  {
    assert n * d - n == n * (d - 1);
    assert n * d + n == n * (d + 1);
  }

  lemma QuotientUnique(x: int, n: int, q: int, r: int)
    requires n >= 1 && x == n * q + r && 0 <= r < n
    ensures x % n == r
  {
    var d := q - x / n;
    assert n * d == n * q - n * (x / n);
    MultipleSize(n, d);
  }

  lemma ModApart(x: int, y: int, n: int)
    requires n >= 1 && x < y < x + n
    ensures x % n != y % n
  {
    var d := y / n - x / n;
    assert n * d == n * (y / n) - n * (x / n);
    MultipleSize(n, d);
  }

  // Either stride visits as many different positions as there are probes.
  lemma ProbesDistinct(start: int, stride: int, n: int, i: nat, k: nat)
    requires n >= 1 && i < k < n && (stride == 1 || stride == n - 1)
    ensures Probe(start, stride, i, n) != Probe(start, stride, k, n)
  {
    if stride == 1 {
      ModApart(start + i, start + k, n);
    } else {
      ModShift(start - i, i, n);
      ModShift(start - k, k, n);
      assert start + i * stride == start - i + i * n;
      assert start + k * stride == start - k + k * n;
      ModApart(start - k, start - i, n);
    }
  }

  // A literal of the row on variable v that is true or false as asked.
  ghost predicate Candidate(r: Row, soln: seq<bool>, v: int, isTrue: bool) {
    1 <= v < |soln| && LitOf(r.lits, v) != 0 && ((LitOf(r.lits, v) > 0) == soln[v]) == isTrue
  }

  predicate Better(score: seq<int>, time: seq<int>, u: int, v: int)
    requires 0 <= u < |score| == |time| && 0 <= v < |score|
  {
    score[u] > score[v] || (score[u] == score[v] && time[u] < time[v])
  }

  // Exchanging a true and a false literal of row c keeps its count, so a
  // satisfied cardinality row stays satisfied and on its stack.
  lemma SwapKeepsRow(inst: Instance, neighbors: seq<seq<int>>, materialized: bool, s: State, first: int, second: int, c: nat)
    requires Running(inst, s) && StateOk(inst, s) && ModeOk(inst, neighbors, materialized) && c < |inst.rows|
    requires Candidate(inst.rows[c], s.soln, first, true) && Candidate(inst.rows[c], s.soln, second, false)
    ensures var t := TwoFlips(inst, neighbors, materialized, s, first, second);
      && StateOk(inst, t) && t.tally.counts[c] == s.tally.counts[c]
      && (Has(s.tally.card, c) ==> Has(t.tally.card, c))
  {
    var m := FlipStep(inst, neighbors, materialized, s, first);
    FlipStepExact(inst, neighbors, materialized, s, first);
    FlipStepExact(inst, neighbors, materialized, m, second);
    FlipNumbersOk(inst, s, first);
    FlipNumbersOk(inst, m, second);
    assert m.soln == s.soln[first := !s.soln[first]] && first != second;
    assert m.tally.counts[c] == s.tally.counts[c] - 1;
  }

  // What a swap step that did not give up has done.
  ghost predicate SwappedIn(inst: Instance, neighbors: seq<seq<int>>, materialized: bool, s: State, t: State, c: int, first: int, second: int) {
    && 0 <= c < |inst.rows| == |s.tally.counts| == |t.tally.counts|
    && Has(s.tally.card, c) && Has(t.tally.card, c) && t.tally.counts[c] == s.tally.counts[c]
    && |s.soln| == inst.vars + 1
    && Candidate(inst.rows[c], s.soln, first, true) && Candidate(inst.rows[c], s.soln, second, false)
    && BothFlipped(inst, neighbors, materialized, s, first, second, t)
  }

  lemma SwapDone(inst: Instance, neighbors: seq<seq<int>>, materialized: bool, s: State, first: int, second: int, c: nat, t: State)
    requires StateOk(inst, s) && BothFlipped(inst, neighbors, materialized, s, first, second, t)
    requires c < |inst.rows| && Has(s.tally.card, c)
    requires Candidate(inst.rows[c], s.soln, first, true) && Candidate(inst.rows[c], s.soln, second, false)
    ensures SwappedIn(inst, neighbors, materialized, s, t, c, first, second)
  {
    SwapKeepsRow(inst, neighbors, materialized, s, first, second, c);
  }

  lemma CandidatesApart(inst: Instance, s: State, first: int, second: int, c: nat)
    requires StateOk(inst, s) && c < |inst.rows|
    requires Candidate(inst.rows[c], s.soln, first, true) && Candidate(inst.rows[c], s.soln, second, false)
    ensures 1 <= first <= inst.vars && 1 <= second <= inst.vars && first != second
  {
  }

  // A variable that may be picked after the weights have grown.
  ghost predicate Pickable(r: Row, soln: seq<bool>, v: int) {
    || Candidate(r, soln, v, false)
    || (Candidate(r, soln, v, true) && forall x :: !Candidate(r, soln, x, false))
  }

  // The variables of the false literals among the first n.
  ghost predicate FalseAmong(r: Row, soln: seq<bool>, n: int, unsat: seq<int>) {
    && 0 <= n <= |r.lits| && DistinctVars(r.lits) && VarsIn(r.lits, |soln| - 1)
    && (forall k :: 0 <= k < |unsat| ==> Candidate(r, soln, unsat[k], false))
    && forall k :: 0 <= k < n && (r.lits[k] > 0) != soln[Abs(r.lits[k])] ==> Abs(r.lits[k]) in unsat
  }

  lemma FalseAmongStep(r: Row, soln: seq<bool>, n: nat, unsat: seq<int>)
    requires FalseAmong(r, soln, n, unsat) && n < |r.lits|
    ensures FalseAmong(r, soln, n + 1, if (r.lits[n] > 0) != soln[Abs(r.lits[n])] then unsat + [Abs(r.lits[n])] else unsat)
  {
    LitOfAt(r.lits, n);
  }

  // Which variables may be picked.
  lemma PickableMembers(r: Row, soln: seq<bool>, unsat: seq<int>)
    requires FalseAmong(r, soln, |r.lits|, unsat)
    ensures unsat != [] ==> forall v :: Pickable(r, soln, v) <==> v in unsat
    ensures unsat == [] ==> forall v :: Pickable(r, soln, v) <==> Mentions(r.lits, v)
    ensures forall v :: v in unsat ==> !Candidate(r, soln, v, true)
  {
    forall v
      ensures Candidate(r, soln, v, false) <==> v in unsat
      ensures unsat == [] ==> (Candidate(r, soln, v, true) <==> Mentions(r.lits, v))
    {
      LitOfMentions(r.lits, v);
      if Mentions(r.lits, v) {
        var k :| 0 <= k < |r.lits| && Abs(r.lits[k]) == v;
        LitOfAt(r.lits, k);
      }
    }
    if unsat != [] {
      assert Candidate(r, soln, unsat[0], false);
    }
  }

  ghost predicate Improved(score: seq<int>, time: seq<int>, best: int, v: int, best': int)
    requires |score| == |time| && 0 <= best < |score| && 0 < v < |score|
  {
    && 0 < best' < |score| && (best' == best || best' == v)
    && !Better(score, time, v, best') && (best != 0 ==> !Better(score, time, best, best'))
  }

  lemma NoneViolated(inst: Instance, s: State)
    requires StateOk(inst, s) && s.tally.hardUnsatNb == 0
    ensures RowsSat(inst.rows, Current(s.soln))
  {
    forall c | 0 <= c < |inst.rows|
      ensures RowSat(inst.rows[c], Current(s.soln))
    {
      assert !Has(s.tally.hard, c);
    }
  }
}
