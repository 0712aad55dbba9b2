/** What a flip of one variable does to satisfied-literal counts and to the
    weighted violation, row by row. */
module Scores {
  import opened Knf

  // The assignment that cur_soln stands for.
  function Current(soln: seq<bool>): Assignment {
    x => 0 <= x < |soln| && soln[x]
  }

  // The literal of a row on variable x, or 0.
  function LitOf(lits: seq<int>, x: int): int {
    if lits == [] then 0
    else if Abs(lits[|lits| - 1]) == x then lits[|lits| - 1]
    else LitOf(lits[..|lits| - 1], x)
  }

  lemma {:induction false} LitOfMentions(lits: seq<int>, x: int)
    ensures LitOf(lits, x) != 0 ==> LitOf(lits, x) in lits && Abs(LitOf(lits, x)) == x
    ensures x != 0 ==> (Mentions(lits, x) <==> LitOf(lits, x) != 0)
  {
    if lits != [] {
      var n := |lits| - 1;
      LitOfMentions(lits[..n], x);
      if Mentions(lits, x) && Abs(lits[n]) != x {
        var j :| 0 <= j < |lits| && Abs(lits[j]) == x;
        assert lits[..n][j] == lits[j];
      }
    }
  }

  lemma {:induction false} LitOfAt(lits: seq<int>, j: nat)
    requires DistinctVars(lits) && j < |lits|
    ensures LitOf(lits, Abs(lits[j])) == lits[j]
    ensures lits[j] != 0 ==> LitOf(lits[..j], Abs(lits[j])) == 0
  {
    if j < |lits| - 1 {
      LitOfAt(lits[..|lits| - 1], j);
      assert lits[..|lits| - 1][..j] == lits[..j];
    }
    if lits[j] != 0 {
      LitOfMentions(lits[..j], Abs(lits[j]));
      assert !Mentions(lits[..j], Abs(lits[j]));
    }
  }

  // violation_make_contribution
  function MakeContribution(weight: int, gap: int): int {
    if gap > 0 then weight else 0
  }

  // clause_score_contribution
  function Contribution(litTrue: bool, satCount: int, threshold: int, weight: int): int {
    if satCount < threshold then
      if litTrue then -weight else MakeContribution(weight, threshold - satCount)
    else if litTrue && satCount == threshold then -MakeContribution(weight, 1)
    else 0
  }

  // What row r with k true literals adds to the score of x, whose value is b.
  function Share(r: Row, weight: int, k: int, x: int, b: bool): int {
    var l := LitOf(r.lits, x);
    if l == 0 then 0 else Contribution((l > 0) == b, k, r.degree, weight)
  }

  // The score of x from scratch: the shares of the first n rows.
  function ScoreUpTo(rows: seq<Row>, weight: seq<int>, counts: seq<int>, x: int, b: bool, n: nat): int
    requires n <= |rows| == |weight| == |counts|
  {
    if n == 0 then 0
    else ScoreUpTo(rows, weight, counts, x, b, n - 1) + Share(rows[n - 1], weight[n - 1], counts[n - 1], x, b)
  }

  function ScoreOf(rows: seq<Row>, weight: seq<int>, counts: seq<int>, x: int, b: bool): int
    requires |rows| == |weight| == |counts|
  {
    ScoreUpTo(rows, weight, counts, x, b, |rows|)
  }

  function Gap(r: Row, k: int): int {
    if k < r.degree then r.degree - k else 0
  }

  // The weighted violation of the first n rows.
  function Violation(rows: seq<Row>, weight: seq<int>, counts: seq<int>, n: nat): int
    requires n <= |rows| == |weight| == |counts|
  {
    if n == 0 then 0
    else Violation(rows, weight, counts, n - 1) + weight[n - 1] * Gap(rows[n - 1], counts[n - 1])
  }

  // How the count of a row changes when the variable of l stops being b.
  function Toggle(l: int, b: bool): int {
    if l == 0 then 0 else if (l > 0) == b then -1 else 1
  }

  ghost predicate Toggled(rows: seq<Row>, counts: seq<int>, counts': seq<int>, x: int, b: bool) {
    |counts| == |counts'| == |rows| &&
    forall c :: 0 <= c < |rows| ==> counts'[c] == counts[c] + Toggle(LitOf(rows[c].lits, x), b)
  }

  // The score of x is exactly the violation before minus after its flip.
  lemma {:induction false} ScoreIsViolationChange(rows: seq<Row>, weight: seq<int>, counts: seq<int>, counts': seq<int>,
                                                  x: int, b: bool, n: nat)
    requires n <= |rows| == |weight| && Toggled(rows, counts, counts', x, b)
    ensures ScoreUpTo(rows, weight, counts, x, b, n)
         == Violation(rows, weight, counts, n) - Violation(rows, weight, counts', n)
  {
    if n > 0 {
      ScoreIsViolationChange(rows, weight, counts, counts', x, b, n - 1);
      ShareIsGapChange(rows[n - 1], weight[n - 1], counts[n - 1], x, b);
    }
  }

  lemma ShareIsGapChange(r: Row, weight: int, k: int, x: int, b: bool)
    ensures Share(r, weight, k, x, b)
         == weight * Gap(r, k) - weight * Gap(r, k + Toggle(LitOf(r.lits, x), b))
  {
    var g, g' := Gap(r, k), Gap(r, k + Toggle(LitOf(r.lits, x), b));
    assert weight * g - weight * g' == weight * (g - g');
  }

  // Flipping back undoes the change, so the score of x changes its sign.
  lemma FlipNegatesScore(rows: seq<Row>, weight: seq<int>, counts: seq<int>, counts': seq<int>, x: int, b: bool)
    requires |rows| == |weight| && Toggled(rows, counts, counts', x, b)
    ensures ScoreOf(rows, weight, counts', x, !b) == -ScoreOf(rows, weight, counts, x, b)
  {
    ScoreIsViolationChange(rows, weight, counts, counts', x, b, |rows|);
    ScoreIsViolationChange(rows, weight, counts', counts, x, !b, |rows|);
  }

  // One row counted or weighted differently changes the score by its share.
  lemma {:induction false} ScoreOneRow(rows: seq<Row>, weight: seq<int>, counts: seq<int>, weight': seq<int>, counts': seq<int>,
                                       x: int, b: bool, c: nat, n: nat)
    requires n <= |rows| == |weight| == |counts| == |weight'| == |counts'| && c < |rows|
    requires forall d :: 0 <= d < |rows| && d != c ==> weight'[d] == weight[d] && counts'[d] == counts[d]
    ensures ScoreUpTo(rows, weight', counts', x, b, n) - ScoreUpTo(rows, weight, counts, x, b, n)
         == if c < n then Share(rows[c], weight'[c], counts'[c], x, b) - Share(rows[c], weight[c], counts[c], x, b) else 0
  {
    if n > 0 {
      ScoreOneRow(rows, weight, counts, weight', counts', x, b, c, n - 1);
    }
  }

  // Rows without x may change as they like.
  lemma {:induction false} ScoreOtherRows(rows: seq<Row>, weight: seq<int>, counts: seq<int>, counts': seq<int>,
                                          x: int, b: bool, n: nat)
    requires n <= |rows| == |weight| == |counts| == |counts'|
    requires forall c :: 0 <= c < |rows| && LitOf(rows[c].lits, x) != 0 ==> counts'[c] == counts[c]
    ensures ScoreUpTo(rows, weight, counts', x, b, n) == ScoreUpTo(rows, weight, counts, x, b, n)
  {
    if n > 0 {
      ScoreOtherRows(rows, weight, counts, counts', x, b, n - 1);
    }
  }

  ghost predicate TrueCounts(rows: seq<Row>, counts: seq<int>, soln: seq<bool>) {
    |counts| == |rows| && forall c :: 0 <= c < |rows| ==> counts[c] == Count(rows[c].lits, Current(soln))
  }

  ghost predicate Plain(rows: seq<Row>, vars: int) {
    forall c :: 0 <= c < |rows| ==> DistinctVars(rows[c].lits) && VarsIn(rows[c].lits, vars) && rows[c].degree >= 1 && |rows[c].lits| >= 1
  }

  lemma FlipCount(lits: seq<int>, soln: seq<bool>, x: int)
    requires DistinctVars(lits) && VarsIn(lits, |soln| - 1) && 1 <= x < |soln|
    ensures Count(lits, Current(soln[x := !soln[x]])) == Count(lits, Current(soln)) + Toggle(LitOf(lits, x), soln[x])
  {
    var a, a' := Current(soln), Current(soln[x := !soln[x]]);
    var l := LitOf(lits, x);
    LitOfMentions(lits, x);
    if l == 0 {
      CountAgree(lits, a, a');
    } else {
      CountPivot(lits, l, a);
      CountPivot(lits, l, a');
      CountAgree(Keep(lits, {x}), a, a');
    }
  }

  // Toggled counts stay true counts.
  lemma FlipTrueCounts(rows: seq<Row>, counts: seq<int>, counts': seq<int>, soln: seq<bool>, x: int)
    requires Plain(rows, |soln| - 1) && 1 <= x < |soln| && TrueCounts(rows, counts, soln)
    requires Toggled(rows, counts, counts', x, soln[x])
    ensures TrueCounts(rows, counts', soln[x := !soln[x]])
  {
    forall c | 0 <= c < |rows|
      ensures counts'[c] == Count(rows[c].lits, Current(soln[x := !soln[x]]))
    {
      FlipCount(rows[c].lits, soln, x);
    }
  }

  // With positive weights the violation is zero exactly for models.
  lemma {:induction false} NoViolation(rows: seq<Row>, weight: seq<int>, counts: seq<int>, n: nat)
    requires n <= |rows| == |weight| == |counts| && forall c :: 0 <= c < |rows| ==> weight[c] >= 1
    ensures Violation(rows, weight, counts, n) >= 0
    ensures Violation(rows, weight, counts, n) == 0 <==> forall c :: 0 <= c < n ==> counts[c] >= rows[c].degree
  {
    if n > 0 {
      NoViolation(rows, weight, counts, n - 1);
      var g := Gap(rows[n - 1], counts[n - 1]);
      assert g > 0 ==> weight[n - 1] * g >= 1;
    }
  }
}
