/** Clauses over literals, and extending an assignment to fresh variables. */
module Clauses {
  import opened Knf

  ghost predicate ClauseSat(c: seq<int>, a: Assignment) {
    exists i :: 0 <= i < |c| && Holds(c[i], a)
  }

  ghost predicate ClausesSat(cs: seq<seq<int>>, a: Assignment) {
    forall i :: 0 <= i < |cs| ==> ClauseSat(cs[i], a)
  }

  lemma ClausesConcat(x: seq<seq<int>>, y: seq<seq<int>>, a: Assignment)
    ensures ClausesSat(x + y, a) <==> ClausesSat(x, a) && ClausesSat(y, a)
  {
    assert forall i :: 0 <= i < |x| ==> (x + y)[i] == x[i];
    assert forall i :: 0 <= i < |y| ==> (x + y)[|x| + i] == y[i];
    if ClausesSat(x + y, a) {
      forall i | 0 <= i < |y|
        ensures ClauseSat(y[i], a)
      {
        assert ClauseSat((x + y)[|x| + i], a);
      }
    }
  }

  lemma ClausesSnoc(cs: seq<seq<int>>, c: seq<int>)
    ensures forall a :: ClausesSat(cs + [c], a) <==> ClausesSat(cs, a) && ClauseSat(c, a)
  {
    forall a: Assignment
      ensures ClausesSat(cs + [c], a) <==> ClausesSat(cs, a) && ClauseSat(c, a)
    {
      ClausesConcat(cs, [c], a);
      assert [c][0] == c;
    }
  }

  lemma UnitClause(x: int)
    ensures forall a :: ClauseSat([x], a) <==> Holds(x, a)
  {
    assert [x][0] == x;
  }

  lemma TwoLiterals(x: int, y: int)
    ensures forall a :: ClauseSat([x, y], a) <==> Holds(x, a) || Holds(y, a)
  {
    assert [x, y][0] == x && [x, y][1] == y;
  }

  lemma TernaryClause(x: int, y: int, z: int)
    ensures forall a :: ClauseSat([x, y, z], a) <==> Holds(x, a) || Holds(y, a) || Holds(z, a)
  {
    assert [x, y, z][0] == x && [x, y, z][1] == y && [x, y, z][2] == z;
  }

  // Literals on variables below n.
  ghost predicate Below(lits: seq<int>, n: int) {
    forall i :: 0 <= i < |lits| ==> 1 <= Abs(lits[i]) < n
  }

  ghost predicate ClausesBelow(cs: seq<seq<int>>, n: int) {
    forall i :: 0 <= i < |cs| ==> Below(cs[i], n)
  }

  // A variable occurs in the clauses.
  ghost predicate Occurs(v: int, cs: seq<seq<int>>) {
    exists i :: 0 <= i < |cs| && (v in cs[i] || -v in cs[i])
  }

  // The clauses use up the variables from n on until m: none beyond, and the
  // last one occurs.
  ghost predicate UsesUp(cs: seq<seq<int>>, n: int, m: int) {
    n <= m && ClausesBelow(cs, m) && (n < m ==> Occurs(m - 1, cs))
  }

  lemma OccursMore(v: int, x: seq<seq<int>>, y: seq<seq<int>>)
    requires Occurs(v, y)
    ensures Occurs(v, x + y)
  {
    var i :| 0 <= i < |y| && (v in y[i] || -v in y[i]);
    assert (x + y)[|x| + i] == y[i];
  }

  ghost predicate AgreeBelow(a: Assignment, b: Assignment, n: int) {
    forall x :: x < n ==> a(x) == b(x)
  }

  // a can be changed from variable n on so as to satisfy the clauses.
  ghost predicate Extends(cs: seq<seq<int>>, a: Assignment, n: int) {
    exists b :: AgreeBelow(a, b, n) && ClausesSat(cs, b)
  }

  lemma CountBelow(lits: seq<int>, a: Assignment, b: Assignment, n: int)
    requires Below(lits, n) && AgreeBelow(a, b, n)
    ensures Count(lits, a) == Count(lits, b)
  {
    CountAgree(lits, a, b);
  }

  lemma SatBelow(cs: seq<seq<int>>, a: Assignment, b: Assignment, n: int)
    requires ClausesBelow(cs, n) && AgreeBelow(a, b, n) && ClausesSat(cs, a)
    ensures ClausesSat(cs, b)
  {
    forall i | 0 <= i < |cs|
      ensures ClauseSat(cs[i], b)
    {
      assert Below(cs[i], n);
      var k :| 0 <= k < |cs[i]| && Holds(cs[i][k], a);
      assert Holds(cs[i][k], b);
    }
  }

  // Clauses with fresh variables of their own constrain the others as if the
  // clauses before them were not there.
  lemma FreshConcat(x: seq<seq<int>>, y: seq<seq<int>>, n: int, m: int, row: Row)
    requires n <= m && ClausesBelow(x, m) && Below(row.lits, n)
    requires forall a :: Extends(y, a, m) <==> RowSat(row, a)
    ensures forall a :: Extends(x + y, a, n) <==> Extends(x, a, n) && RowSat(row, a)
  {
    forall a: Assignment
      ensures Extends(x + y, a, n) <==> Extends(x, a, n) && RowSat(row, a)
    {
      if Extends(x + y, a, n) {
        var b :| AgreeBelow(a, b, n) && ClausesSat(x + y, b);
        ClausesConcat(x, y, b);
        assert AgreeBelow(b, b, m) && Extends(y, b, m);
        CountBelow(row.lits, a, b, n);
      }
      if Extends(x, a, n) && RowSat(row, a) {
        var b :| AgreeBelow(a, b, n) && ClausesSat(x, b);
        CountBelow(row.lits, a, b, n);
        assert Extends(y, b, m);
        var c :| AgreeBelow(b, c, m) && ClausesSat(y, c);
        SatBelow(x, b, c, m);
        ClausesConcat(x, y, c);
        assert AgreeBelow(a, c, n);
      }
    }
  }
}
