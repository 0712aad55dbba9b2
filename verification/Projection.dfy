/** Why eliminating a variable from cardinality rows is sound: resolvents of
    all parent pairs, together with the tight-tail condition, are exactly the
    projection of the parents onto the other variables. */
module Projection {
  import opened Knf

  function Residual(r: Row, v: int): seq<int> {
    Keep(r.lits, {v})
  }

  // What the resolvent of `p` (containing v) and `n` (containing -v) demands.
  ghost predicate ResolventHolds(p: Row, n: Row, v: int, a: Assignment) {
    Count(Residual(p, v), a) + Count(Residual(n, v), a) >= p.degree + n.degree - 1
  }

  ghost predicate Parent(r: Row, l: int) {
    l in r.lits && DistinctVars(r.lits) && r.degree >= 1
  }

  ghost predicate Parents(rows: seq<Row>, l: int) {
    forall i :: 0 <= i < |rows| ==> Parent(rows[i], l)
  }

  ghost predicate AllResolventsHold(ps: seq<Row>, ns: seq<Row>, v: int, a: Assignment) {
    forall i, j :: 0 <= i < |ps| && 0 <= j < |ns| ==> ResolventHolds(ps[i], ns[j], v, a)
  }

  predicate AllClauses(rows: seq<Row>) {
    forall i :: 0 <= i < |rows| ==> rows[i].degree == 1
  }

  // Some row needs all of its literals but at most one (`has_tight_*_tail`).
  predicate HasTightTail(rows: seq<Row>) {
    exists i :: 0 <= i < |rows| && rows[i].degree >= |rows[i].lits| - 1
  }

  // With the pivot literal true (false) a parent needs degree - 1 (degree)
  // literals of its residual.
  lemma ParentSat(r: Row, l: int, a: Assignment, b: bool)
    requires Parent(r, l)
    ensures RowSat(r, Set(a, Abs(l), b))
       <==> Count(Residual(r, Abs(l)), a) + ToInt(b == (l > 0)) >= r.degree
  {
    CountPivot(r.lits, l, Set(a, Abs(l), b));
    CountSetOther(Residual(r, Abs(l)), a, Abs(l), b);
  }

  lemma ResolventImplied(p: Row, n: Row, v: int, a: Assignment)
    requires v > 0 && Parent(p, v) && Parent(n, -v)
    requires RowSat(p, a) && RowSat(n, a)
    ensures ResolventHolds(p, n, v, a)
  {
    CountPivot(p.lits, v, a);
    CountPivot(n.lits, -v, a);
  }

  // A tight parent on the other side forces every residual up to degree - 1.
  lemma ResidualForced(r: Row, other: Row, v: int, a: Assignment)
    requires Count(Residual(r, v), a) + Count(Residual(other, v), a) >= r.degree + other.degree - 1
    requires other.degree >= |other.lits| - 1
    requires |Residual(other, v)| == |other.lits| - 1
    ensures Count(Residual(r, v), a) + 1 >= r.degree
  {
    CountBound(Residual(other, v), a);
  }

  // A tight row among `others` forces the residual of `r`.
  lemma TightTailForces(r: Row, others: seq<Row>, l: int, a: Assignment)
    requires l != 0 && Parents(others, -l) && HasTightTail(others)
    requires forall j :: 0 <= j < |others| ==>
      Count(Residual(r, Abs(l)), a) + Count(Residual(others[j], Abs(l)), a) >= r.degree + others[j].degree - 1
    ensures Count(Residual(r, Abs(l)), a) + 1 >= r.degree
  {
    var j :| 0 <= j < |others| && others[j].degree >= |others[j].lits| - 1;
    CountPivot(others[j].lits, -l, a);
    ResidualForced(r, others[j], Abs(l), a);
  }

  lemma PositiveResiduals(ps: seq<Row>, ns: seq<Row>, v: int, a: Assignment)
    requires v > 0 && Parents(ps, v) && Parents(ns, -v)
    requires AllClauses(ps) || HasTightTail(ns)
    requires AllResolventsHold(ps, ns, v, a)
    ensures RowsSat(ps, Set(a, v, true))
  {
    forall i | 0 <= i < |ps|
      ensures RowSat(ps[i], Set(a, v, true))
    {
      ParentSat(ps[i], v, a, true);
      if !AllClauses(ps) {
        assert forall j :: 0 <= j < |ns| ==> ResolventHolds(ps[i], ns[j], v, a);
        TightTailForces(ps[i], ns, v, a);
      }
    }
  }

  lemma NegativeResiduals(ps: seq<Row>, ns: seq<Row>, v: int, a: Assignment)
    requires v > 0 && Parents(ps, v) && Parents(ns, -v)
    requires AllClauses(ns) || HasTightTail(ps)
    requires AllResolventsHold(ps, ns, v, a)
    ensures RowsSat(ns, Set(a, v, false))
  {
    forall j | 0 <= j < |ns|
      ensures RowSat(ns[j], Set(a, v, false))
    {
      ParentSat(ns[j], -v, a, false);
      if !AllClauses(ns) {
        assert forall i :: 0 <= i < |ps| ==> ResolventHolds(ps[i], ns[j], v, a);
        TightTailForces(ns[j], ps, -v, a);
      }
    }
  }

  ghost predicate ParentsSat(ps: seq<Row>, ns: seq<Row>, a: Assignment) {
    RowsSat(ps, a) && RowsSat(ns, a)
  }

  lemma ResolventSatisfied(p: Row, n: Row, v: int, a: Assignment, b: bool)
    requires v > 0 && Parent(p, v) && Parent(n, -v)
    requires RowSat(p, Set(a, v, b)) && RowSat(n, Set(a, v, b))
    ensures ResolventHolds(p, n, v, a)
  {
    ResolventImplied(p, n, v, Set(a, v, b));
    CountPivot(p.lits, v, a);
    CountPivot(n.lits, -v, a);
    CountSetOther(Residual(p, v), a, v, b);
    CountSetOther(Residual(n, v), a, v, b);
  }

  lemma ParentsImplyResolvents(ps: seq<Row>, ns: seq<Row>, v: int, a: Assignment, b: bool)
    requires v > 0 && Parents(ps, v) && Parents(ns, -v)
    requires ParentsSat(ps, ns, Set(a, v, b))
    ensures AllResolventsHold(ps, ns, v, a)
  {
    forall i, j | 0 <= i < |ps| && 0 <= j < |ns|
      ensures ResolventHolds(ps[i], ns[j], v, a)
    {
      ResolventSatisfied(ps[i], ns[j], v, a, b);
    }
  }

  // A row that fails although its pivot literal is false cannot meet a row
  // that fails on the other side.
  lemma NotBothShort(p: Row, n: Row, v: int, a: Assignment)
    requires v > 0 && Parent(p, v) && Parent(n, -v)
    requires ResolventHolds(p, n, v, a)
    ensures RowSat(p, Set(a, v, false)) || RowSat(n, Set(a, v, true))
  {
    ParentSat(n, -v, a, true);
    ParentSat(p, v, a, false);
  }

  // The parents can be satisfied by choosing v exactly when every pairwise
  // resolvent holds, provided the guard of the elimination is met.
  lemma ParentsProject(ps: seq<Row>, ns: seq<Row>, v: int, a: Assignment)
    requires v > 0 && Parents(ps, v) && Parents(ns, -v)
    requires AllClauses(ps) || HasTightTail(ns)
    requires AllClauses(ns) || HasTightTail(ps)
    ensures AllResolventsHold(ps, ns, v, a)
       <==> ParentsSat(ps, ns, Set(a, v, true)) || ParentsSat(ps, ns, Set(a, v, false))
  {
    if AllResolventsHold(ps, ns, v, a) {
      PositiveResiduals(ps, ns, v, a);
      NegativeResiduals(ps, ns, v, a);
      if !RowsSat(ns, Set(a, v, true)) {
        var j :| 0 <= j < |ns| && !RowSat(ns[j], Set(a, v, true));
        forall i | 0 <= i < |ps|
          ensures RowSat(ps[i], Set(a, v, false))
        {
          assert ResolventHolds(ps[i], ns[j], v, a);
          NotBothShort(ps[i], ns[j], v, a);
        }
      }
    } else {
      if ParentsSat(ps, ns, Set(a, v, true)) { ParentsImplyResolvents(ps, ns, v, a, true); }
      if ParentsSat(ps, ns, Set(a, v, false)) { ParentsImplyResolvents(ps, ns, v, a, false); }
    }
  }

  // The tight-tail guard is what makes the parents removable: without it all
  // resolvents can hold while no value of the pivot satisfies the parents.
  lemma GuardIsNeeded()
    ensures var ps := [Row([1, 2, 3, 4], 2)];
            var ns := [Row([-1, 5, 6, 7], 2)];
            var a: Assignment := x => 5 <= x;
            && Parents(ps, 1) && Parents(ns, -1)
            && AllResolventsHold(ps, ns, 1, a)
            && !ParentsSat(ps, ns, Set(a, 1, true)) && !ParentsSat(ps, ns, Set(a, 1, false))
  {
    var p, n := Row([1, 2, 3, 4], 2), Row([-1, 5, 6, 7], 2);
    var a: Assignment := x => 5 <= x;
    CountFour(1, 2, 3, 4, Set(a, 1, true));
    CountFour(1, 2, 3, 4, Set(a, 1, false));
    CountFour(1, 2, 3, 4, a);
    CountFour(-1, 5, 6, 7, a);
    CountPivot(p.lits, 1, a);
    CountPivot(n.lits, -1, a);
    assert !RowSat([p][0], Set(a, 1, true)) && !RowSat([p][0], Set(a, 1, false));
  }

  lemma CountFour(w: int, x: int, y: int, z: int, a: Assignment)
    ensures Count([w, x, y, z], a)
         == ToInt(Holds(w, a)) + ToInt(Holds(x, a)) + ToInt(Holds(y, a)) + ToInt(Holds(z, a))
  {
    CountSnoc([], w, a);
    CountSnoc([w], x, a);
    CountSnoc([w, x], y, a);
    CountSnoc([w, x, y], z, a);
    assert [] + [w] == [w] && [w] + [x] == [w, x];
    assert [w, x] + [y] == [w, x, y] && [w, x, y] + [z] == [w, x, y, z];
  }
}
