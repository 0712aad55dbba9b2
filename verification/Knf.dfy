/** KNF formulas: rows "at least `degree` of these literals are true", their
    meaning under a total assignment, and how a row splits when some of its
    variables are taken out. A literal is a non-zero integer, as in DIMACS. */
module Knf {

  type Assignment = int -> bool

  datatype Row = Row(lits: seq<int>, degree: int)

  function Abs(l: int): nat {
    if l < 0 then -l else l
  }

  function Sign(l: int): int {
    if l > 0 then 1 else -1
  }

  function ToInt(b: bool): nat {
    if b then 1 else 0
  }

  predicate Holds(l: int, a: Assignment) {
    if l > 0 then a(l) else !a(-l)
  }

  function Count(lits: seq<int>, a: Assignment): nat {
    if lits == [] then 0
    else Count(lits[..|lits| - 1], a) + ToInt(Holds(lits[|lits| - 1], a))
  }

  predicate RowSat(r: Row, a: Assignment) {
    Count(r.lits, a) >= r.degree
  }

  ghost predicate RowsSat(rows: seq<Row>, a: Assignment) {
    forall i :: 0 <= i < |rows| ==> RowSat(rows[i], a)
  }

  // The rows that have not been marked in `clause_delete`.
  ghost predicate LiveSat(rows: seq<Row>, deleted: seq<bool>, a: Assignment)
    requires |rows| == |deleted|
  {
    forall i :: 0 <= i < |rows| && !deleted[i] ==> RowSat(rows[i], a)
  }

  ghost predicate VarsIn(lits: seq<int>, vars: int) {
    forall j :: 0 <= j < |lits| ==> 1 <= Abs(lits[j]) <= vars
  }

  ghost predicate DistinctVars(lits: seq<int>) {
    forall i, j :: 0 <= i < j < |lits| ==> Abs(lits[i]) != Abs(lits[j])
  }

  ghost predicate Mentions(lits: seq<int>, v: int) {
    exists j :: 0 <= j < |lits| && Abs(lits[j]) == v
  }

  function Set(a: Assignment, v: int, b: bool): Assignment {
    x => if x == v then b else a(x)
  }

  // The literals of `lits` whose variable is outside `s`, in order.
  function Keep(lits: seq<int>, s: set<int>): seq<int> {
    if lits == [] then []
    else
      var rest := Keep(lits[..|lits| - 1], s);
      var l := lits[|lits| - 1];
      if Abs(l) in s then rest else rest + [l]
  }

  // The literals of `lits` whose variable is inside `s`, in order.
  function Only(lits: seq<int>, s: set<int>): seq<int> {
    if lits == [] then []
    else
      var rest := Only(lits[..|lits| - 1], s);
      var l := lits[|lits| - 1];
      if Abs(l) in s then rest + [l] else rest
  }

  lemma CountSnoc(lits: seq<int>, l: int, a: Assignment)
    ensures Count(lits + [l], a) == Count(lits, a) + ToInt(Holds(l, a))
  {
    assert (lits + [l])[..|lits|] == lits;
  }

  lemma {:induction false} CountConcat(x: seq<int>, y: seq<int>, a: Assignment)
    ensures Count(x + y, a) == Count(x, a) + Count(y, a)
  {
    if y == [] {
      assert x + y == x;
    } else {
      var n := |y| - 1;
      CountConcat(x, y[..n], a);
      assert (x + y)[..|x + y| - 1] == x + y[..n];
    }
  }

  lemma {:induction false} CountBound(lits: seq<int>, a: Assignment)
    ensures Count(lits, a) <= |lits|
  {
    if lits != [] {
      CountBound(lits[..|lits| - 1], a);
    }
  }

  lemma {:induction false} CountSplit(lits: seq<int>, s: set<int>, a: Assignment)
    ensures Count(lits, a) == Count(Keep(lits, s), a) + Count(Only(lits, s), a)
  {
    if lits != [] {
      var n := |lits| - 1;
      CountSplit(lits[..n], s, a);
      CountSnoc(Keep(lits[..n], s), lits[n], a);
      CountSnoc(Only(lits[..n], s), lits[n], a);
    }
  }

  lemma {:induction false} HeldCounts(lits: seq<int>, l: int, a: Assignment)
    requires l in lits && Holds(l, a)
    ensures Count(lits, a) >= 1
  {
    var n := |lits| - 1;
    if lits[n] != l {
      assert lits == lits[..n] + [lits[n]];
      HeldCounts(lits[..n], l, a);
    }
  }

  // Two assignments that agree on the variables of a row agree on its count.
  lemma {:induction false} CountAgree(lits: seq<int>, a: Assignment, b: Assignment)
    requires forall j :: 0 <= j < |lits| ==> a(Abs(lits[j])) == b(Abs(lits[j]))
    ensures Count(lits, a) == Count(lits, b)
  {
    if lits != [] {
      CountAgree(lits[..|lits| - 1], a, b);
      assert a(Abs(lits[|lits| - 1])) == b(Abs(lits[|lits| - 1]));
    }
  }

  lemma CountSetOther(lits: seq<int>, a: Assignment, v: int, b: bool)
    requires !Mentions(lits, v)
    ensures Count(lits, Set(a, v, b)) == Count(lits, a)
  {
    CountAgree(lits, Set(a, v, b), a);
  }

  lemma {:induction false} KeepMembers(lits: seq<int>, s: set<int>)
    ensures |Keep(lits, s)| + |Only(lits, s)| == |lits|
    ensures forall l :: l in Keep(lits, s) <==> l in lits && Abs(l) !in s
    ensures forall l :: l in Only(lits, s) <==> l in lits && Abs(l) in s
  {
    if lits != [] {
      var n := |lits| - 1;
      KeepMembers(lits[..n], s);
      assert lits == lits[..n] + [lits[n]];
    }
  }

  lemma KeepMember(lits: seq<int>, s: set<int>, l: int)
    ensures l in Keep(lits, s) <==> l in lits && Abs(l) !in s
  {
    KeepMembers(lits, s);
  }

  lemma DistinctSnoc(lits: seq<int>, l: int)
    requires DistinctVars(lits) && l !in lits && -l !in lits
    ensures DistinctVars(lits + [l])
  {
    forall j | 0 <= j < |lits|
      ensures Abs(lits[j]) != Abs(l)
    {
      assert lits[j] in lits;
    }
  }

  lemma {:induction false} KeepDistinct(lits: seq<int>, s: set<int>)
    requires DistinctVars(lits)
    ensures DistinctVars(Keep(lits, s))
  {
    if lits != [] {
      var n := |lits| - 1;
      KeepDistinct(lits[..n], s);
      KeepMembers(lits[..n], s);
      var k := Keep(lits[..n], s);
      forall j | 0 <= j < |k|
        ensures Abs(k[j]) != Abs(lits[n])
      {
        assert k[j] in k;
      }
    }
  }

  lemma KeepSnoc(lits: seq<int>, l: int, s: set<int>)
    ensures Keep(lits + [l], s) == if Abs(l) in s then Keep(lits, s) else Keep(lits, s) + [l]
    ensures Only(lits + [l], s) == if Abs(l) in s then Only(lits, s) + [l] else Only(lits, s)
  {
    assert (lits + [l])[..|lits|] == lits;
  }

  lemma {:induction false} KeepAll(lits: seq<int>, s: set<int>)
    requires forall j :: 0 <= j < |lits| ==> Abs(lits[j]) !in s
    ensures Keep(lits, s) == lits && Only(lits, s) == []
  {
    if lits != [] {
      KeepAll(lits[..|lits| - 1], s);
      assert lits == lits[..|lits| - 1] + [lits[|lits| - 1]];
    }
  }

  // A row in which `l` is the only literal on its variable.
  lemma {:induction false} OnlyPivot(lits: seq<int>, l: int)
    requires DistinctVars(lits) && l in lits
    ensures Only(lits, {Abs(l)}) == [l]
  {
    var n := |lits| - 1;
    assert lits == lits[..n] + [lits[n]];
    if lits[n] == l {
      KeepAll(lits[..n], {Abs(l)});
    } else {
      OnlyPivot(lits[..n], l);
    }
  }

  // Taking the pivot out of a row leaves its residual and one literal.
  lemma CountPivot(lits: seq<int>, l: int, a: Assignment)
    requires DistinctVars(lits) && l in lits
    ensures Count(lits, a) == Count(Keep(lits, {Abs(l)}), a) + ToInt(Holds(l, a))
    ensures |Keep(lits, {Abs(l)})| == |lits| - 1
    ensures !Mentions(Keep(lits, {Abs(l)}), Abs(l))
  {
    CountSplit(lits, {Abs(l)}, a);
    OnlyPivot(lits, l);
    CountSnoc([], l, a);
    assert [] + [l] == [l];
    KeepMembers(lits, {Abs(l)});
    var k := Keep(lits, {Abs(l)});
    assert forall j :: 0 <= j < |k| ==> k[j] in k;
  }

  lemma {:induction false} SubsetSize<T>(s: set<T>, t: set<T>)
    requires s <= t
    ensures |s| <= |t|
  {
    if s != {} {
      var x :| x in s;
      SubsetSize(s - {x}, t - {x});
    }
  }

  ghost predicate Within(lits: seq<int>, c: seq<int>) {
    forall l :: l in lits ==> l in c
  }

  lemma NotBoth(c: seq<int>, l: int)
    requires DistinctVars(c) && l != 0
    ensures !(l in c && -l in c)
  {
  }

  lemma NotBefore(c: seq<int>, j: nat)
    requires DistinctVars(c) && j < |c|
    ensures c[j] !in c[..j] && -c[j] !in c[..j]
  {
    forall k | 0 <= k < j
      ensures Abs(c[..j][k]) != Abs(c[j])
    {
    }
  }

  lemma {:induction false} SetOf(x: seq<int>)
    requires DistinctVars(x)
    ensures |set l | l in x| == |x|
  {
    if x != [] {
      var n := |x| - 1;
      SetOf(x[..n]);
      NotBefore(x, n);
      assert x == x[..n] + [x[n]];
      assert (set l | l in x) == (set l | l in x[..n]) + {x[n]};
    }
  }

  lemma WithinSize(x: seq<int>, y: seq<int>)
    requires DistinctVars(x) && DistinctVars(y) && Within(x, y)
    ensures |x| <= |y| && (|x| == |y| <==> Within(y, x))
  {
    var s, t := set l | l in x, set l | l in y;
    SetOf(x);
    SetOf(y);
    SubsetSize(s, t);
    if !Within(y, x) {
      var l :| l in y && l !in x;
      SubsetSize(s, t - {l});
    } else {
      SubsetSize(t, s);
    }
  }
}
