/** The signed union-find of `binary.cpp`: every variable points to a parent
    with a sign, and roots may carry a fixed value. */
module SignedUnionFind {
  import opened Knf
  import opened RecoveryLog

  function Sgn(a: Assignment, x: int): int {
    if a(x) then 1 else -1
  }

  predicate IsSign(s: int) {
    s == 1 || s == -1
  }

  // What the structure says about an assignment: every variable agrees with
  // its root up to its sign, and fixed roots have their value.
  ghost predicate Represents(rep: seq<int>, par: seq<int>, fixed: seq<int>, a: Assignment)
    requires |rep| == |par| == |fixed|
  {
    forall x {:trigger rep[x]} :: 1 <= x < |rep| ==>
      Sgn(a, x) == par[x] * Sgn(a, rep[x]) && (fixed[x] != 0 ==> Sgn(a, x) == fixed[x])
  }

  ghost predicate Classes(rep: seq<int>, par: seq<int>, fixed: seq<int>) {
    && |rep| == |par| == |fixed|
    && (forall x :: 1 <= x < |rep| ==> 1 <= rep[x] < |rep| && rep[rep[x]] == rep[x])
    && (forall x :: 1 <= x < |rep| ==> IsSign(par[x]) && (rep[x] == x ==> par[x] == 1))
    && (forall x :: 1 <= x < |rep| ==> -1 <= fixed[x] <= 1 && (rep[x] != x ==> fixed[x] == 0))
  }

  // A singleton class without a value.
  ghost predicate Untouched(rep: seq<int>, fixed: seq<int>, x: int)
    requires |rep| == |fixed|
  {
    1 <= x < |rep| && fixed[x] == 0 && forall y :: 1 <= y < |rep| ==> (rep[y] == x <==> y == x)
  }

  // Roots, and roots without a value: what merging uses up.
  ghost function Roots(rep: seq<int>): set<int> {
    set x | 1 <= x < |rep| && rep[x] == x
  }

  ghost function FreeRoots(rep: seq<int>, fixed: seq<int>): set<int>
    requires |rep| == |fixed|
  {
    set x | 1 <= x < |rep| && rep[x] == x && fixed[x] == 0
  }

  ghost function Slack(rep: seq<int>, fixed: seq<int>): nat
    requires |rep| == |fixed|
  {
    |Roots(rep)| + |FreeRoots(rep, fixed)|
  }

  lemma AssignSlack(rep: seq<int>, fixed: seq<int>, root: int, value: int)
    requires |rep| == |fixed| && 1 <= root < |rep| && rep[root] == root && fixed[root] == 0 && value != 0
    ensures Slack(rep, fixed[root := value]) < Slack(rep, fixed)
  {
    assert FreeRoots(rep, fixed[root := value]) == FreeRoots(rep, fixed) - {root};
    assert root in FreeRoots(rep, fixed);
  }

  lemma SmallerSet(a: set<int>, b: set<int>)
    requires a <= b
    ensures |a| <= |b|
  {
    assert b == a + (b - a);
  }

  lemma LinkSlack(rep: seq<int>, fixed: seq<int>, s: int, t: int, edge: int)
    requires |rep| == |fixed| && 1 <= s < |rep| && 1 <= t < |rep| && s != t && rep[s] == s && rep[t] == t
    ensures Slack(LinkRep(rep, s, t), LinkFixed(fixed, s, t, edge)) < Slack(rep, fixed)
  {
    var rep', fixed' := LinkRep(rep, s, t), LinkFixed(fixed, s, t, edge);
    assert Roots(rep') == Roots(rep) - {s};
    assert s in Roots(rep);
    SmallerSet(FreeRoots(rep', fixed'), FreeRoots(rep, fixed));
  }

  class UnionFind {
    const vars: nat
    const f: array<int>
    const val: array<int>
    var varval: seq<int>
    var size: seq<int>
    ghost var rep: seq<int>
    ghost var par: seq<int>
    ghost var rank: seq<nat>
    ghost var height: nat

    ghost predicate Valid()
      reads this, f, val
    {
      && f != val && f.Length == val.Length == |rep| == |rank| == |size| == vars + 1
      && Classes(rep, par, varval)
      && (forall x :: 1 <= x <= vars ==> rank[x] <= height)
      && forall x :: 1 <= x <= vars ==> Edge(f[x], val[x], x, rep, par, rank)
    }

    constructor (vars: nat)
      ensures Valid() && fresh(f) && fresh(val) && this.vars == vars
      ensures forall a :: Represents(rep, par, varval, a)
      ensures forall x :: 1 <= x <= vars ==> Untouched(rep, varval, x)
    {
      this.vars := vars;
      f := new int[vars + 1](i => i);
      val := new int[vars + 1](i => 1);
      varval, size := Repeat(0, vars + 1), Repeat(1, vars + 1);
      rep, par := seq(vars + 1, i => i), Repeat(1, vars + 1);
      rank, height := seq(vars + 1, i => 0), 0;
    }

    // The first loop of `find`: walk up, multiplying the signs on the way.
    method FindRoot(x: int) returns (root: int, orientation: int)
      requires Valid() && 1 <= x <= vars
      ensures root == rep[x] && 1 <= root <= vars && f[root] == root && orientation == par[x]
    {
      root, orientation := x, 1;
      while f[root] != root
        invariant 1 <= root <= vars && rep[root] == rep[x]
        invariant IsSign(orientation) && orientation * par[root] == par[x]
        decreases height - rank[root]
      {
        assert Edge(f[root], val[root], root, rep, par, rank);
        SignsCompose(orientation, val[root], par[f[root]]);
        orientation := orientation * val[root];
        root := f[root];
      }
      assert Edge(f[root], val[root], root, rep, par, rank);
    }

    // find: the root, with the path compressed onto it; afterwards val[x] is
    // the sign of x relative to its root.
    method Find(x: int) returns (root: int)
      requires Valid() && 1 <= x <= vars
      modifies f, val
      ensures Valid()
      ensures root == rep[x] == f[x] && val[x] == par[x]
      ensures forall z :: 1 <= z <= vars && old(f[z]) == rep[z] ==> f[z] == rep[z]
    {
      var orientation;
      root, orientation := FindRoot(x);
      var current := x;
      var prefix := 1;
      while f[current] != current
        invariant Valid() && 1 <= current <= vars && rep[current] == root && f[root] == root
        invariant IsSign(prefix) && par[current] == orientation * prefix
        invariant current != x ==> f[x] == root && val[x] == par[x]
        invariant forall z :: 1 <= z <= vars && old(f[z]) == rep[z] ==> f[z] == rep[z]
        decreases height - rank[current]
      {
        var parent, edge := f[current], val[current];
        assert Edge(parent, edge, current, rep, par, rank);
        assert Edge(f[root], val[root], root, rep, par, rank);
        RankBelow(current);
        SignsCompose(prefix, edge, par[parent]);
        SignsSquare(edge, prefix, orientation, par[parent]);
        f[current] := root;
        val[current] := orientation * prefix;
        prefix := prefix * edge;
        current := parent;
      }
      assert Edge(f[current], val[current], current, rep, par, rank);
    }

    // Ranks grow along the way to the root.
    lemma RankBelow(x: int)
      requires Valid() && 1 <= x <= vars && f[x] != x
      ensures rank[x] < rank[rep[x]]
      decreases height - rank[x]
    {
      assert Edge(f[x], val[x], x, rep, par, rank);
      if f[f[x]] != f[x] {
        RankBelow(f[x]);
      } else {
        assert Edge(f[f[x]], val[f[x]], f[x], rep, par, rank);
      }
    }

    // assign_value: x must take the sign `wanted`.
    method AssignValue(x: int, wanted: int) returns (ok: bool, changed: bool)
      requires Valid() && 1 <= x <= vars && IsSign(wanted)
      modifies f, val, this`varval
      ensures Valid()
      ensures ok ==> forall a :: Represents(rep, par, varval, a) <==>
        Represents(rep, par, old(varval), a) && Sgn(a, x) == wanted
      ensures !ok ==> forall a :: !(Represents(rep, par, old(varval), a) && Sgn(a, x) == wanted)
      ensures if changed then ok && Slack(rep, varval) < old(Slack(rep, varval)) else varval == old(varval)
      ensures forall z :: z != x && Untouched(rep, old(varval), z) ==> Untouched(rep, varval, z)
    {
      var root := Find(x);
      var value := wanted * val[x];
      SignsCancel(wanted, par[x]);
      changed := varval[root] == 0;
      if changed {
        AssignMeaning(rep, par, varval, x, wanted);
        AssignSlack(rep, varval, root, value);
        varval := varval[root := value];
        ok := true;
      } else {
        ok := varval[root] == value;
        AssignKnown(rep, par, varval, x, wanted);
      }
    }

    // Make root s point to root t, with Sgn(s) == edge * Sgn(t).
    method Link(s: int, t: int, edge: int)
      requires Valid() && 1 <= s <= vars && 1 <= t <= vars && s != t && rep[s] == s && rep[t] == t && IsSign(edge)
      requires varval[s] != 0 && varval[t] != 0 ==> varval[s] == edge * varval[t]
      modifies f, val, this`varval, this`size, this`rep, this`par, this`rank, this`height
      ensures Valid()
      ensures forall a :: Represents(rep, par, varval, a) <==>
        Represents(old(rep), old(par), old(varval), a) && Sgn(a, s) == edge * Sgn(a, t)
      ensures forall z :: z != s && z != t && Untouched(old(rep), old(varval), z) ==> Untouched(rep, varval, z)
      ensures Slack(rep, varval) < old(Slack(rep, varval))
    {
      var fixedS := varval[s];
      LinkMeaning(rep, par, varval, s, t, edge);
      LinkUntouched(rep, varval, s, t, edge);
      LinkSlack(rep, varval, s, t, edge);
      LinkEdges(f[..], val[..], vars, rep, par, rank, height, s, t, edge);
      if fixedS != 0 && varval[t] == 0 {
        varval := varval[t := edge * fixedS];
      }
      f[s] := t;
      val[s] := edge;
      varval := varval[s := 0];
      size := size[t := size[t] + size[s]];
      rep, par := LinkRep(rep, s, t), LinkPar(old(rep), par, s, edge);
      rank := LinkRank(rank, s, t);
      height := height + 1;
    }

    // unite: Sgn(x) == relation * Sgn(y) from now on.
    method Unite(x: int, y: int, relation: int) returns (ok: bool, changed: bool)
      requires Valid() && 1 <= x <= vars && 1 <= y <= vars && IsSign(relation)
      modifies f, val, this`varval, this`size, this`rep, this`par, this`rank, this`height
      ensures Valid()
      ensures ok ==> forall a :: Represents(rep, par, varval, a) <==>
        Represents(old(rep), old(par), old(varval), a) && Sgn(a, x) == relation * Sgn(a, y)
      ensures !ok ==> forall a :: !(Represents(old(rep), old(par), old(varval), a) && Sgn(a, x) == relation * Sgn(a, y))
      ensures if changed then ok && Slack(rep, varval) < old(Slack(rep, varval))
              else rep == old(rep) && par == old(par) && varval == old(varval)
      ensures forall z :: z != x && z != y && Untouched(old(rep), old(varval), z) ==> Untouched(rep, varval, z)
    {
      var s := Find(x);
      var t := Find(y);
      changed := false;
      PathSign(f[x], val[x], x, vars, rep, par, varval, rank);
      if s == t {
        UniteSame(rep, par, varval, x, y, relation);
        ok := val[x] == relation * val[y];
        return;
      }
      var edge := relation * val[x] * val[y];
      UniteRoots(rep, par, varval, x, y, relation);
      if varval[s] != 0 && varval[t] != 0 && varval[s] != edge * varval[t] {
        return false, false;
      }
      if size[s] <= size[t] {
        Link(s, t, edge);
      } else {
        Link(t, s, edge);
      }
      ok, changed := true, true;
    }
  }

  function LinkRep(rep: seq<int>, s: int, t: int): seq<int> {
    seq(|rep|, z requires 0 <= z < |rep| => if rep[z] == s then t else rep[z])
  }

  function LinkPar(rep: seq<int>, par: seq<int>, s: int, edge: int): seq<int>
    requires |rep| == |par|
  {
    seq(|rep|, z requires 0 <= z < |rep| => if rep[z] == s then par[z] * edge else par[z])
  }

  ghost predicate Edge(parent: int, sign: int, x: int, rep: seq<int>, par: seq<int>, rank: seq<nat>)
    requires |rep| == |par| == |rank| && 1 <= x < |rep|
  {
    && 1 <= parent < |rep| && IsSign(sign)
    && (parent == x <==> rep[x] == x)
    && (parent == x ==> sign == 1)
    && (parent != x ==> rep[parent] == rep[x] && par[x] == sign * par[parent] && rank[x] < rank[parent])
  }

  lemma SignsCompose(o: int, s: int, p: int)
    requires IsSign(o) && IsSign(s) && IsSign(p)
    ensures IsSign(o * s) && (o * s) * p == o * (s * p)
  {
  }

  lemma SignsSquare(edge: int, prefix: int, orientation: int, p: int)
    requires IsSign(edge) && IsSign(prefix) && IsSign(orientation) && IsSign(p)
    requires edge * p == orientation * prefix
    ensures p == orientation * (prefix * edge)
  {
  }

  lemma PathSign(parent: int, sign: int, x: int, vars: nat, rep: seq<int>, par: seq<int>, fixed: seq<int>, rank: seq<nat>)
    requires Classes(rep, par, fixed) && |rank| == |rep| == vars + 1 && 1 <= x <= vars
    requires Edge(parent, sign, x, rep, par, rank) && parent == rep[x]
    ensures sign == par[x]
  {
  }

  lemma SignsCancel(w: int, p: int)
    requires IsSign(w) && IsSign(p)
    ensures IsSign(w * p) && (w * p) * p == w
  {
  }

  lemma RootSign(rep: seq<int>, par: seq<int>, fixed: seq<int>, x: int, a: Assignment)
    requires Classes(rep, par, fixed) && 1 <= x < |rep| && Represents(rep, par, fixed, a)
    ensures Sgn(a, x) == par[x] * Sgn(a, rep[x]) && Sgn(a, rep[x]) == par[x] * Sgn(a, x)
    ensures fixed[rep[x]] != 0 ==> Sgn(a, rep[x]) == fixed[rep[x]]
  {
    assert rep[rep[x]] == rep[x];
  }

  // Fixing the root of x so that x gets the sign `wanted`.
  lemma AssignMeaning(rep: seq<int>, par: seq<int>, fixed: seq<int>, x: int, wanted: int)
    requires Classes(rep, par, fixed) && 1 <= x < |rep| && IsSign(wanted) && fixed[rep[x]] == 0
    ensures forall a :: Represents(rep, par, fixed[rep[x] := wanted * par[x]], a) <==>
      Represents(rep, par, fixed, a) && Sgn(a, x) == wanted
  {
    var fixed' := fixed[rep[x] := wanted * par[x]];
    SignsCancel(wanted, par[x]);
    forall a: Assignment
      ensures Represents(rep, par, fixed', a) <==> Represents(rep, par, fixed, a) && Sgn(a, x) == wanted
    {
      if Represents(rep, par, fixed', a) {
        RootSign(rep, par, fixed', x, a);
        assert forall z :: 1 <= z < |rep| && fixed[z] != 0 ==> fixed'[z] == fixed[z];
      }
      if Represents(rep, par, fixed, a) {
        RootSign(rep, par, fixed, x, a);
      }
    }
  }

  lemma AssignKnown(rep: seq<int>, par: seq<int>, fixed: seq<int>, x: int, wanted: int)
    requires Classes(rep, par, fixed) && 1 <= x < |rep| && IsSign(wanted) && fixed[rep[x]] != 0
    ensures forall a :: Represents(rep, par, fixed, a) ==> (Sgn(a, x) == wanted <==> fixed[rep[x]] == wanted * par[x])
  {
    SignsCancel(wanted, par[x]);
    forall a | Represents(rep, par, fixed, a)
      ensures Sgn(a, x) == wanted <==> fixed[rep[x]] == wanted * par[x]
    {
      RootSign(rep, par, fixed, x, a);
      SignsCancel(par[x], Sgn(a, rep[x]));
    }
  }

  lemma UniteSame(rep: seq<int>, par: seq<int>, fixed: seq<int>, x: int, y: int, relation: int)
    requires Classes(rep, par, fixed) && 1 <= x < |rep| && 1 <= y < |rep| && rep[x] == rep[y] && IsSign(relation)
    ensures forall a :: Represents(rep, par, fixed, a) ==>
      (Sgn(a, x) == relation * Sgn(a, y) <==> par[x] == relation * par[y])
  {
    forall a | Represents(rep, par, fixed, a)
      ensures Sgn(a, x) == relation * Sgn(a, y) <==> par[x] == relation * par[y]
    {
      RootSign(rep, par, fixed, x, a);
      RootSign(rep, par, fixed, y, a);
    }
  }

  // Relating x and y is relating their roots.
  lemma UniteRoots(rep: seq<int>, par: seq<int>, fixed: seq<int>, x: int, y: int, relation: int)
    requires Classes(rep, par, fixed) && 1 <= x < |rep| && 1 <= y < |rep| && IsSign(relation)
    ensures var edge := relation * par[x] * par[y];
      && IsSign(edge)
      && (forall a :: Represents(rep, par, fixed, a) ==>
           (Sgn(a, x) == relation * Sgn(a, y) <==> Sgn(a, rep[x]) == edge * Sgn(a, rep[y])))
      && (forall a :: Sgn(a, rep[x]) == edge * Sgn(a, rep[y]) <==> Sgn(a, rep[y]) == edge * Sgn(a, rep[x]))
      && (fixed[rep[x]] != 0 && fixed[rep[y]] != 0 && fixed[rep[x]] != edge * fixed[rep[y]] ==>
           forall a :: Represents(rep, par, fixed, a) ==> Sgn(a, rep[x]) != edge * Sgn(a, rep[y]))
  {
    forall a | Represents(rep, par, fixed, a)
      ensures Sgn(a, x) == par[x] * Sgn(a, rep[x]) && Sgn(a, y) == par[y] * Sgn(a, rep[y])
      ensures fixed[rep[x]] != 0 ==> Sgn(a, rep[x]) == fixed[rep[x]]
      ensures fixed[rep[y]] != 0 ==> Sgn(a, rep[y]) == fixed[rep[y]]
    {
      RootSign(rep, par, fixed, x, a);
      RootSign(rep, par, fixed, y, a);
    }
  }

  function LinkFixed(fixed: seq<int>, s: int, t: int, edge: int): seq<int>
    requires 0 <= s < |fixed| && 0 <= t < |fixed|
  {
    (if fixed[s] != 0 && fixed[t] == 0 then fixed[t := edge * fixed[s]] else fixed)[s := 0]
  }

  lemma LinkMeaning(rep: seq<int>, par: seq<int>, fixed: seq<int>, s: int, t: int, edge: int)
    requires Classes(rep, par, fixed) && 1 <= s < |rep| && 1 <= t < |rep|
    requires s != t && rep[s] == s && rep[t] == t && IsSign(edge)
    requires fixed[s] != 0 && fixed[t] != 0 ==> fixed[s] == edge * fixed[t]
    ensures Classes(LinkRep(rep, s, t), LinkPar(rep, par, s, edge), LinkFixed(fixed, s, t, edge))
    ensures forall a :: Represents(LinkRep(rep, s, t), LinkPar(rep, par, s, edge), LinkFixed(fixed, s, t, edge), a) <==>
      Represents(rep, par, fixed, a) && Sgn(a, s) == edge * Sgn(a, t)
  {
    var rep', par', fixed' := LinkRep(rep, s, t), LinkPar(rep, par, s, edge), LinkFixed(fixed, s, t, edge);
    forall a: Assignment
      ensures Represents(rep', par', fixed', a) <==> Represents(rep, par, fixed, a) && Sgn(a, s) == edge * Sgn(a, t)
    {
      if Represents(rep', par', fixed', a) {
        LinkBack(rep, par, fixed, s, t, edge, a);
      }
      if Represents(rep, par, fixed, a) && Sgn(a, s) == edge * Sgn(a, t) {
        LinkForth(rep, par, fixed, s, t, edge, a);
      }
    }
  }

  lemma LinkUntouched(rep: seq<int>, fixed: seq<int>, s: int, t: int, edge: int)
    requires |rep| == |fixed| && 1 <= s < |rep| && 1 <= t < |rep| && rep[s] == s && rep[t] == t
    ensures forall z :: z != s && z != t && Untouched(rep, fixed, z) ==>
      Untouched(LinkRep(rep, s, t), LinkFixed(fixed, s, t, edge), z)
  {
  }

  lemma LinkForth(rep: seq<int>, par: seq<int>, fixed: seq<int>, s: int, t: int, edge: int, a: Assignment)
    requires Classes(rep, par, fixed) && 1 <= s < |rep| && 1 <= t < |rep|
    requires s != t && rep[s] == s && rep[t] == t && IsSign(edge)
    requires Represents(rep, par, fixed, a) && Sgn(a, s) == edge * Sgn(a, t)
    ensures Represents(LinkRep(rep, s, t), LinkPar(rep, par, s, edge), LinkFixed(fixed, s, t, edge), a)
  {
    var rep', par', fixed' := LinkRep(rep, s, t), LinkPar(rep, par, s, edge), LinkFixed(fixed, s, t, edge);
    forall x | 1 <= x < |rep|
      ensures Sgn(a, x) == par'[x] * Sgn(a, rep'[x]) && (fixed'[x] != 0 ==> Sgn(a, x) == fixed'[x])
    {
      RootSign(rep, par, fixed, x, a);
      RootSign(rep, par, fixed, s, a);
      if rep[x] == s {
        SignsCompose(par[x], edge, Sgn(a, t));
      }
    }
  }

  lemma LinkBack(rep: seq<int>, par: seq<int>, fixed: seq<int>, s: int, t: int, edge: int, a: Assignment)
    requires Classes(rep, par, fixed) && 1 <= s < |rep| && 1 <= t < |rep|
    requires s != t && rep[s] == s && rep[t] == t && IsSign(edge)
    requires fixed[s] != 0 && fixed[t] != 0 ==> fixed[s] == edge * fixed[t]
    requires Represents(LinkRep(rep, s, t), LinkPar(rep, par, s, edge), LinkFixed(fixed, s, t, edge), a)
    ensures Represents(rep, par, fixed, a) && Sgn(a, s) == edge * Sgn(a, t)
  {
    var rep', par', fixed' := LinkRep(rep, s, t), LinkPar(rep, par, s, edge), LinkFixed(fixed, s, t, edge);
    assert rep'[s] == t && par'[s] == par[s] * edge;
    assert Sgn(a, s) == edge * Sgn(a, t);
    assert rep'[t] == t;
    forall x | 1 <= x < |rep|
      ensures Sgn(a, x) == par[x] * Sgn(a, rep[x]) && (fixed[x] != 0 ==> Sgn(a, x) == fixed[x])
    {
      assert rep'[x] == if rep[x] == s then t else rep[x];
      if rep[x] == s {
        SignsCompose(par[x], edge, Sgn(a, t));
      }
      if x == s && fixed[s] != 0 {
        SignsCancel(fixed[s], edge);
        assert fixed'[t] != 0;
        SignsCancel(edge, Sgn(a, t));
      }
    }
  }

  // The parent edges after s has been hung below t.
  lemma LinkEdges(f: seq<int>, val: seq<int>, vars: nat, rep: seq<int>, par: seq<int>, rank: seq<nat>, height: nat,
                  s: int, t: int, edge: int)
    requires |f| == |val| == |rep| == |par| == |rank| == vars + 1
    requires 1 <= s <= vars && 1 <= t <= vars && s != t && rep[s] == s && rep[t] == t && IsSign(edge)
    requires par[s] == 1 && par[t] == 1
    requires forall x :: 1 <= x <= vars ==> rank[x] <= height && IsSign(par[x]) && 1 <= rep[x] <= vars
    requires forall x :: 1 <= x <= vars ==> Edge(f[x], val[x], x, rep, par, rank)
    ensures forall x :: 1 <= x <= vars ==> LinkRank(rank, s, t)[x] <= height + 1
    ensures forall x :: 1 <= x <= vars ==>
      Edge(if x == s then t else f[x], if x == s then edge else val[x], x,
           LinkRep(rep, s, t), LinkPar(rep, par, s, edge), LinkRank(rank, s, t))
  {
    forall x | 1 <= x <= vars
      ensures Edge(if x == s then t else f[x], if x == s then edge else val[x], x,
                   LinkRep(rep, s, t), LinkPar(rep, par, s, edge), LinkRank(rank, s, t))
    {
      assert Edge(f[x], val[x], x, rep, par, rank);
      if x != s && f[x] != x {
        assert Edge(f[f[x]], val[f[x]], f[x], rep, par, rank);
        if rep[x] == s {
          SignsCompose(val[x], par[f[x]], edge);
        }
      }
    }
  }

  function LinkRank(rank: seq<nat>, s: int, t: int): seq<nat>
    requires 0 <= s < |rank| && 0 <= t < |rank|
  {
    rank[t := if rank[t] > rank[s] then rank[t] else rank[s] + 1]
  }
}
