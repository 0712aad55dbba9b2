/** Clausal variable elimination: the resolvent of two clauses, and why the
    order in which parents are pushed on the extension stack lets the backward
    walk repair any model of the resolvents. */
module ElimRepair {
  import opened Knf
  import opened RecoveryLog
  import opened Clauses
  import opened Extension

  // Some literal other than l holds.
  ghost predicate OthersSat(c: seq<int>, l: int, a: Assignment) {
    exists i :: 0 <= i < |c| && c[i] != l && Holds(c[i], a)
  }

  // The model satisfies what resolving c and d on the pivot leaves.
  ghost predicate ResolventSat(c: seq<int>, d: seq<int>, pivot: int, a: Assignment) {
    OthersSat(c, pivot, a) || OthersSat(d, -pivot, a)
  }

  ghost predicate AllContain(cs: seq<seq<int>>, l: int) {
    forall i :: 0 <= i < |cs| ==> l in cs[i] && -l !in cs[i] && NonZero(cs[i])
  }

  function EntriesFor(cs: seq<seq<int>>, l: int): seq<Entry> {
    seq(|cs|, i requires 0 <= i < |cs| => Entry([l], cs[i]))
  }

  // Clauses pushed with one witness: nothing changes if all of them hold,
  // else the witness is made true.
  lemma {:induction false} OnePhase(cs: seq<seq<int>>, l: int, a: Assignment)
    requires l != 0 && AllContain(cs, l)
    ensures var b := Unwind(EntriesFor(cs, l), a);
      (Same(b, a) && ClausesSat(cs, a)) || (Same(b, Make(l, a)) && !ClausesSat(cs, a))
  {
    if cs != [] {
      var n := |cs| - 1;
      assert EntriesFor(cs, l)[..n] == EntriesFor(cs[..n], l);
      var c := cs[n];
      if ClauseSat(c, a) {
        OnePhase(cs[..n], l, a);
        assert cs == cs[..n] + [c];
        ClausesSnoc(cs[..n], c);
      } else {
        assert l in c && !Holds(l, a) by {
          var i :| 0 <= i < |c| && c[i] == l;
        }
        assert [l][..0] == [];
        assert Repair([l], a) == Make(l, a);
        OnePhase(cs[..n], l, Make(l, a));
        MadeTrue(cs[..n], l, a);
      }
    }
  }

  lemma MadeTrue(cs: seq<seq<int>>, l: int, a: Assignment)
    requires l != 0 && AllContain(cs, l)
    ensures ClausesSat(cs, Make(l, a))
  {
    forall i | 0 <= i < |cs|
      ensures ClauseSat(cs[i], Make(l, a))
    {
      var j :| 0 <= j < |cs[i]| && cs[i][j] == l;
      assert Holds(cs[i][j], Make(l, a));
    }
  }

  lemma {:induction false} UnwindConcat(x: seq<Entry>, y: seq<Entry>, a: Assignment)
    ensures Unwind(x + y, a) == Unwind(x, Unwind(y, a))
  {
    if y == [] {
      assert x + y == x;
    } else {
      var n := |y| - 1;
      var e := y[n];
      assert (x + y)[..|x| + n] == x + y[..n] && (x + y)[|x| + n] == e;
      UnwindConcat(x, y[..n], if ClauseSat(e.clause, a) then a else Repair(e.autarky, a));
    }
  }

  lemma SameSatisfied(cs: seq<seq<int>>, a: Assignment, b: Assignment)
    requires Same(a, b)
    ensures ClausesSat(cs, a) <==> ClausesSat(cs, b)
  {
    forall i | 0 <= i < |cs|
      ensures ClauseSat(cs[i], a) <==> ClauseSat(cs[i], b)
    {
      SameClause(cs[i], a, b);
    }
  }

  // Positive clauses pushed before negative ones: a model of all resolvents
  // is repaired to a model of all parents, whatever value the pivot had, and
  // only the pivot changes.
  lemma EliminationRepaired(ps: seq<seq<int>>, ns: seq<seq<int>>, pivot: int, a: Assignment)
    requires pivot != 0 && AllContain(ps, pivot) && AllContain(ns, -pivot)
    requires forall i, j :: 0 <= i < |ps| && 0 <= j < |ns| ==> ResolventSat(ps[i], ns[j], pivot, a)
    ensures var b := Unwind(EntriesFor(ps, pivot) + EntriesFor(ns, -pivot), a);
      ClausesSat(ps, b) && ClausesSat(ns, b) && forall x :: x != Abs(pivot) ==> b(x) == a(x)
  {
    UnwindConcat(EntriesFor(ps, pivot), EntriesFor(ns, -pivot), a);
    var m := Unwind(EntriesFor(ns, -pivot), a);
    var b := Unwind(EntriesFor(ps, pivot), m);
    PhaseDone(ns, -pivot, a);
    PhaseDone(ps, pivot, m);
    if !Same(b, m) {
      PositiveRepaired(ps, ns, pivot, a, m, b);
    } else {
      SameSatisfied(ns, b, m);
    }
  }

  // After one phase its clauses hold, and if anything changed, some clause
  // had failed.
  lemma PhaseDone(cs: seq<seq<int>>, l: int, a: Assignment)
    requires l != 0 && AllContain(cs, l)
    ensures var b := Unwind(EntriesFor(cs, l), a);
      && ClausesSat(cs, b) && (forall x :: x != Abs(l) ==> b(x) == a(x))
      && (!Same(b, a) ==> !ClausesSat(cs, a))
  {
    var b := Unwind(EntriesFor(cs, l), a);
    OnePhase(cs, l, a);
    MadeTrue(cs, l, a);
    SameSatisfied(cs, b, if ClausesSat(cs, a) then a else Make(l, a));
  }

  // A repaired positive clause leaves the negative ones true.
  lemma PositiveRepaired(ps: seq<seq<int>>, ns: seq<seq<int>>, pivot: int, a: Assignment, m: Assignment, b: Assignment)
    requires pivot != 0 && AllContain(ps, pivot) && AllContain(ns, -pivot) && !ClausesSat(ps, m)
    requires forall i, j :: 0 <= i < |ps| && 0 <= j < |ns| ==> ResolventSat(ps[i], ns[j], pivot, a)
    requires forall x :: x != Abs(pivot) ==> m(x) == a(x) && b(x) == a(x)
    ensures ClausesSat(ns, b)
  {
    var i :| 0 <= i < |ps| && !ClauseSat(ps[i], m);
    forall j | 0 <= j < |ns|
      ensures ClauseSat(ns[j], b)
    {
      OtherParent(ps[i], ns[j], pivot, a, m, b);
    }
  }

  // If one parent fails without the pivot, the other holds without it.
  lemma OtherParent(c: seq<int>, d: seq<int>, pivot: int, a: Assignment, m: Assignment, b: Assignment)
    requires pivot != 0 && -pivot !in c && pivot !in d && ResolventSat(c, d, pivot, a) && !ClauseSat(c, m)
    requires forall x :: x != Abs(pivot) ==> m(x) == a(x) && b(x) == a(x)
    ensures ClauseSat(d, b)
  {
    forall i | 0 <= i < |c| && c[i] != pivot
      ensures !Holds(c[i], a)
    {
      assert c[i] in c;
    }
    var i :| 0 <= i < |d| && d[i] != -pivot && Holds(d[i], a);
    assert d[i] in d && Holds(d[i], b);
  }

  // Some clause fails unless l holds.
  ghost predicate Needed(cs: seq<seq<int>>, l: int, a: Assignment) {
    exists i :: 0 <= i < |cs| && !OthersSat(cs[i], l, a)
  }

  // A gate: its clauses never resolve to anything, and whatever the others
  // are, some of them needs the pivot.
  ghost predicate Defines(gp: seq<seq<int>>, gn: seq<seq<int>>, pivot: int) {
    && (forall a, i, j :: 0 <= i < |gp| && 0 <= j < |gn| ==> ResolventSat(gp[i], gn[j], pivot, a))
    && forall a :: Needed(gp, pivot, a) || Needed(gn, -pivot, a)
  }

  // With a gate it is enough to resolve gate clauses with the others, and to
  // push gate clauses: the value they force satisfies all.
  lemma GateRepaired(gp: seq<seq<int>>, gn: seq<seq<int>>, ps: seq<seq<int>>, ns: seq<seq<int>>, pivot: int, a: Assignment)
    requires pivot != 0 && AllContain(gp, pivot) && AllContain(gn, -pivot) && AllContain(ps, pivot) && AllContain(ns, -pivot)
    requires Defines(gp, gn, pivot)
    requires forall i, j :: 0 <= i < |gp| && 0 <= j < |ns| ==> ResolventSat(gp[i], ns[j], pivot, a)
    requires forall i, j :: 0 <= i < |ps| && 0 <= j < |gn| ==> ResolventSat(ps[i], gn[j], pivot, a)
    ensures Repaired(ps, ns, pivot, a, Unwind(EntriesFor(gp, pivot) + EntriesFor(gn, -pivot), a))
  {
    var b := Unwind(EntriesFor(gp, pivot) + EntriesFor(gn, -pivot), a);
    EliminationRepaired(gp, gn, pivot, a);
    if Needed(gp, pivot, a) {
      var i :| 0 <= i < |gp| && !OthersSat(gp[i], pivot, a);
      ForcedSide(gp[i], ns, ps, pivot, a, b);
    } else {
      var j :| 0 <= j < |gn| && !OthersSat(gn[j], -pivot, a);
      ForcedSide(gn[j], ps, ns, -pivot, a, b);
    }
  }

  // A clause that needs the literal l makes it true; clauses with l hold, and
  // those with -l hold by their other literals.
  lemma ForcedSide(g: seq<int>, others: seq<seq<int>>, same: seq<seq<int>>, l: int, a: Assignment, b: Assignment)
    requires l != 0 && !OthersSat(g, l, a) && -l !in g && NonZero(g) && ClauseSat(g, b)
    requires forall x :: x != Abs(l) ==> b(x) == a(x)
    requires AllContain(others, -l) && AllContain(same, l)
    requires forall j :: 0 <= j < |others| ==> OthersSat(others[j], -l, a)
    ensures ClausesSat(others, b) && ClausesSat(same, b)
  {
    var k :| 0 <= k < |g| && Holds(g[k], b);
    assert g[k] in g;
    assert g[k] == l;
    forall j | 0 <= j < |others|
      ensures ClauseSat(others[j], b)
    {
      var i :| 0 <= i < |others[j]| && others[j][i] != -l && Holds(others[j][i], a);
      assert others[j][i] in others[j] && Holds(others[j][i], b);
    }
    forall j | 0 <= j < |same|
      ensures ClauseSat(same[j], b)
    {
      var i :| 0 <= i < |same[j]| && same[j][i] == l;
      assert Holds(same[j][i], b);
    }
  }

  datatype Clause = Clause(lits: seq<int>, garbage: bool, gate: bool)

  // The clauses of an occurrence list that are not garbage, or those of them
  // that belong to a gate.
  function Live(cs: seq<Clause>, gates: bool): seq<seq<int>> {
    if cs == [] then []
    else
      var c := cs[|cs| - 1];
      Live(cs[..|cs| - 1], gates) + (if c.garbage || (gates && !c.gate) then [] else [c.lits])
  }

  lemma {:induction false} LiveOccurs(cs: seq<Clause>, gates: bool, l: int)
    requires forall i :: 0 <= i < |cs| && !cs[i].garbage ==> l in cs[i].lits && -l !in cs[i].lits && NonZero(cs[i].lits)
    ensures AllContain(Live(cs, gates), l)
  {
    if cs != [] {
      LiveOccurs(cs[..|cs| - 1], gates, l);
    }
  }

  lemma LiveStep(cs: seq<Clause>, gates: bool, i: nat, l: int)
    requires i < |cs|
    ensures EntriesFor(Live(cs[..i + 1], gates), l)
         == EntriesFor(Live(cs[..i], gates), l) + (if cs[i].garbage || (gates && !cs[i].gate) then [] else [Entry([l], cs[i].lits)])
  {
    assert cs[..i + 1][..i] == cs[..i];
  }

  // One of the two loops of mark_eliminated_clauses_as_garbage.
  method PushOccurrences(ext: External, cs: seq<Clause>, substitute: bool, pivot: int) returns (cs': seq<Clause>)
    requires ext.Valid() && pivot != 0 && forall i :: 0 <= i < |cs| ==> NonZero(cs[i].lits)
    modifies ext`extension, ext`entries
    ensures ext.Valid() && ext.entries == old(ext.entries) + EntriesFor(Live(cs, substitute), pivot)
    ensures |cs'| == |cs| && forall i :: 0 <= i < |cs| ==> cs'[i] == cs[i].(garbage := true)
  {
    cs' := cs;
    for i := 0 to |cs|
      invariant ext.Valid() && ext.entries == old(ext.entries) + EntriesFor(Live(cs[..i], substitute), pivot)
      invariant |cs'| == |cs| && forall k :: 0 <= k < |cs| ==> cs'[k] == if k < i then cs[k].(garbage := true) else cs[k]
    {
      LiveStep(cs, substitute, i, pivot);
      if !cs[i].garbage {
        cs' := cs'[i := cs[i].(garbage := true)];
        if !substitute || cs[i].gate {
          ext.PushClause(cs[i].lits, pivot);
        }
      }
    }
    assert cs[..|cs|] == cs;
  }

  // The resolvents that have been added: all of them, or with a gate those of
  // its clauses with the others.
  ghost predicate ResolventsHold(ps: seq<Clause>, ns: seq<Clause>, substitute: bool, pivot: int, a: Assignment) {
    && (forall i, j :: 0 <= i < |Live(ps, substitute)| && 0 <= j < |Live(ns, false)| ==>
          ResolventSat(Live(ps, substitute)[i], Live(ns, false)[j], pivot, a))
    && (forall i, j :: 0 <= i < |Live(ps, false)| && 0 <= j < |Live(ns, substitute)| ==>
          ResolventSat(Live(ps, false)[i], Live(ns, substitute)[j], pivot, a))
  }

  // mark_eliminated_clauses_as_garbage: what it pushes repairs every model of
  // the resolvents to a model of all clauses with the pivot; with a gate, if
  // the gate defines the pivot.
  method MarkEliminatedClausesAsGarbage(ext: External, ps: seq<Clause>, ns: seq<Clause>, substitute: bool, pivot: int)
      returns (ps': seq<Clause>, ns': seq<Clause>, ghost pushed: seq<Entry>)
    requires ext.Valid() && pivot != 0
    requires forall i :: 0 <= i < |ps| ==> pivot in ps[i].lits && -pivot !in ps[i].lits && NonZero(ps[i].lits)
    requires forall i :: 0 <= i < |ns| ==> -pivot in ns[i].lits && pivot !in ns[i].lits && NonZero(ns[i].lits)
    modifies ext`extension, ext`entries
    ensures ext.Valid() && ext.entries == old(ext.entries) + pushed
    ensures substitute ==> |pushed| == |Live(ps, true)| + |Live(ns, true)|
    ensures !substitute || Defines(Live(ps, true), Live(ns, true), pivot) ==>
      forall a :: ResolventsHold(ps, ns, substitute, pivot, a) ==>
        Repaired(Live(ps, false), Live(ns, false), pivot, a, Unwind(pushed, a))
    ensures |ps'| == |ps| && forall i :: 0 <= i < |ps| ==> ps'[i] == ps[i].(garbage := true)
    ensures |ns'| == |ns| && forall i :: 0 <= i < |ns| ==> ns'[i] == ns[i].(garbage := true)
  {
    ps' := PushOccurrences(ext, ps, substitute, pivot);
    ns' := PushOccurrences(ext, ns, substitute, -pivot);
    pushed := EntriesFor(Live(ps, substitute), pivot) + EntriesFor(Live(ns, substitute), -pivot);
    if !substitute || Defines(Live(ps, true), Live(ns, true), pivot) {
      forall a: Assignment | ResolventsHold(ps, ns, substitute, pivot, a)
        ensures Repaired(Live(ps, false), Live(ns, false), pivot, a, Unwind(pushed, a))
      {
        PushedRepairs(ps, ns, substitute, pivot, a);
      }
    }
  }

  lemma PushedRepairs(ps: seq<Clause>, ns: seq<Clause>, substitute: bool, pivot: int, a: Assignment)
    requires pivot != 0 && (substitute ==> Defines(Live(ps, true), Live(ns, true), pivot))
    requires forall i :: 0 <= i < |ps| ==> pivot in ps[i].lits && -pivot !in ps[i].lits && NonZero(ps[i].lits)
    requires forall i :: 0 <= i < |ns| ==> -pivot in ns[i].lits && pivot !in ns[i].lits && NonZero(ns[i].lits)
    requires ResolventsHold(ps, ns, substitute, pivot, a)
    ensures Repaired(Live(ps, false), Live(ns, false), pivot, a,
                     Unwind(EntriesFor(Live(ps, substitute), pivot) + EntriesFor(Live(ns, substitute), -pivot), a))
  {
    LiveOccurs(ps, false, pivot);
    LiveOccurs(ns, false, -pivot);
    if substitute {
      LiveOccurs(ps, true, pivot);
      LiveOccurs(ns, true, -pivot);
      GateRepaired(Live(ps, true), Live(ns, true), Live(ps, false), Live(ns, false), pivot, a);
    } else {
      EliminationRepaired(Live(ps, false), Live(ns, false), pivot, a);
    }
  }

  ghost predicate Repaired(ps: seq<seq<int>>, ns: seq<seq<int>>, pivot: int, a: Assignment, b: Assignment) {
    ClausesSat(ps, b) && ClausesSat(ns, b) && forall x :: x != Abs(pivot) ==> b(x) == a(x)
  }

  // What came of two parents. A resolvent that lies within one parent or both
  // takes their place: the pivot can be dropped from them.
  datatype Resolution =
    | Satisfied(l: int)
    | Tautological(l: int)
    | Empty
    | Unit(l: int)
    | Both(lits: seq<int>)
    | First(lits: seq<int>)
    | Second(lits: seq<int>)
    | Resolvent(lits: seq<int>)

  // The root-level value of a literal.
  function RootVal(root: seq<int>, l: int): int
    requires Abs(l) < |root|
  {
    if l > 0 then root[l] else -root[-l]
  }

  ghost predicate Consistent(a: Assignment, root: seq<int>) {
    forall v :: 0 <= v < |root| && root[v] != 0 ==> a(v) == (root[v] > 0)
  }

  // What the outcome says about a model that agrees with the root values.
  ghost predicate Says(r: Resolution, a: Assignment) {
    match r
    case Satisfied(_) => true
    case Tautological(_) => true
    case Empty => false
    case Unit(l) => Holds(l, a)
    case Both(lits) => ClauseSat(lits, a)
    case First(lits) => ClauseSat(lits, a)
    case Second(lits) => ClauseSat(lits, a)
    case Resolvent(lits) => ClauseSat(lits, a)
  }

  // The outcomes for long resolvents tell which parents contain them.
  ghost predicate Placed(r: Resolution, c: seq<int>, d: seq<int>) {
    match r
    case Both(lits) => Within(lits, c) && Within(lits, d)
    case First(lits) => Within(lits, c) && !Within(lits, d)
    case Second(lits) => !Within(lits, c) && Within(lits, d)
    case Resolvent(lits) => |lits| >= 2 && !Within(lits, c) && !Within(lits, d)
    case _ => true
  }

  // Dropping the pivot from these parents leaves what the resolvent says.
  ghost predicate Strengthens(r: Resolution, c: seq<int>, pivot: int, d: seq<int>, a: Assignment) {
    && (r.Both? || r.First? ==> (Says(r, a) <==> OthersSat(c, pivot, a)))
    && (r.Both? || r.Second? ==> (Says(r, a) <==> OthersSat(d, -pivot, a)))
  }

  function Swapped(r: Resolution): Resolution {
    match r
    case First(lits) => Second(lits)
    case Second(lits) => First(lits)
    case _ => r
  }

  // A clause of the formula: variables in range, none of them twice.
  ghost predicate Proper(c: seq<int>, n: int) {
    DistinctVars(c) && VarsIn(c, n - 1)
  }

  // The first j literals of the first parent are collected and marked,
  // without the pivot and without root-falsified ones.
  ghost predicate FirstParent(root: seq<int>, c: seq<int>, j: int, pivot: int, marks: seq<int>, lits: seq<int>) {
    true == (
      && |marks| == |root| && Proper(c, |root|) && 0 <= j <= |c|
      && (forall i :: 0 <= i < j ==> c[i] == pivot || RootVal(root, c[i]) < 0 || c[i] in lits)
      && (forall l :: l in lits ==> l in c[..j] && l != pivot && Abs(l) < |root| && RootVal(root, l) == 0)
      && (forall v {:trigger marks[v]} :: 0 <= v < |marks| ==> marks[v] == if v != 0 && v in lits then 1 else if v != 0 && -v in lits then -1 else 0))
  }

  lemma FirstParentStep(root: seq<int>, c: seq<int>, j: nat, pivot: int, marks: seq<int>, lits: seq<int>)
    requires FirstParent(root, c, j, pivot, marks, lits) && j < |c|
    ensures 1 <= Abs(c[j]) < |root|
    ensures c[j] == pivot || RootVal(root, c[j]) < 0 ==> FirstParent(root, c, j + 1, pivot, marks, lits)
    ensures c[j] != pivot && RootVal(root, c[j]) == 0 ==> FirstParent(root, c, j + 1, pivot, marks[Abs(c[j]) := Sign(c[j])], lits + [c[j]])
  {
    var l := c[j];
    assert c[..j + 1] == c[..j] + [l];
    NotBefore(c, j);
    if l != pivot && RootVal(root, l) == 0 {
      var v: int := Abs(l);
      var marks', lits' := marks[v := Sign(l)], lits + [l];
      forall x | 0 <= x < |marks'|
        ensures marks'[x] == if x != 0 && x in lits' then 1 else if x != 0 && -x in lits' then -1 else 0
      {
        assert x in lits' <==> x in lits || x == l;
        assert -x in lits' <==> -x in lits || -x == l;
      }
    }
  }

  // What a mark says about the literals of the first parent.
  lemma MarkMeans(root: seq<int>, c: seq<int>, pivot: int, marks: seq<int>, one: seq<int>, l: int)
    requires FirstParent(root, c, |c|, pivot, marks, one) && 1 <= Abs(l) < |root|
    ensures var marked := if l > 0 then marks[l] else -marks[-l];
      && (marked < 0 ==> -l in one) && (marked > 0 ==> l in one)
      && (marked == 0 ==> l !in one && -l !in one)
      && forall k :: k in one ==> k in c && k != pivot && Abs(k) < |root| && RootVal(root, k) == 0
  {
    assert c[..|c|] == c;
  }

  // The first j literals of the second parent have joined.
  ghost predicate SecondParent(root: seq<int>, one: seq<int>, d: seq<int>, j: int, pivot: int, lits: seq<int>) {
    true == (
      && Proper(d, |root|) && 0 <= j <= |d| && |one| <= |lits| && lits[..|one|] == one
      && (forall l :: l in one ==> l in lits)
      && (forall i :: 0 <= i < j ==> d[i] == -pivot || RootVal(root, d[i]) < 0 || d[i] in lits)
      && (forall l :: l in lits ==> l in one || (l in d[..j] && l != -pivot && Abs(l) < |root| && RootVal(root, l) == 0)))
  }

  lemma SecondParentStep(root: seq<int>, one: seq<int>, d: seq<int>, j: nat, pivot: int, lits: seq<int>)
    requires SecondParent(root, one, d, j, pivot, lits) && j < |d|
    ensures 1 <= Abs(d[j]) < |root|
    ensures d[j] == -pivot || RootVal(root, d[j]) < 0 || d[j] in lits ==> SecondParent(root, one, d, j + 1, pivot, lits)
    ensures d[j] != -pivot && RootVal(root, d[j]) == 0 ==> SecondParent(root, one, d, j + 1, pivot, lits + [d[j]])
  {
    assert d[..j + 1] == d[..j] + [d[j]];
  }

  lemma ValConsistent(root: seq<int>, l: int, a: Assignment)
    requires 1 <= Abs(l) < |root| && Consistent(a, root)
    ensures RootVal(root, l) > 0 ==> Holds(l, a)
    ensures RootVal(root, l) < 0 ==> !Holds(l, a)
  {
  }

  // Collected from both parents, the resolvent says what they say together.
  lemma ResolventSays(root: seq<int>, c: seq<int>, d: seq<int>, pivot: int, marks: seq<int>, one: seq<int>, lits: seq<int>, a: Assignment)
    requires FirstParent(root, c, |c|, pivot, marks, one) && SecondParent(root, one, d, |d|, pivot, lits) && Consistent(a, root)
    ensures ClauseSat(lits, a) <==> ResolventSat(c, d, pivot, a)
  {
    if ClauseSat(lits, a) {
      var i :| 0 <= i < |lits| && Holds(lits[i], a);
      assert lits[i] in lits;
      if lits[i] in one {
        var k :| 0 <= k < |c| && c[k] == lits[i];
      } else {
        var k :| 0 <= k < |d| && d[k] == lits[i];
      }
    }
    if OthersSat(c, pivot, a) {
      var i :| 0 <= i < |c| && c[i] != pivot && Holds(c[i], a);
      ValConsistent(root, c[i], a);
      var k :| 0 <= k < |lits| && lits[k] == c[i];
    }
    if OthersSat(d, -pivot, a) {
      var i :| 0 <= i < |d| && d[i] != -pivot && Holds(d[i], a);
      ValConsistent(root, d[i], a);
      var k :| 0 <= k < |lits| && lits[k] == d[i];
    }
  }

  // Which literals of the resolvent come from the second parent.
  ghost predicate Kept(one: seq<int>, d: seq<int>, j: int, pivot: int, lits: seq<int>, kept: seq<int>, t: int) {
    true == (
      && 0 <= j <= |d| && DistinctVars(d) && DistinctVars(lits) && |one| <= |lits| && lits[..|one|] == one
      && DistinctVars(kept) && t == |kept| + (if -pivot in d[..j] then 1 else 0)
      && (forall l :: l in kept ==> l in lits && l in d[..j] && l != -pivot)
      && (forall l :: l in lits ==> l in one || l in kept)
      && (forall i :: |one| <= i < |lits| ==> lits[i] !in one)
      && (forall l :: l in lits && l in d[..j] && l != -pivot ==> l in kept))
  }

  lemma KeptStart(one: seq<int>, d: seq<int>, pivot: int)
    requires DistinctVars(one) && DistinctVars(d)
    ensures Kept(one, d, 0, pivot, one, [], 0)
  {
  }

  lemma KeptSkip(one: seq<int>, d: seq<int>, j: nat, pivot: int, lits: seq<int>, kept: seq<int>, t: int)
    requires Kept(one, d, j, pivot, lits, kept, t) && j < |d| && d[j] !in lits
    ensures Kept(one, d, j + 1, pivot, lits, kept, if d[j] == -pivot then t + 1 else t)
  {
    assert d[..j + 1] == d[..j] + [d[j]];
    NotBefore(d, j);
  }

  lemma KeptStep(one: seq<int>, d: seq<int>, j: nat, pivot: int, lits: seq<int>, kept: seq<int>, t: int)
    requires Kept(one, d, j, pivot, lits, kept, t) && j < |d| && d[j] != -pivot && d[j] != 0
    requires d[j] in one ==> d[j] in lits
    requires d[j] !in lits ==> -d[j] !in lits
    ensures Kept(one, d, j + 1, pivot, if d[j] in lits then lits else lits + [d[j]], kept + [d[j]], t + 1)
  {
    assert d[..j + 1] == d[..j] + [d[j]];
    NotBefore(d, j);
    DistinctSnoc(kept, d[j]);
    if d[j] !in lits {
      DistinctSnoc(lits, d[j]);
    }
  }

  // mark the first parent; a root-satisfied literal ends the loop
  method CollectFirst(root: seq<int>, c: seq<int>, pivot: int, marks: seq<int>)
      returns (satisfied: int, marks': seq<int>, lits: seq<int>, s: int)
    requires Proper(c, |root|) && marks == Repeat(0, |root|)
    ensures |marks'| == |root| && forall v :: 0 <= v < |root| && marks'[v] != 0 ==> Mentions(c, v)
    ensures satisfied == 0 ==> FirstParent(root, c, |c|, pivot, marks', lits) && DistinctVars(lits)
    ensures satisfied == 0 ==> s == |lits| + if pivot in c then 1 else 0
    ensures satisfied != 0 ==> satisfied in c && satisfied != pivot && RootVal(root, satisfied) > 0
  {
    satisfied, marks', lits, s := 0, marks, [], 0;
    var j := 0;
    while j < |c| && satisfied == 0
      invariant 0 <= j <= |c| && |marks'| == |root|
      invariant forall v :: 0 <= v < |root| && marks'[v] != 0 ==> Mentions(c, v)
      invariant satisfied == 0 ==> FirstParent(root, c, j, pivot, marks', lits) && DistinctVars(lits)
      invariant satisfied == 0 ==> s == |lits| + if pivot in c[..j] then 1 else 0
      invariant satisfied != 0 ==> satisfied in c && satisfied != pivot && RootVal(root, satisfied) > 0
      decreases |c| - j, if satisfied == 0 then 1 else 0
    {
      var l := c[j];
      FirstParentStep(root, c, j, pivot, marks', lits);
      NotBefore(c, j);
      assert c[..j + 1] == c[..j] + [l];
      if l == pivot {
        s := s + 1;
        j := j + 1;
      } else if RootVal(root, l) > 0 {
        satisfied := l;
      } else {
        if RootVal(root, l) == 0 {
          FirstDistinct(root, c, j, pivot, marks', lits);
          marks', lits, s := marks'[Abs(l) := Sign(l)], lits + [l], s + 1;
        }
        j := j + 1;
      }
    }
    assert c[..|c|] == c;
  }

  lemma FirstDistinct(root: seq<int>, c: seq<int>, j: nat, pivot: int, marks: seq<int>, lits: seq<int>)
    requires FirstParent(root, c, j, pivot, marks, lits) && j < |c| && DistinctVars(lits)
    ensures DistinctVars(lits + [c[j]])
  {
    NotBefore(c, j);
    DistinctSnoc(lits, c[j]);
  }

  // unmark
  method Unmark(c: seq<int>, marks: seq<int>) returns (marks': seq<int>)
    requires VarsIn(c, |marks| - 1) && forall v :: 0 <= v < |marks| && marks[v] != 0 ==> Mentions(c, v)
    ensures marks' == Repeat(0, |marks|)
  {
    marks' := marks;
    for i := 0 to |c|
      invariant |marks'| == |marks|
      invariant forall v :: 0 <= v < |marks| && marks'[v] != 0 ==> exists k :: i <= k < |c| && Abs(c[k]) == v
    {
      marks' := marks'[Abs(c[i]) := 0];
    }
  }

  // The loop over the second parent.
  method CollectSecond(root: seq<int>, c: seq<int>, d: seq<int>, pivot: int, marks: seq<int>, one: seq<int>, s: int) returns (r: Resolution)
    requires FirstParent(root, c, |c|, pivot, marks, one) && DistinctVars(one) && Proper(d, |root|)
    requires pivot != 0 && pivot in c && -pivot in d && s == |one| + 1
    ensures forall a :: Consistent(a, root) ==> (Says(r, a) <==> ResolventSat(c, d, pivot, a)) && Strengthens(r, c, pivot, d, a)
    ensures Placed(r, c, d)
  {
    var lits := one;
    var t := 0;
    ghost var kept: seq<int> := [];
    KeptStart(one, d, pivot);
    PivotApart(root, c, pivot, marks, one);
    var j := 0;
    r := Empty;
    while j < |d| && r == Empty
      invariant 0 <= j <= |d|
      invariant r == Empty ==> SecondParent(root, one, d, j, pivot, lits) && Kept(one, d, j, pivot, lits, kept, t)
      invariant r != Empty ==> Trivial(r) && forall a :: Consistent(a, root) ==> ResolventSat(c, d, pivot, a)
      decreases |d| - j
    {
      r, lits, t, kept := SecondLiteral(root, c, d, pivot, marks, one, j, lits, t, kept);
      j := j + 1;
    }
    if r != Empty {
      return;
    }
    r := Outcome(lits, s, t);
    OutcomeMeans(root, c, d, pivot, marks, one, lits, kept, s, t);
  }

  // The outcome says what the parents say, and where it lies.
  lemma OutcomeMeans(root: seq<int>, c: seq<int>, d: seq<int>, pivot: int, marks: seq<int>, one: seq<int>, lits: seq<int>,
                     kept: seq<int>, s: int, t: int)
    requires FirstParent(root, c, |c|, pivot, marks, one) && SecondParent(root, one, d, |d|, pivot, lits)
    requires Kept(one, d, |d|, pivot, lits, kept, t) && s == |one| + 1
    requires pivot in c && -pivot in d && pivot != 0 && -pivot !in one && pivot !in one
    ensures var r := Outcome(lits, s, t);
      && Placed(r, c, d)
      && forall a :: Consistent(a, root) ==> (Says(r, a) <==> ResolventSat(c, d, pivot, a)) && Strengthens(r, c, pivot, d, a)
  {
    OutcomePlaced(root, c, d, pivot, marks, one, lits, kept, t);
    forall a: Assignment | Consistent(a, root)
      ensures var r := Outcome(lits, s, t);
        (Says(r, a) <==> ResolventSat(c, d, pivot, a)) && Strengthens(r, c, pivot, d, a)
    {
      ResolventSays(root, c, d, pivot, marks, one, lits, a);
      WithinSays(root, c, d, pivot, marks, one, lits, a);
      OutcomeSays(lits, s, t, a);
    }
  }

  ghost predicate Trivial(r: Resolution) {
    r.Satisfied? || r.Tautological?
  }

  // One literal of the second parent.
  method SecondLiteral(root: seq<int>, c: seq<int>, d: seq<int>, pivot: int, marks: seq<int>, one: seq<int>, j: nat,
                       lits: seq<int>, t: int, ghost kept: seq<int>)
      returns (r: Resolution, lits': seq<int>, t': int, ghost kept': seq<int>)
    requires FirstParent(root, c, |c|, pivot, marks, one) && -pivot !in one && -pivot in d && pivot != 0 && j < |d|
    requires SecondParent(root, one, d, j, pivot, lits) && Kept(one, d, j, pivot, lits, kept, t)
    ensures r == Empty ==> SecondParent(root, one, d, j + 1, pivot, lits') && Kept(one, d, j + 1, pivot, lits', kept', t')
    ensures r != Empty ==> Trivial(r) && forall a :: Consistent(a, root) ==> ResolventSat(c, d, pivot, a)
  {
    r, lits', t', kept' := Empty, lits, t, kept;
    var l := d[j];
    SecondParentStep(root, one, d, j, pivot, lits);
    MarkMeans(root, c, pivot, marks, one, l);
    NewLiteral(root, one, d, j, pivot, lits);
    if l == -pivot {
      KeptSkip(one, d, j, pivot, lits, kept, t);
      t' := t + 1;
    } else if RootVal(root, l) > 0 {
      RootSatisfied(root, d, -pivot, j);
      r := Satisfied(l);
    } else if RootVal(root, l) < 0 {
      KeptSkip(one, d, j, pivot, lits, kept, t);
    } else {
      var marked := if l > 0 then marks[l] else -marks[-l];
      if marked < 0 {
        Clashing(c, d, pivot, j, one);
        r := Tautological(l);
      } else {
        KeptStep(one, d, j, pivot, lits, kept, t);
        if marked == 0 {
          lits' := lits + [l];
        }
        t', kept' := t + 1, kept + [l];
      }
    }
  }

  // The end of resolve_clauses.
  function Outcome(lits: seq<int>, s: int, t: int): Resolution {
    if |lits| == 0 then Empty
    else if |lits| == 1 then Unit(lits[0])
    else if s > |lits| && t > |lits| then Both(lits)
    else if s > |lits| then First(lits)
    else if t > |lits| then Second(lits)
    else Resolvent(lits)
  }

  lemma OutcomeSays(lits: seq<int>, s: int, t: int, a: Assignment)
    ensures Says(Outcome(lits, s, t), a) <==> ClauseSat(lits, a)
  {
    if |lits| == 1 {
      assert Holds(lits[0], a) ==> ClauseSat(lits, a);
    }
  }

  lemma PivotApart(root: seq<int>, c: seq<int>, pivot: int, marks: seq<int>, one: seq<int>)
    requires FirstParent(root, c, |c|, pivot, marks, one) && pivot != 0 && pivot in c
    ensures -pivot !in one && pivot !in one
  {
    NotBoth(c, pivot);
    assert c[..|c|] == c;
  }

  // Literals collected so far are not false, not the pivot, and differ from
  // the next literal of the second parent unless the first one has it.
  lemma NewLiteral(root: seq<int>, one: seq<int>, d: seq<int>, j: nat, pivot: int, lits: seq<int>)
    requires SecondParent(root, one, d, j, pivot, lits) && j < |d|
    requires forall k :: k in one ==> Abs(k) < |root| && RootVal(root, k) == 0
    requires -pivot !in one && -pivot in d && pivot != 0
    ensures d[j] in lits <==> d[j] in one
    ensures -d[j] in lits <==> -d[j] in one
    ensures d[j] in lits && Abs(d[j]) < |root| ==> RootVal(root, d[j]) == 0
    ensures -pivot !in lits
  {
    NotBefore(d, j);
  }

  // A resolvent within a parent says what is left of the parent.
  lemma WithinSays(root: seq<int>, c: seq<int>, d: seq<int>, pivot: int, marks: seq<int>, one: seq<int>, lits: seq<int>, a: Assignment)
    requires FirstParent(root, c, |c|, pivot, marks, one) && SecondParent(root, one, d, |d|, pivot, lits) && Consistent(a, root)
    requires pivot in c && -pivot in d && pivot != 0 && -pivot !in one && pivot !in one
    ensures Within(lits, c) ==> (ClauseSat(lits, a) <==> OthersSat(c, pivot, a))
    ensures Within(lits, d) ==> (ClauseSat(lits, a) <==> OthersSat(d, -pivot, a))
  {
    ResolventSays(root, c, d, pivot, marks, one, lits, a);
    PivotOutside(root, one, d, pivot, lits);
    if ClauseSat(lits, a) {
      var i :| 0 <= i < |lits| && Holds(lits[i], a);
      assert lits[i] in lits;
      if Within(lits, c) {
        var k :| 0 <= k < |c| && c[k] == lits[i];
        assert OthersSat(c, pivot, a);
      }
      if Within(lits, d) {
        var k :| 0 <= k < |d| && d[k] == lits[i];
        assert OthersSat(d, -pivot, a);
      }
    }
  }

  lemma PivotOutside(root: seq<int>, one: seq<int>, d: seq<int>, pivot: int, lits: seq<int>)
    requires SecondParent(root, one, d, |d|, pivot, lits) && -pivot in d && pivot != 0 && -pivot !in one && pivot !in one
    ensures pivot !in lits && -pivot !in lits
  {
    assert d[..|d|] == d;
    NotBoth(d, pivot);
  }

  // The counters tell which parents contain the resolvent.
  lemma OutcomePlaced(root: seq<int>, c: seq<int>, d: seq<int>, pivot: int, marks: seq<int>, one: seq<int>, lits: seq<int>,
                      kept: seq<int>, t: int)
    requires FirstParent(root, c, |c|, pivot, marks, one) && SecondParent(root, one, d, |d|, pivot, lits)
    requires Kept(one, d, |d|, pivot, lits, kept, t)
    requires pivot in c && -pivot in d && pivot != 0 && -pivot !in one && pivot !in one
    ensures |one| + 1 > |lits| <==> Within(lits, c)
    ensures t > |lits| <==> Within(lits, d)
  {
    assert c[..|c|] == c && d[..|d|] == d;
    PivotOutside(root, one, d, pivot, lits);
    NotInFirst(root, c, d, pivot, marks, one, lits, kept, t);
    WithinSize(kept, lits);
    assert Within(lits, d) <==> Within(lits, kept);
  }

  lemma NotInFirst(root: seq<int>, c: seq<int>, d: seq<int>, pivot: int, marks: seq<int>, one: seq<int>, lits: seq<int>,
                   kept: seq<int>, t: int)
    requires FirstParent(root, c, |c|, pivot, marks, one) && SecondParent(root, one, d, |d|, pivot, lits)
    requires Kept(one, d, |d|, pivot, lits, kept, t) && pivot !in lits
    ensures |one| + 1 > |lits| <==> Within(lits, c)
  {
    assert c[..|c|] == c && d[..|d|] == d;
    if |lits| > |one| {
      var l := lits[|one|];
      assert l in lits && l !in one;
      forall i | 0 <= i < |c|
        ensures c[i] != l
      {
      }
    } else {
      assert lits == one;
    }
  }

  lemma RootSatisfied(root: seq<int>, c: seq<int>, pivot: int, j: nat)
    requires Proper(c, |root|) && j < |c| && c[j] != pivot && RootVal(root, c[j]) > 0
    ensures forall a :: Consistent(a, root) ==> OthersSat(c, pivot, a)
  {
    forall a: Assignment | Consistent(a, root)
      ensures OthersSat(c, pivot, a)
    {
      ValConsistent(root, c[j], a);
    }
  }

  // The tautology rule: clashing literals satisfy one of the parents.
  lemma Clashing(c: seq<int>, d: seq<int>, pivot: int, j: nat, one: seq<int>)
    requires j < |d| && d[j] != -pivot && d[j] != 0 && -d[j] in one
    requires forall l :: l in one ==> l in c && l != pivot
    ensures forall a :: ResolventSat(c, d, pivot, a)
  {
    var k :| 0 <= k < |c| && c[k] == -d[j];
    forall a: Assignment
      ensures ResolventSat(c, d, pivot, a)
    {
      if Holds(d[j], a) {
        assert OthersSat(d, -pivot, a);
      } else {
        assert Holds(c[k], a);
        assert OthersSat(c, pivot, a);
      }
    }
  }

  // resolve_clauses: for every model that agrees with the root values the
  // outcome says what the two parents say once the pivot is gone; a resolvent
  // that lies within a parent strengthens that parent; all marks are cleared.
  method ResolveClauses(root: seq<int>, c: seq<int>, pivot: int, d: seq<int>, marks: seq<int>) returns (r: Resolution, marks': seq<int>)
    requires Proper(c, |root|) && Proper(d, |root|) && marks == Repeat(0, |root|)
    requires pivot != 0 && pivot in c && -pivot in d
    ensures forall a :: Consistent(a, root) ==> (Says(r, a) <==> ResolventSat(c, d, pivot, a)) && Strengthens(r, c, pivot, d, a)
    ensures Placed(r, c, d)
    ensures marks' == marks
  {
    if |c| > |d| {
      r, marks' := ResolveOrdered(root, d, -pivot, c, marks);
      assert forall a :: ResolventSat(d, c, -pivot, a) <==> ResolventSat(c, d, pivot, a);
      r := Swapped(r);
    } else {
      r, marks' := ResolveOrdered(root, c, pivot, d, marks);
    }
  }

  // With the shorter parent first.
  method ResolveOrdered(root: seq<int>, c: seq<int>, pivot: int, d: seq<int>, marks: seq<int>) returns (r: Resolution, marks': seq<int>)
    requires Proper(c, |root|) && Proper(d, |root|) && marks == Repeat(0, |root|)
    requires pivot != 0 && pivot in c && -pivot in d
    ensures forall a :: Consistent(a, root) ==> (Says(r, a) <==> ResolventSat(c, d, pivot, a)) && Strengthens(r, c, pivot, d, a)
    ensures Placed(r, c, d)
    ensures marks' == marks
  {
    var satisfied, lits, s;
    satisfied, marks', lits, s := CollectFirst(root, c, pivot, marks);
    if satisfied != 0 {
      r := Satisfied(satisfied);
      ghost var j :| 0 <= j < |c| && c[j] == satisfied;
      RootSatisfied(root, c, pivot, j);
    } else {
      r := CollectSecond(root, c, d, pivot, marks', lits, s);
    }
    marks' := Unmark(c, marks');
  }
}
