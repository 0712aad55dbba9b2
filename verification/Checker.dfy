/** The online proof checker: every derived clause it accepts follows from the
    original clauses, and its propagation is complete. */
module Checker {
  import opened Knf
  import opened Clauses
  import opened IndexedStack
  import opened Watches
  import opened Extension

  class Checker {
    var sizeVars: nat
    var store: seq<CheckerClause>
    var watchers: map<int, seq<Watch>>
    var vals: map<int, int>
    var trail: seq<int>
    var next: nat
    var inconsistent: bool
    ghost var formula: seq<seq<int>>

    ghost function Now(): State
      reads this
    {
      State(store, watchers, vals, trail, next)
    }

    // Either the original clauses are refuted, or everything is propagated.
    ghost predicate Valid()
      reads this
    {
      if inconsistent then Refutes(formula, [])
      else RootOnly()
    }

    ghost predicate RootOnly()
      reads this
    {
      Base(formula, [], [], Now()) && Propagated(Now()) && next == |trail| && Sized(Now(), sizeVars)
    }

    constructor ()
      ensures Valid() && !inconsistent && formula == [] && store == []
    {
      sizeVars, store, watchers, vals, trail, next := 0, [], map[], map[], [], 0;
      inconsistent, formula := false, [];
    }

    // assign
    method Assign(l: int, ghost assumed: seq<int>, ghost root: seq<int>)
      requires Base(formula, assumed, root, Now()) && Sized(Now(), sizeVars)
      requires l != 0 && Val(vals, l) == 0 && Forces(formula, assumed, [l]) && Abs(l) < sizeVars
      modifies this`vals, this`trail
      ensures Now() == WithAssigned(old(Now()), l)
      ensures Base(formula, assumed, root, Now()) && Sized(Now(), sizeVars)
      ensures Propagated(old(Now())) ==> Propagated(Now())
    {
      AssignKeeps(formula, assumed, root, Now(), l);
      SizedAssigned(Now(), sizeVars, l);
      vals := vals[l := 1][-l := -1];
      trail := trail + [l];
    }

    // Propagation has done the first i entries of the list of f.
    ghost predicate At(f: int, i: int, assumed: seq<int>, root: seq<int>)
      reads this
    {
      true == (Base(formula, assumed, root, Now()) && Visiting(Now(), f, i) && Sized(Now(), sizeVars))
    }

    // Nothing on the trail is lost, and the list of f has got no longer.
    twostate predicate Further(f: int, i: int, i': int)
      reads this
    {
      && |trail| >= |old(trail)| && trail[..|old(trail)|] == old(trail)
      && |ListOf(watchers, f)| - i' < |ListOf(old(watchers), f)| - i
    }

    // A binary clause: its other literal is in the watch itself.
    method VisitBinary(f: int, i: nat, ghost assumed: seq<int>, ghost root: seq<int>) returns (res: bool)
      requires At(f, i, assumed, root) && i < |ListOf(watchers, f)| && ListOf(watchers, f)[i].size == 2
      requires Val(vals, ListOf(watchers, f)[i].blit) <= 0
      modifies this`vals, this`trail
      ensures if res then At(f, i + 1, assumed, root) else At(f, i, assumed, root) && Refutes(formula, assumed)
      ensures |trail| >= |old(trail)| && trail[..|old(trail)|] == old(trail)
    {
      var w := ListOf(watchers, f)[i];
      BinaryWatch(formula, assumed, root, Now(), f, i);
      res := Val(vals, w.blit) == 0;
      if res {
        UnitForced(formula, assumed, trail, store[w.clause].lits, w.blit);
        AssignOther(f, i, w.clause, w.blit, assumed, root);
      } else {
        FalseRefutes(formula, assumed, trail, store[w.clause].lits);
      }
    }

    // The first literal from position k on that is not false.
    method FindReplacement(lits: seq<int>) returns (k: nat)
      requires |lits| >= 2
      ensures 2 <= k <= |lits| && (forall j :: 2 <= j < k ==> Val(vals, lits[j]) < 0)
      ensures k < |lits| ==> Val(vals, lits[k]) >= 0
    {
      k := 2;
      while k < |lits| && Val(vals, lits[k]) < 0
        invariant 2 <= k <= |lits| && forall j :: 2 <= j < k ==> Val(vals, lits[j]) < 0
      {
        k := k + 1;
      }
    }

    // The false literal becomes the second one.
    method NormalizeWatches(id: nat, f: int, ghost i: nat, ghost assumed: seq<int>, ghost root: seq<int>)
      requires At(f, i, assumed, root) && id < |store| && !store[id].garbage && |store[id].lits| > 2
      requires store[id].lits[0] == f || store[id].lits[1] == f
      modifies this`store
      ensures At(f, i, assumed, root) && |store| == |old(store)| && !store[id].garbage && SameClauses(old(store), store)
      ensures |store[id].lits| == |old(store)[id].lits| && store[id].lits[1] == f && store[id].lits[0] in old(store)[id].lits
      ensures store[id].lits[0] == if old(store)[id].lits[0] == f then old(store)[id].lits[1] else old(store)[id].lits[0]
    {
      var lits := store[id].lits;
      SameClausesAgain(store);
      if lits[0] == f {
        ReorderKeeps(formula, assumed, root, Now(), f, i, id);
        ClauseAt(formula, assumed, root, Now(), id);
        SwapPermutes(lits, 0, 1);
        SizedPermuted(Now(), sizeVars, id, lits[0 := lits[1]][1 := lits[0]]);
        SameClausesStep(store, id, lits[0 := lits[1]][1 := lits[0]]);
        store := store[id := store[id].(lits := lits[0 := lits[1]][1 := lits[0]])];
      }
    }

    // The second watch moves to a literal that is not false.
    method MoveWatch(f: int, i: nat, id: nat, k: nat, ghost assumed: seq<int>, ghost root: seq<int>)
      requires At(f, i, assumed, root) && i < |ListOf(watchers, f)| && ListOf(watchers, f)[i].clause == id
      requires id < |store| && !store[id].garbage && 2 <= k < |store[id].lits| && store[id].lits[1] == f
      requires Val(vals, store[id].lits[k]) >= 0
      modifies this`store, this`watchers
      ensures At(f, i, assumed, root) && |ListOf(watchers, f)| == |ListOf(old(watchers), f)| - 1 && SameClauses(old(store), store)
    {
      var lits := store[id].lits;
      ClauseAt(formula, assumed, root, Now(), id);
      ReplaceKeeps(formula, assumed, root, Now(), f, i, id, k);
      SwapPermutes(lits, 1, k);
      SizedPermuted(Now(), sizeVars, id, lits[1 := lits[k]][k := f]);
      SameClausesStep(store, id, lits[1 := lits[k]][k := f]);
      watchers := ReplacedLists(watchers, f, i, lits[k], |lits|, id);
      store := ReplacedStore(store, id, k);
    }

    // A longer clause that is not garbage.
    method VisitLong(f: int, i: nat, ghost assumed: seq<int>, ghost root: seq<int>) returns (res: bool, i': nat)
      requires At(f, i, assumed, root) && i < |ListOf(watchers, f)| && ListOf(watchers, f)[i].size != 2
      requires ListOf(watchers, f)[i].clause < |store| && !store[ListOf(watchers, f)[i].clause].garbage
      modifies this`store, this`watchers, this`vals, this`trail
      ensures At(f, i', assumed, root) && (!res ==> Refutes(formula, assumed))
      ensures (res ==> Further(f, i, i')) && SameClauses(old(store), store)
      ensures |trail| >= |old(trail)| && trail[..|old(trail)|] == old(trail)
    {
      var id := ListOf(watchers, f)[i].clause;
      LongWatch(formula, assumed, root, Now(), f, i);
      SameClausesAgain(store);
      var other := if store[id].lits[0] == f then store[id].lits[1] else store[id].lits[0];
      res, i' := true, i;
      if Val(vals, other) > 0 {
        OtherTrue(f, i, id, other, assumed, root);
        i' := i + 1;
      } else {
        res, i' := OtherNotTrue(f, i, id, assumed, root);
      }
    }

    // The other watched literal is true: it becomes the blocking literal.
    method OtherTrue(f: int, i: nat, id: nat, other: int, ghost assumed: seq<int>, ghost root: seq<int>)
      requires At(f, i, assumed, root) && i < |ListOf(watchers, f)| && ListOf(watchers, f)[i].clause == id
      requires id < |store| && other in store[id].lits && other != f && Val(vals, other) > 0
      modifies this`watchers
      ensures At(f, i + 1, assumed, root) && |ListOf(watchers, f)| == |ListOf(old(watchers), f)|
    {
      var list := ListOf(watchers, f);
      BlitKeeps(formula, assumed, root, Now(), f, i, other);
      watchers := watchers[f := list[i := list[i].(blit := other)]];
      TrueSatisfies(formula, assumed, root, Now(), id, other);
      KeepVisited(Now(), f, i);
    }

    // It is not: look for another literal to watch.
    method OtherNotTrue(f: int, i: nat, id: nat, ghost assumed: seq<int>, ghost root: seq<int>) returns (res: bool, i': nat)
      requires At(f, i, assumed, root) && i < |ListOf(watchers, f)| && ListOf(watchers, f)[i].clause == id
      requires id < |store| && !store[id].garbage && |store[id].lits| > 2
      requires if store[id].lits[0] == f then Val(vals, store[id].lits[1]) <= 0 else store[id].lits[1] == f && Val(vals, store[id].lits[0]) <= 0
      modifies this`store, this`watchers, this`vals, this`trail
      ensures At(f, i', assumed, root) && (!res ==> Refutes(formula, assumed))
      ensures (res ==> Further(f, i, i')) && SameClauses(old(store), store)
      ensures |trail| >= |old(trail)| && trail[..|old(trail)|] == old(trail)
    {
      res, i' := true, i;
      NormalizeWatches(id, f, i, assumed, root);
      var k := FindReplacement(store[id].lits);
      ghost var normal := store;
      if k < |store[id].lits| {
        MoveWatch(f, i, id, k, assumed, root);
        SameClausesOn(old(store), normal, store);
      } else {
        res := OnlyOther(f, i, id, assumed, root);
        i' := if res then i + 1 else i;
      }
    }

    // All but the first literal are false: it is assigned, or the clause is a
    // conflict.
    method OnlyOther(f: int, i: nat, id: nat, ghost assumed: seq<int>, ghost root: seq<int>) returns (res: bool)
      requires At(f, i, assumed, root) && i < |ListOf(watchers, f)| && ListOf(watchers, f)[i].clause == id
      requires id < |store| && !store[id].garbage && |store[id].lits| > 2 && store[id].lits[1] == f
      requires Val(vals, store[id].lits[0]) <= 0 && forall j :: 2 <= j < |store[id].lits| ==> Val(vals, store[id].lits[j]) < 0
      modifies this`vals, this`trail
      ensures if res then At(f, i + 1, assumed, root) else At(f, i, assumed, root) && Refutes(formula, assumed)
      ensures |trail| >= |old(trail)| && trail[..|old(trail)|] == old(trail)
    {
      var other := store[id].lits[0];
      RestDecides(formula, assumed, root, Now(), f, i, id);
      res := Val(vals, other) == 0;
      if res {
        AssignOther(f, i, id, other, assumed, root);
      }
    }

    // A forced literal of the clause is assigned, which satisfies it.
    method AssignOther(f: int, i: nat, id: nat, other: int, ghost assumed: seq<int>, ghost root: seq<int>)
      requires At(f, i, assumed, root) && i < |ListOf(watchers, f)| && ListOf(watchers, f)[i].clause == id
      requires id < |store| && other in store[id].lits && other != 0 && Val(vals, other) == 0
      requires Forces(formula, assumed, [other])
      modifies this`vals, this`trail
      ensures At(f, i + 1, assumed, root)
      ensures |trail| >= |old(trail)| && trail[..|old(trail)|] == old(trail)
    {
      AssignVisiting(Now(), other, f, i);
      Assign(other, assumed, root);
      TrueSatisfies(formula, assumed, root, Now(), id, other);
      KeepVisited(Now(), f, i);
    }

    // One entry of the list of the false literal f.
    method VisitWatch(f: int, i: nat, ghost assumed: seq<int>, ghost root: seq<int>) returns (res: bool, i': nat)
      requires At(f, i, assumed, root) && i < |ListOf(watchers, f)|
      modifies this`store, this`watchers, this`vals, this`trail
      ensures At(f, i', assumed, root) && (!res ==> Refutes(formula, assumed))
      ensures (res ==> Further(f, i, i')) && SameClauses(old(store), store)
      ensures |trail| >= |old(trail)| && trail[..|old(trail)|] == old(trail)
    {
      var w := ListOf(watchers, f)[i];
      WatchAt(formula, assumed, root, Now(), f, i);
      SameClausesAgain(store);
      res, i' := true, i + 1;
      if Val(vals, w.blit) > 0 {
        TrueSatisfies(formula, assumed, root, Now(), w.clause, w.blit);
        KeepVisited(Now(), f, i);
      } else if w.size == 2 {
        res := VisitBinary(f, i, assumed, root);
        i' := if res then i + 1 else i;
      } else if store[w.clause].garbage {
        DropKeeps(formula, assumed, root, Now(), f, i);
        var list := ListOf(watchers, f);
        watchers := watchers[f := list[..i] + list[i + 1..]];
        i' := i;
      } else {
        res, i' := VisitLong(f, i, assumed, root);
      }
    }

    // propagate
    method Propagate(ghost assumed: seq<int>, ghost root: seq<int>) returns (res: bool)
      requires Base(formula, assumed, root, Now()) && Propagated(Now()) && Sized(Now(), sizeVars)
      modifies this`store, this`watchers, this`vals, this`trail, this`next
      ensures Base(formula, assumed, root, Now()) && Sized(Now(), sizeVars)
      ensures if res then Propagated(Now()) && next == |trail| else Refutes(formula, assumed)
      ensures |trail| >= |old(trail)| && trail[..|old(trail)|] == old(trail) && SameClauses(old(store), store)
    {
      res := true;
      SameClausesAgain(store);
      while res && next < |trail|
        invariant Base(formula, assumed, root, Now()) && Sized(Now(), sizeVars) && next <= |trail|
        invariant if res then Propagated(Now()) else Refutes(formula, assumed)
        invariant |trail| >= |old(trail)| && trail[..|old(trail)|] == old(trail) && SameClauses(old(store), store)
        decreases res, sizeVars - next
      {
        TrailFits(vals, trail, sizeVars);
        ghost var before := store;
        res := PropagateLiteral(assumed, root);
        SameClausesOn(old(store), before, store);
      }
    }

    // One literal off the trail: its whole list is visited, or a conflict
    // found.
    method PropagateLiteral(ghost assumed: seq<int>, ghost root: seq<int>) returns (res: bool)
      requires Base(formula, assumed, root, Now()) && Propagated(Now()) && Sized(Now(), sizeVars) && next < |trail|
      modifies this`store, this`watchers, this`vals, this`trail, this`next
      ensures Base(formula, assumed, root, Now()) && Sized(Now(), sizeVars)
      ensures if res then Propagated(Now()) else Refutes(formula, assumed)
      ensures next == old(next) + 1 && |trail| >= |old(trail)| && trail[..|old(trail)|] == old(trail)
      ensures SameClauses(old(store), store)
    {
      VisitStart(Now());
      NextOk(formula, assumed, root, Now(), sizeVars);
      var f := -trail[next];
      next := next + 1;
      var i := 0;
      res := true;
      SameClausesAgain(store);
      while res && i < |ListOf(watchers, f)|
        invariant At(f, i, assumed, root) && next == old(next) + 1 && SameClauses(old(store), store)
        invariant !res ==> Refutes(formula, assumed)
        invariant |trail| >= |old(trail)| && trail[..|old(trail)|] == old(trail)
        decreases res, |ListOf(watchers, f)| - i
      {
        ghost var before := store;
        res, i := VisitWatch(f, i, assumed, root);
        SameClausesOn(old(store), before, store);
      }
      if res {
        VisitEnd(formula, assumed, root, Now(), f);
      }
    }

    // Everything propagated is undone down to the given point.
    method Backtrack(previous: nat, ghost assumed: seq<int>)
      requires previous <= |trail| && Base(formula, assumed, trail[..previous], Now()) && Sized(Now(), sizeVars)
      requires Forces(formula, [], trail[..previous])
      modifies this`vals, this`trail, this`next
      ensures trail == old(trail)[..previous] && next == previous
      ensures RootOnly()
    {
      ghost var root := trail[..previous];
      while |trail| > previous
        invariant previous <= |trail| <= |old(trail)| && trail == old(trail)[..|trail|] && TrailOk(vals, trail)
      {
        var l := trail[|trail| - 1];
        UnassignTrail(vals, trail);
        vals := vals[l := 0][-l := 0];
        trail := trail[..|trail| - 1];
      }
      next := previous;
      RootAgain(formula, assumed, root, old(Now()), Now(), sizeVars);
    }

    // check: assume the negated literals and propagate.  A conflict shows
    // that the clause is implied; without one there is an assignment that
    // extends the negated clause and leaves no live clause false or unit.
    method Check(simplified: seq<int>) returns (ok: bool)
      requires Valid() && !inconsistent && NonZero(simplified)
      requires forall i :: 0 <= i < |simplified| ==> Abs(simplified[i]) < sizeVars && Val(vals, simplified[i]) <= 0
      requires DistinctVars(simplified)
      modifies this`store, this`watchers, this`vals, this`trail, this`next
      ensures RootOnly() && trail == old(trail) && SameClauses(old(store), store)
      ensures ok ==> Implied(formula, simplified)
      ensures !ok ==> exists t :: Fixpoint(store, old(trail), simplified, t)
    {
      var previously := next;
      ghost var root, assumed := trail, Negations(simplified);
      RootForces(formula, Now());
      AssumeMore(formula, Now(), assumed);
      AssumeAll(simplified, assumed, root);
      var res := Propagate(assumed, root);
      if res {
        QuietIsComplete(formula, assumed, root, Now());
        StuckAt(store, root, simplified, trail);
      } else {
        RefutedIsImplied(formula, simplified);
      }
      assert trail[..|root|] == root;
      Backtrack(previously, assumed);
      ok := !res;
    }

    // The loop of assume calls.
    method AssumeAll(simplified: seq<int>, ghost assumed: seq<int>, ghost root: seq<int>)
      requires Base(formula, assumed, root, Now()) && Propagated(Now()) && Sized(Now(), sizeVars) && NonZero(simplified)
      requires assumed == Negations(simplified) && DistinctVars(simplified) && trail == root
      requires forall i :: 0 <= i < |simplified| ==> Abs(simplified[i]) < sizeVars && Val(vals, simplified[i]) <= 0
      modifies this`vals, this`trail
      ensures Base(formula, assumed, root, Now()) && Propagated(Now()) && Sized(Now(), sizeVars)
      ensures |trail| >= |root| && trail[..|root|] == root
      ensures forall i :: 0 <= i < |simplified| ==> -simplified[i] in trail
    {
      for i := 0 to |simplified|
        invariant Base(formula, assumed, root, Now()) && Propagated(Now()) && Sized(Now(), sizeVars)
        invariant |trail| >= |root| && trail[..|root|] == root
        invariant forall k :: 0 <= k < i ==> -simplified[k] in trail
        invariant forall k :: i <= k < |simplified| ==> Val(vals, simplified[k]) <= 0
      {
        AssumeOne(simplified, i, assumed, root);
      }
    }

    method AssumeOne(simplified: seq<int>, i: nat, ghost assumed: seq<int>, ghost root: seq<int>)
      requires Base(formula, assumed, root, Now()) && Propagated(Now()) && Sized(Now(), sizeVars) && NonZero(simplified)
      requires assumed == Negations(simplified) && DistinctVars(simplified) && i < |simplified|
      requires Abs(simplified[i]) < sizeVars && Val(vals, simplified[i]) <= 0
      modifies this`vals, this`trail
      ensures Base(formula, assumed, root, Now()) && Propagated(Now()) && Sized(Now(), sizeVars)
      ensures trail == old(trail) || trail == old(trail) + [-simplified[i]]
      ensures -simplified[i] in trail
      ensures forall k :: i < k < |simplified| ==> Val(vals, simplified[k]) == Val(old(vals), simplified[k])
    {
      var l := -simplified[i];
      ValOpposite(formula, assumed, root, Now(), simplified[i]);
      if Val(vals, l) <= 0 {
        AssumedForced(formula, simplified, i);
        Assign(l, assumed, root);
      }
    }

    // enlarge_vars
    method EnlargeVars(idx: nat)
      requires Valid()
      modifies this`sizeVars
      ensures Valid() && sizeVars > idx && sizeVars >= old(sizeVars)
    {
      var size := if sizeVars > 0 then 2 * sizeVars else 2;
      while idx >= size
        invariant size >= 2 && size >= old(sizeVars)
        decreases idx - size
      {
        size := size * 2;
      }
      if !inconsistent {
        SizedMore(Now(), sizeVars, size);
      }
      sizeVars := size;
    }

    // import_clause
    method ImportClause(c: seq<int>)
      requires Valid()
      modifies this`sizeVars
      ensures Valid() && forall i :: 0 <= i < |c| ==> Abs(c[i]) < sizeVars
    {
      for i := 0 to |c|
        invariant Valid() && forall k :: 0 <= k < i ==> Abs(c[k]) < sizeVars
      {
        if Abs(c[i]) >= sizeVars {
          EnlargeVars(Abs(c[i]));
        }
      }
    }

    // tautological: sort, drop duplicates, and look for a clash or a literal
    // that is true already.
    method Tautological(c: seq<int>) returns (tautology: bool, simplified: seq<int>)
      requires NonZero(c)
      ensures tautology ==> exists l :: l in c && (-l in c || Val(vals, l) > 0)
      ensures !tautology ==> DistinctVars(simplified) && (forall l :: l in simplified <==> l in c)
      ensures !tautology ==> forall l :: l in simplified ==> Val(vals, l) <= 0
    {
      var sorted := SortLits(c);
      var prev := 0;
      simplified := [];
      for i := 0 to |sorted|
        invariant DistinctVars(simplified) && (forall l :: l in simplified <==> l in sorted[..i])
        invariant forall l :: l in simplified ==> Val(vals, l) <= 0 && Abs(l) <= Abs(prev)
        invariant if simplified == [] then prev == 0 && i == 0 else prev == simplified[|simplified| - 1]
        invariant i > 0 ==> Abs(prev) <= Abs(sorted[i - 1]) && prev in sorted[..i]
      {
        var l := sorted[i];
        assert sorted[..i + 1] == sorted[..i] + [l];
        assert l in sorted;
        assert i > 0 ==> LitLeq(sorted[i - 1], l);
        if l == prev {
          continue;
        }
        if l == -prev {
          assert -l in sorted;
          return true, simplified;
        }
        if Val(vals, l) > 0 {
          return true, simplified;
        }
        assert Abs(prev) < Abs(l);
        assert forall k :: 0 <= k < |simplified| ==> simplified[k] in simplified;
        simplified := simplified + [l];
        prev := l;
      }
      assert sorted[..|sorted|] == sorted;
      tautology := false;
    }

    // The first loop of new_clause: two unassigned literals come first.
    method ChooseWatches(lits: seq<int>, ghost p: nat, ghost q: nat) returns (lits': seq<int>)
      requires p < q < |lits| && DistinctVars(lits) && Val(vals, lits[p]) == 0 && Val(vals, lits[q]) == 0
      ensures Permuted(lits, lits') && Val(vals, lits'[0]) == 0 && Val(vals, lits'[1]) == 0
    {
      lits' := lits;
      ghost var other := q;
      if Val(vals, lits'[0]) != 0 {
        var j := FirstUnassigned(lits', 1, p);
        SwapPermutes(lits', 0, j);
        other := if j == q then p else q;
        lits' := lits'[0 := lits'[j]][j := lits'[0]];
      }
      if Val(vals, lits'[1]) != 0 {
        var j := FirstUnassigned(lits', 2, other);
        SwapPermutes(lits', 1, j);
        lits' := lits'[1 := lits'[j]][j := lits'[1]];
      }
    }

    method FirstUnassigned(lits: seq<int>, from: nat, ghost p: nat) returns (j: nat)
      requires from <= p < |lits| && Val(vals, lits[p]) == 0
      ensures from <= j <= p && Val(vals, lits[j]) == 0
    {
      j := from;
      while Val(vals, lits[j]) != 0
        invariant from <= j <= p
        decreases p - j
      {
        j := j + 1;
      }
    }

    // insert and new_clause
    method Insert(simplified: seq<int>, ghost p: nat, ghost q: nat)
      requires RootOnly() && Implied(formula, simplified) && DistinctVars(simplified) && NonZero(simplified)
      requires forall i :: 0 <= i < |simplified| ==> Abs(simplified[i]) < sizeVars
      requires p < q < |simplified| && Val(vals, simplified[p]) == 0 && Val(vals, simplified[q]) == 0
      modifies this`store, this`watchers
      ensures RootOnly() && |store| == |old(store)| + 1 && store[..|old(store)|] == old(store)
      ensures !store[|old(store)|].garbage && Permuted(simplified, store[|old(store)|].lits)
    {
      var lits := ChooseWatches(simplified, p, q);
      NewClauseOk(formula, Now(), simplified, lits, sizeVars);
      var id := |store|;
      store := store + [CheckerClause(lits, false)];
      watchers := watchers[lits[0] := ListOf(watchers, lits[0]) + [Watch(lits[1], |lits|, id)]];
      watchers := watchers[lits[1] := ListOf(watchers, lits[1]) + [Watch(lits[0], |lits|, id)]];
    }

    // The loop of add_clause: no, one, or several literals that are not false.
    method CountOpen(simplified: seq<int>) returns (open: int, ghost p: nat, ghost q: nat)
      requires forall i :: 0 <= i < |simplified| ==> Val(vals, simplified[i]) <= 0
      ensures 0 <= open <= 2
      ensures open == 0 ==> forall i :: 0 <= i < |simplified| ==> Val(vals, simplified[i]) < 0
      ensures open >= 1 ==> p < |simplified| && Val(vals, simplified[p]) == 0
      ensures open == 1 ==> forall i :: 0 <= i < |simplified| && i != p ==> Val(vals, simplified[i]) < 0
      ensures open == 2 ==> p < q < |simplified| && Val(vals, simplified[q]) == 0
    {
      open, p, q := 0, 0, 0;
      for i := 0 to |simplified|
        invariant 0 <= open <= 1
        invariant open == 0 ==> forall k :: 0 <= k < i ==> Val(vals, simplified[k]) < 0
        invariant open == 1 ==> p < i && Val(vals, simplified[p]) == 0
        invariant open == 1 ==> forall k :: 0 <= k < i && k != p ==> Val(vals, simplified[k]) < 0
      {
        if Val(vals, simplified[i]) >= 0 {
          if open == 1 {
            open, q := 2, i;
            return;
          }
          open, p := 1, i;
        }
      }
    }

    // add_clause
    method AddClause(simplified: seq<int>)
      requires RootOnly() && !inconsistent && Implied(formula, simplified) && DistinctVars(simplified) && NonZero(simplified)
      requires forall i :: 0 <= i < |simplified| ==> Abs(simplified[i]) < sizeVars && Val(vals, simplified[i]) <= 0
      modifies this`store, this`watchers, this`vals, this`trail, this`next, this`inconsistent
      ensures Valid() && KeptAll(old(store), store) && old(trail) <= trail
      ensures Gained(old(store), store, trail, inconsistent, simplified)
    {
      ghost var p, q;
      var open;
      open, p, q := CountOpen(simplified);
      SameClausesAgain(store);
      if open == 2 {
        Insert(simplified, p, q);
      } else {
        OpenFalse(formula, Now(), simplified, if open == 0 then |simplified| else p);
        if open == 0 {
          inconsistent := true;
        } else {
          AddUnit(simplified, p);
        }
      }
      KeptNow(old(store), store);
    }

    method AddUnit(simplified: seq<int>, ghost p: nat)
      requires RootOnly() && !inconsistent && p < |simplified| && NonZero(simplified) && Val(vals, simplified[p]) == 0
      requires Forces(formula, [], [simplified[p]]) && Abs(simplified[p]) < sizeVars
      requires forall i :: 0 <= i < |simplified| && i != p ==> Val(vals, simplified[i]) < 0
      modifies this`store, this`watchers, this`vals, this`trail, this`next, this`inconsistent
      ensures Valid() && SameClauses(old(store), store) && simplified[p] in trail && old(trail) <= trail
    {
      var i := 0;
      while Val(vals, simplified[i]) < 0
        invariant 0 <= i <= p
        decreases p - i
      {
        i := i + 1;
      }
      Assign(simplified[i], [], []);
      ghost var forced := trail;
      assert simplified[p] == forced[|forced| - 1];
      var res := Propagate([], []);
      assert trail[|forced| - 1] == trail[..|forced|][|forced| - 1];
      if !res {
        inconsistent := true;
      }
    }

    // add_original_clause: the clause joins the formula, nothing that is
    // stored, true or known is lost, and the clause is known from now on.
    method AddOriginalClause(c: seq<int>)
      requires Valid() && NonZero(c)
      modifies this
      ensures Valid() && formula == old(formula) + [c]
      ensures KeptAll(old(store), store) && old(trail) <= trail && (old(inconsistent) ==> inconsistent)
      ensures Gained(old(store), store, trail, inconsistent, c) && Recorded(store, trail, inconsistent, c)
      ensures forall d :: old(Recorded(store, trail, inconsistent, d)) ==> Recorded(store, trail, inconsistent, d)
    {
      AddToFormula(c);
      StillRecorded(old(store), old(trail), old(inconsistent), store, trail, inconsistent);
      GainedRecorded(old(store), store, trail, inconsistent, c);
    }

    method AddToFormula(c: seq<int>)
      requires Valid() && NonZero(c)
      modifies this
      ensures Valid() && formula == old(formula) + [c]
      ensures KeptAll(old(store), store) && old(trail) <= trail && (old(inconsistent) ==> inconsistent)
      ensures Gained(old(store), store, trail, inconsistent, c)
    {
      GrowFormula(formula, c);
      KeptNow(store, store);
      if inconsistent {
        formula := formula + [c];
        return;
      }
      FormulaGrows(formula, c, [], [], Now());
      formula := formula + [c];
      ImportClause(c);
      var tautology, simplified := Tautological(c);
      if tautology {
        TautologyGained(formula, Now(), inconsistent, c);
      } else {
        SameMembers(formula, c, simplified, sizeVars);
        AddClause(simplified);
        SameGained(old(store), store, trail, inconsistent, simplified, c);
      }
    }

    // add_derived_clause: what is accepted follows from the original clauses
    // and is known from now on; a rejected clause leaves an assignment
    // against it at which propagation is stuck. Nothing that is stored, true
    // or known is lost either way.
    method AddDerivedClause(c: seq<int>) returns (accepted: bool)
      requires Valid() && NonZero(c)
      modifies this
      ensures Valid() && formula == old(formula)
      ensures KeptAll(old(store), store) && old(trail) <= trail && (old(inconsistent) ==> inconsistent)
      ensures forall d :: old(Recorded(store, trail, inconsistent, d)) ==> Recorded(store, trail, inconsistent, d)
      ensures accepted ==> Implied(formula, c) && Gained(old(store), store, trail, inconsistent, c) && Recorded(store, trail, inconsistent, c)
      ensures !accepted ==> trail == old(trail) && SameClauses(old(store), store) && inconsistent == old(inconsistent)
      ensures !accepted ==> exists simplified, t :: (forall l :: l in simplified <==> l in c) && Fixpoint(store, trail, simplified, t)
    {
      accepted := CheckAndAdd(c);
      StillRecorded(old(store), old(trail), old(inconsistent), store, trail, inconsistent);
      if accepted {
        GainedRecorded(old(store), store, trail, inconsistent, c);
      }
    }

    method CheckAndAdd(c: seq<int>) returns (accepted: bool)
      requires Valid() && NonZero(c)
      modifies this
      ensures Valid() && formula == old(formula)
      ensures KeptAll(old(store), store) && old(trail) <= trail && (old(inconsistent) ==> inconsistent)
      ensures accepted ==> Implied(formula, c) && Gained(old(store), store, trail, inconsistent, c)
      ensures !accepted ==> trail == old(trail) && SameClauses(old(store), store) && inconsistent == old(inconsistent)
      ensures !accepted ==> exists simplified, t :: (forall l :: l in simplified <==> l in c) && Fixpoint(store, trail, simplified, t)
    {
      KeptNow(store, store);
      if inconsistent {
        return true;
      }
      ImportClause(c);
      var tautology, simplified := Tautological(c);
      if tautology {
        TautologyImplied(formula, Now(), c);
        TautologyGained(formula, Now(), inconsistent, c);
        return true;
      }
      SameMembers(formula, c, simplified, sizeVars);
      accepted := Check(simplified);
      KeptSame(old(store), store);
      if accepted {
        AddChecked(c, simplified, old(store));
      }
    }

    method AddChecked(c: seq<int>, simplified: seq<int>, ghost store0: seq<CheckerClause>)
      requires RootOnly() && !inconsistent && Implied(formula, simplified) && DistinctVars(simplified) && NonZero(simplified)
      requires forall i :: 0 <= i < |simplified| ==> Abs(simplified[i]) < sizeVars && Val(vals, simplified[i]) <= 0
      requires (forall l :: l in simplified <==> l in c) && KeptAll(store0, store) && |store0| == |store|
      modifies this`store, this`watchers, this`vals, this`trail, this`next, this`inconsistent
      ensures Valid() && Implied(formula, c) && KeptAll(store0, store) && old(trail) <= trail
      ensures Gained(store0, store, trail, inconsistent, c)
    {
      ghost var before := store;
      SameMembers(formula, simplified, c, sizeVars);
      AddClause(simplified);
      KeptOn(store0, before, store);
      SameGained(store0, store, trail, inconsistent, simplified, c);
    }

    // find: a live clause with the same number of literals, all of them marked
    method Find(simplified: seq<int>) returns (id: int)
      ensures -1 <= id < |store|
      ensures id >= 0 ==> LiveMatch(store[id], simplified)
      ensures id == -1 ==> forall d :: 0 <= d < |store| ==> !LiveMatch(store[d], simplified)
    {
      id := 0;
      while id < |store|
        invariant 0 <= id <= |store| && forall d :: 0 <= d < id ==> !LiveMatch(store[d], simplified)
      {
        if !store[id].garbage && |store[id].lits| == |simplified| {
          var found := true;
          var i := 0;
          while found && i < |simplified|
            invariant 0 <= i <= |simplified|
            invariant found ==> forall k :: 0 <= k < i ==> store[id].lits[k] in simplified
            invariant !found ==> !LiveMatch(store[id], simplified)
          {
            found := store[id].lits[i] in simplified;
            i := i + 1;
          }
          if found {
            return;
          }
        }
        id := id + 1;
      }
      id := -1;
    }

    // delete_clause: true if there is nothing to delete or a live clause with
    // exactly these literals, which becomes garbage; otherwise only clauses
    // that are satisfied may become garbage as well. One copy of the clause is
    // gone at most, and nothing else that is known.
    method DeleteClause(c: seq<int>) returns (found: bool, ghost id: int)
      requires Valid() && NonZero(c)
      modifies this`sizeVars, this`store, this`watchers
      ensures Valid()
      ensures found <==> old(inconsistent || Idle(c, vals)) || exists d :: 0 <= d < |old(store)| && SameLive(old(store)[d], c)
      ensures !found || old(inconsistent || Idle(c, vals)) ==> store == old(store)
      ensures found && !old(inconsistent || Idle(c, vals)) ==>
        && 0 <= id < |old(store)| && SameLive(old(store)[id], c)
        && Deleted(old(store), store, vals, id)
      ensures forall d, n {:trigger Copies(store, trail, inconsistent, d, n)} ::
        Copies(old(store), trail, inconsistent, d, n + ToInt(SameLits(d, c))) ==> Copies(store, trail, inconsistent, d, n)
    {
      found, id := FindAndDelete(c);
      FewerCopies(old(store), store, trail, inconsistent, formula, old(Now()), c, id);
    }

    method FindAndDelete(c: seq<int>) returns (found: bool, ghost id: int)
      requires Valid() && NonZero(c)
      modifies this`sizeVars, this`store, this`watchers
      ensures Valid()
      ensures found <==> old(inconsistent || Idle(c, vals)) || exists d :: 0 <= d < |old(store)| && SameLive(old(store)[d], c)
      ensures !found || old(inconsistent || Idle(c, vals)) ==> store == old(store)
      ensures found && !old(inconsistent || Idle(c, vals)) ==>
        && 0 <= id < |old(store)| && SameLive(old(store)[id], c)
        && Deleted(old(store), store, vals, id)
    {
      found, id := true, -1;
      if inconsistent {
        return;
      }
      ImportClause(c);
      var tautology, simplified := Tautological(c);
      if tautology {
        return;
      }
      var at := Find(simplified);
      NotIdle(c, simplified, vals);
      FoundMeans(formula, Now(), simplified, c);
      if at < 0 {
        return false, -1;
      }
      id := at;
      Discard(at);
    }

    method Discard(id: nat)
      requires RootOnly() && id < |store|
      modifies this`store, this`watchers
      ensures RootOnly() && Deleted(old(store), store, vals, id)
    {
      Trash(id);
      var enough: bool := *;
      if enough {
        ghost var before := store;
        CollectGarbageClauses();
        DeletedMore(old(store), before, store, vals, id);
      }
    }

    method Trash(id: nat)
      requires RootOnly() && id < |store|
      modifies this`store
      ensures RootOnly() && store == Trashed(old(store), id)
    {
      GarbageKeeps(formula, Now(), id);
      TrashedSized(Now(), sizeVars, id);
      store := Trashed(store, id);
    }

    // collect_garbage_clauses: exactly the satisfied clauses become garbage
    // too, and no list mentions garbage afterwards.
    method CollectGarbageClauses()
      requires RootOnly()
      modifies this`store, this`watchers
      ensures RootOnly() && NoGarbage(store, watchers) && SweptUpTo(old(store), store, vals, |old(store)|)
    {
      for id := 0 to |store|
        invariant RootOnly() && SweptUpTo(old(store), store, vals, id) && |store| == |old(store)|
      {
        var satisfied := ClauseSatisfied(store[id].lits);
        if satisfied {
          Trash(id);
        }
      }
      CollectedKeeps(formula, Now(), sizeVars);
      watchers := Collected(store, watchers);
    }

    // The steps that the proof reports, up to the first one that fails.
    method CheckProof(steps: seq<ProofStep>) returns (ok: bool, ghost n: nat)
      requires Valid() && forall i :: 0 <= i < |steps| ==> NonZero(steps[i].clause)
      modifies this
      ensures Valid() && n <= |steps| && (ok <==> n == |steps|)
      ensures formula == old(formula) + Originals(steps[..n]) && Sound(old(formula), steps, n)
      ensures CopiesKept(store, trail, inconsistent, steps, n)
      ensures !ok ==> Fails(store, trail, steps[n])
    {
      ok := true;
      var i := 0;
      n := 0;
      while i < |steps| && ok
        invariant Valid() && i <= |steps| && n == (if ok then i else i - 1) && 0 <= n
        invariant formula == old(formula) + Originals(steps[..n]) && Sound(old(formula), steps, n)
        invariant CopiesKept(store, trail, inconsistent, steps, n)
        invariant !ok ==> n < |steps| && Fails(store, trail, steps[n])
      {
        ok := CheckStep(steps, i, old(formula));
        i := i + 1;
        n := if ok then i else i - 1;
      }
    }

    method CheckStep(steps: seq<ProofStep>, i: nat, ghost formula0: seq<seq<int>>) returns (ok: bool)
      requires Valid() && i < |steps| && NonZero(steps[i].clause)
      requires formula == formula0 + Originals(steps[..i]) && Sound(formula0, steps, i)
      requires CopiesKept(store, trail, inconsistent, steps, i)
      modifies this
      ensures Valid()
      ensures ok ==> formula == formula0 + Originals(steps[..i + 1]) && Sound(formula0, steps, i + 1)
      ensures ok ==> CopiesKept(store, trail, inconsistent, steps, i + 1)
      ensures !ok ==> formula == old(formula) && CopiesKept(store, trail, inconsistent, steps, i) && Fails(store, trail, steps[i])
    {
      ok := true;
      assert steps[..i + 1][..i] == steps[..i];
      ghost var store0, trail0, inconsistent0 := store, trail, inconsistent;
      match steps[i]
      case AddOriginal(c) =>
        AddOriginalClause(c);
        CopiesKeptMore(store0, trail0, inconsistent0, store, trail, inconsistent, steps, i);
      case AddDerived(c) =>
        ok := AddDerivedClause(c);
        if ok {
          CopiesKeptMore(store0, trail0, inconsistent0, store, trail, inconsistent, steps, i);
        } else {
          CopiesKeptSame(store0, trail0, inconsistent0, store, steps, i);
        }
      case Delete(c) =>
        ghost var id;
        ok, id := DeleteClause(c);
        if ok {
          CopiesKeptMore(store0, trail0, inconsistent0, store, trail, inconsistent, steps, i);
        }
    }

    // clause_satisfied
    method ClauseSatisfied(lits: seq<int>) returns (b: bool)
      ensures b <==> exists i :: 0 <= i < |lits| && Val(vals, lits[i]) > 0
    {
      b := false;
      var i := 0;
      while i < |lits| && !b
        invariant 0 <= i <= |lits|
        invariant b <==> exists k :: 0 <= k < i && Val(vals, lits[k]) > 0
      {
        b := Val(vals, lits[i]) > 0;
        i := i + 1;
      }
    }
  }

  // What the proof reports to the checker.
  datatype ProofStep = AddOriginal(clause: seq<int>) | AddDerived(clause: seq<int>) | Delete(clause: seq<int>)

  function Originals(steps: seq<ProofStep>): seq<seq<int>> {
    if steps == [] then []
    else
      var n := |steps| - 1;
      Originals(steps[..n]) + if steps[n].AddOriginal? then [steps[n].clause] else []
  }

  // How often c is added more than deleted by the steps from k to n.
  ghost function Net(steps: seq<ProofStep>, k: nat, n: nat, c: seq<int>): int
    requires n <= |steps|
  {
    if n <= k then 0
    else
      var change := if !SameLits(c, steps[n - 1].clause) then 0 else if steps[n - 1].Delete? then -1 else 1;
      Net(steps, k, n - 1, c) + change
  }

  // From every point on, of every clause as many live copies have stayed as
  // were added and not deleted, unless it is known without.
  ghost predicate CopiesKept(store: seq<CheckerClause>, trail: seq<int>, inconsistent: bool, steps: seq<ProofStep>, n: nat)
    requires n <= |steps|
  {
    forall k, c {:trigger Net(steps, k, n, c)} :: 0 <= k <= n ==> Copies(store, trail, inconsistent, c, Net(steps, k, n, c))
  }

  // Only steps that pass are taken: derived clauses are implied by the
  // original clauses before them.
  ghost predicate Sound(formula: seq<seq<int>>, steps: seq<ProofStep>, n: nat)
    requires n <= |steps|
  {
    forall i :: 0 <= i < n && steps[i].AddDerived? ==> Implied(formula + Originals(steps[..i]), steps[i].clause)
  }

  lemma CopiesKeptSame(store: seq<CheckerClause>, trail: seq<int>, inconsistent: bool, store': seq<CheckerClause>,
                      steps: seq<ProofStep>, n: nat)
    requires n <= |steps| && CopiesKept(store, trail, inconsistent, steps, n) && SameClauses(store, store')
    ensures CopiesKept(store', trail, inconsistent, steps, n)
  {
    forall k, c | 0 <= k <= n
      ensures Copies(store', trail, inconsistent, c, Net(steps, k, n, c))
    {
      assert Copies(store, trail, inconsistent, c, Net(steps, k, n, c));
      forall id | id in LiveIds(store, c)
        ensures id in LiveIds(store', c)
      {
        assert Reordered(store[id], store'[id]);
      }
      LiveIdsWithin(LiveIds(store, c), LiveIds(store', c));
    }
  }

  // Why a step fails: propagation is stuck against the derived clause, or
  // there is no such clause to delete.
  ghost predicate Fails(store: seq<CheckerClause>, trail: seq<int>, step: ProofStep) {
    match step
    case AddOriginal(_) => false
    case AddDerived(c) => exists simplified, t :: SameLits(simplified, c) && Fixpoint(store, trail, simplified, t)
    case Delete(c) => forall id :: 0 <= id < |store| ==> !SameLive(store[id], c)
  }

  lemma CopiesKeptMore(store: seq<CheckerClause>, trail: seq<int>, inconsistent: bool,
                      store': seq<CheckerClause>, trail': seq<int>, inconsistent': bool, steps: seq<ProofStep>, n: nat)
    requires n < |steps| && CopiesKept(store, trail, inconsistent, steps, n)
    requires if steps[n].Delete? then
        forall d, m {:trigger Copies(store', trail', inconsistent', d, m)} ::
          Copies(store, trail, inconsistent, d, m + ToInt(SameLits(d, steps[n].clause))) ==> Copies(store', trail', inconsistent', d, m)
      else
        && KeptAll(store, store') && trail <= trail' && (inconsistent ==> inconsistent')
        && Gained(store, store', trail', inconsistent', steps[n].clause)
    ensures CopiesKept(store', trail', inconsistent', steps, n + 1)
  {
    var last := n + 1;
    forall k, c | 0 <= k <= last
      ensures Copies(store', trail', inconsistent', c, Net(steps, k, last, c))
    {
      if k <= n {
        assert Copies(store, trail, inconsistent, c, Net(steps, k, n, c));
        if !steps[n].Delete? {
          MoreCopies(store, trail, inconsistent, store', trail', inconsistent', steps[n].clause, c, Net(steps, k, n, c));
        }
      }
    }
  }

  lemma {:induction false} NetKept(steps: seq<ProofStep>, i: nat, n: nat)
    requires i < n <= |steps| && !steps[i].Delete?
    requires forall j :: i < j < n && steps[j].Delete? ==> !SameLits(steps[i].clause, steps[j].clause)
    ensures Net(steps, i, n, steps[i].clause) >= 1
  {
    if n == i + 1 {
      assert Net(steps, i, i, steps[i].clause) == 0;
    } else {
      NetKept(steps, i, n - 1);
    }
  }

  // The law of the run: what was added and has not been deleted since is
  // known to the checker.
  lemma AddedIsRecorded(store: seq<CheckerClause>, trail: seq<int>, inconsistent: bool, steps: seq<ProofStep>, i: nat, n: nat)
    requires i < n <= |steps| && CopiesKept(store, trail, inconsistent, steps, n) && !steps[i].Delete?
    requires forall j :: i < j < n && steps[j].Delete? ==> !SameLits(steps[i].clause, steps[j].clause)
    ensures Recorded(store, trail, inconsistent, steps[i].clause)
  {
    NetKept(steps, i, n);
    var c := steps[i].clause;
    assert Copies(store, trail, inconsistent, c, Net(steps, i, n, c));
    if |LiveIds(store, c)| >= 1 {
      var id :| id in LiveIds(store, c);
      assert SameLive(store[id], c);
    }
  }

  // No clause is lost: literals may be reordered, new clauses come last.
  ghost predicate KeptAll(store: seq<CheckerClause>, store': seq<CheckerClause>) {
    true == (
      && |store'| >= |store|
      && forall id :: 0 <= id < |store| ==> Reordered(store[id], store'[id]))
  }

  // The checker knows the clause.
  ghost predicate Recorded(store: seq<CheckerClause>, trail: seq<int>, inconsistent: bool, c: seq<int>) {
    || inconsistent
    || (exists l :: l in c && -l in c)
    || SatBy(c, trail)
    || exists id :: 0 <= id < |store| && SameLive(store[id], c)
  }

  // The checker has learned the clause: it is stored anew, unless it is
  // known without.
  ghost predicate Gained(store: seq<CheckerClause>, store': seq<CheckerClause>, trail: seq<int>, inconsistent: bool, c: seq<int>) {
    || inconsistent
    || (exists l :: l in c && -l in c)
    || SatBy(c, trail)
    || exists id :: |store| <= id < |store'| && SameLive(store'[id], c)
  }

  // The checker knows the clause, and unless it does so without storing it,
  // it has at least n live copies of it.
  ghost predicate Copies(store: seq<CheckerClause>, trail: seq<int>, inconsistent: bool, c: seq<int>, n: int) {
    || inconsistent
    || (exists l :: l in c && -l in c)
    || SatBy(c, trail)
    || |LiveIds(store, c)| >= n
  }

  ghost function LiveIds(store: seq<CheckerClause>, c: seq<int>): set<int> {
    set id | 0 <= id < |store| && SameLive(store[id], c)
  }

  ghost predicate SameLits(c: seq<int>, d: seq<int>) {
    forall l :: l in c <==> l in d
  }

  // A live clause with the same literals.
  ghost predicate SameLive(d: CheckerClause, c: seq<int>) {
    !d.garbage && forall l :: l in d.lits <==> l in c
  }

  // A clause that is neither stored nor deleted: tautological, or satisfied.
  ghost predicate Idle(c: seq<int>, vals: map<int, int>) {
    exists l :: l in c && (-l in c || Val(vals, l) > 0)
  }

  ghost predicate SatisfiedBy(lits: seq<int>, vals: map<int, int>) {
    exists i :: 0 <= i < |lits| && Val(vals, lits[i]) > 0
  }

  // Clause id has become garbage, and perhaps satisfied ones.
  ghost predicate Deleted(store: seq<CheckerClause>, store': seq<CheckerClause>, vals: map<int, int>, id: int) {
    true == (
      && |store'| == |store| && 0 <= id < |store| && store'[id].garbage
      && forall d :: 0 <= d < |store| ==>
           && store'[d].lits == store[d].lits && (store[d].garbage ==> store'[d].garbage)
           && (store'[d].garbage ==> store[d].garbage || d == id || SatisfiedBy(store[d].lits, vals)))
  }

  // Exactly the satisfied ones among the first n have become garbage.
  ghost predicate SweptUpTo(store: seq<CheckerClause>, store': seq<CheckerClause>, vals: map<int, int>, n: int) {
    && |store'| == |store|
    && forall d :: 0 <= d < |store| ==>
         && store'[d].lits == store[d].lits
         && (store'[d].garbage <==> store[d].garbage || (d < n && SatisfiedBy(store[d].lits, vals)))
  }

  lemma KeptNow(store: seq<CheckerClause>, store': seq<CheckerClause>)
    requires SameClauses(store, store') || (|store'| > |store| && store'[..|store|] == store) || store == store'
    ensures KeptAll(store, store')
  {
    if |store'| > |store| {
      assert forall id :: 0 <= id < |store| ==> store'[id] == store'[..|store|][id];
    }
  }

  lemma KeptSame(store: seq<CheckerClause>, store': seq<CheckerClause>)
    requires SameClauses(store, store')
    ensures KeptAll(store, store')
  {
  }

  lemma KeptOn(a: seq<CheckerClause>, b: seq<CheckerClause>, c: seq<CheckerClause>)
    requires KeptAll(a, b) && KeptAll(b, c)
    ensures KeptAll(a, c)
  {
    forall id | 0 <= id < |a|
      ensures Reordered(a[id], c[id])
    {
      assert Reordered(a[id], b[id]) && Reordered(b[id], c[id]);
    }
  }

  lemma SameGained(store: seq<CheckerClause>, store': seq<CheckerClause>, trail: seq<int>, inconsistent: bool,
                   simplified: seq<int>, c: seq<int>)
    requires (forall l :: l in simplified <==> l in c) && Gained(store, store', trail, inconsistent, simplified)
    ensures Gained(store, store', trail, inconsistent, c)
  {
    if SatBy(simplified, trail) {
      var i :| 0 <= i < |simplified| && simplified[i] in trail;
      assert simplified[i] in simplified;
      var k :| 0 <= k < |c| && c[k] == simplified[i];
    }
  }

  lemma GainedRecorded(store: seq<CheckerClause>, store': seq<CheckerClause>, trail: seq<int>, inconsistent: bool, c: seq<int>)
    requires Gained(store, store', trail, inconsistent, c)
    ensures Recorded(store', trail, inconsistent, c)
  {
  }

  // More is true, and no clause is lost: what was known is known.
  lemma StillRecorded(store: seq<CheckerClause>, trail: seq<int>, inconsistent: bool,
                      store': seq<CheckerClause>, trail': seq<int>, inconsistent': bool)
    requires KeptAll(store, store') && trail <= trail' && (inconsistent ==> inconsistent')
    ensures forall d :: Recorded(store, trail, inconsistent, d) ==> Recorded(store', trail', inconsistent', d)
  {
    forall d | Recorded(store, trail, inconsistent, d)
      ensures Recorded(store', trail', inconsistent', d)
    {
      if SatBy(d, trail) {
        StillSatisfied(d, trail, trail');
      } else if id :| 0 <= id < |store| && SameLive(store[id], d) {
        assert Reordered(store[id], store'[id]);
        assert SameLive(store'[id], d);
      }
    }
  }

  lemma StillSatisfied(d: seq<int>, trail: seq<int>, trail': seq<int>)
    requires SatBy(d, trail) && trail <= trail'
    ensures SatBy(d, trail')
  {
    var i :| 0 <= i < |d| && d[i] in trail;
    var k :| 0 <= k < |trail| && trail[k] == d[i];
    assert trail'[k] == d[i];
  }

  lemma LiveIdsWithin(a: set<int>, b: set<int>)
    requires a <= b
    ensures |a| <= |b|
  {
    assert b == a + (b - a);
  }

  // A learned clause has one more copy, the others have as many as before.
  lemma MoreCopies(store: seq<CheckerClause>, trail: seq<int>, inconsistent: bool,
                   store': seq<CheckerClause>, trail': seq<int>, inconsistent': bool, c: seq<int>, d: seq<int>, n: int)
    requires KeptAll(store, store') && trail <= trail' && (inconsistent ==> inconsistent')
    requires Gained(store, store', trail', inconsistent', c) && Copies(store, trail, inconsistent, d, n)
    ensures Copies(store', trail', inconsistent', d, n + ToInt(SameLits(d, c)))
  {
    if SatBy(d, trail) {
      StillSatisfied(d, trail, trail');
    } else if !inconsistent' && (forall l :: l in d ==> -l !in d) && !SatBy(d, trail') {
      forall id | id in LiveIds(store, d)
        ensures id in LiveIds(store', d)
      {
        assert Reordered(store[id], store'[id]);
      }
      LiveIdsWithin(LiveIds(store, d), LiveIds(store', d));
      if SameLits(d, c) {
        SameKnown(d, c, trail');
        var id :| |store| <= id < |store'| && SameLive(store'[id], c);
        LiveIdsWithin(LiveIds(store, d) + {id}, LiveIds(store', d));
      }
    }
  }

  lemma SameKnown(d: seq<int>, c: seq<int>, trail: seq<int>)
    requires SameLits(d, c)
    ensures SatBy(c, trail) ==> SatBy(d, trail)
    ensures (exists l :: l in c && -l in c) ==> exists l :: l in d && -l in d
  {
    if SatBy(c, trail) {
      var i :| 0 <= i < |c| && c[i] in trail;
      assert c[i] in c;
      var k :| 0 <= k < |d| && d[k] == c[i];
    }
  }

  // A deletion takes one copy of that clause, and no other clause.
  lemma FewerCopies(store: seq<CheckerClause>, store': seq<CheckerClause>, trail: seq<int>, inconsistent: bool,
                    formula: seq<seq<int>>, s: State, c: seq<int>, id: int)
    requires inconsistent || Base(formula, [], [], s)
    requires s.store == store && s.trail == trail
    requires store' == store || (0 <= id < |store| && SameLive(store[id], c) && Deleted(store, store', s.vals, id))
    ensures forall d, n {:trigger Copies(store', trail, inconsistent, d, n)} ::
      Copies(store, trail, inconsistent, d, n + ToInt(SameLits(d, c))) ==> Copies(store', trail, inconsistent, d, n)
  {
    forall d, n | Copies(store, trail, inconsistent, d, n + ToInt(SameLits(d, c)))
      ensures Copies(store', trail, inconsistent, d, n)
    {
      if store' != store && !inconsistent && !SatBy(d, trail) {
        forall k | k in LiveIds(store, d) && k != id
          ensures k in LiveIds(store', d)
        {
          SatisfiedKnown(formula, s, k, d);
        }
        LiveIdsWithin(LiveIds(store, d) - {id}, LiveIds(store', d));
        assert id in LiveIds(store, d) ==> SameLits(d, c);
      }
    }
  }

  // A clause that is not known to be true is not satisfied.
  lemma SatisfiedKnown(formula: seq<seq<int>>, s: State, k: int, d: seq<int>)
    requires Base(formula, [], [], s) && 0 <= k < |s.store| && SameLive(s.store[k], d) && !SatBy(d, s.trail)
    ensures !SatisfiedBy(s.store[k].lits, s.vals)
  {
    forall i | 0 <= i < |s.store[k].lits|
      ensures Val(s.vals, s.store[k].lits[i]) <= 0
    {
      var l := s.store[k].lits[i];
      assert l in s.store[k].lits;
      var j :| 0 <= j < |d| && d[j] == l;
      assert l !in s.trail;
    }
  }

  lemma TautologyGained(formula: seq<seq<int>>, s: State, inconsistent: bool, c: seq<int>)
    requires Base(formula, [], [], s) && Idle(c, s.vals)
    ensures Gained(s.store, s.store, s.trail, inconsistent, c)
  {
    var l :| l in c && (-l in c || Val(s.vals, l) > 0);
    if -l !in c {
      var k :| 0 <= k < |c| && c[k] == l;
      assert c[k] in s.trail;
    }
  }

  lemma NotIdle(c: seq<int>, simplified: seq<int>, vals: map<int, int>)
    requires DistinctVars(simplified) && (forall l :: l in simplified <==> l in c) && NonZero(c)
    requires forall l :: l in simplified ==> Val(vals, l) <= 0
    ensures !Idle(c, vals)
  {
    forall l | l in c
      ensures -l !in c
    {
      var k :| 0 <= k < |c| && c[k] == l;
      NotBoth(simplified, l);
    }
  }

  // As many literals as the clause has, all of them in it, are all of it.
  lemma FoundMeans(formula: seq<seq<int>>, s: State, simplified: seq<int>, c: seq<int>)
    requires Base(formula, [], [], s) && DistinctVars(simplified) && (forall l :: l in simplified <==> l in c)
    ensures forall d :: 0 <= d < |s.store| ==> (LiveMatch(s.store[d], simplified) <==> SameLive(s.store[d], c))
  {
    forall d | 0 <= d < |s.store|
      ensures LiveMatch(s.store[d], simplified) <==> SameLive(s.store[d], c)
    {
      ClauseAt(formula, [], [], s, d);
      var lits := s.store[d].lits;
      if forall k :: 0 <= k < |lits| ==> lits[k] in simplified {
        WithinSize(lits, simplified);
      } else {
        var k :| 0 <= k < |lits| && lits[k] !in simplified;
        assert lits[k] in lits;
      }
    }
  }

  lemma DeletedMore(a: seq<CheckerClause>, b: seq<CheckerClause>, c: seq<CheckerClause>, vals: map<int, int>, id: int)
    requires 0 <= id < |a| && b == Trashed(a, id) && SweptUpTo(b, c, vals, |b|)
    ensures Deleted(a, c, vals, id)
  {
  }

  function Negations(lits: seq<int>): seq<int> {
    seq(|lits|, i requires 0 <= i < |lits| => -lits[i])
  }

  // A set of literals that extends the root and the negated clause, contains
  // no clash, and leaves no live clause false or unit.
  ghost predicate Fixpoint(store: seq<CheckerClause>, root: seq<int>, clause: seq<int>, t: seq<int>) {
    && (forall l :: l in root ==> l in t) && (forall i :: 0 <= i < |clause| ==> -clause[i] in t)
    && (forall l :: l in t ==> -l !in t)
    && forall id :: 0 <= id < |store| && !store[id].garbage ==> NotUnit(store[id].lits, t)
  }

  lemma StuckAt(store: seq<CheckerClause>, root: seq<int>, clause: seq<int>, t: seq<int>)
    requires |t| >= |root| && t[..|root|] == root && forall i :: 0 <= i < |clause| ==> -clause[i] in t
    requires forall l :: l in t ==> -l !in t
    requires forall id :: 0 <= id < |store| && !store[id].garbage ==> NotUnit(store[id].lits, t)
    ensures Fixpoint(store, root, clause, t)
  {
    forall l | l in root
      ensures l in t
    {
      var i :| 0 <= i < |root| && root[i] == l;
      assert t[i] == l;
    }
  }

  lemma UnassignTrail(vals: map<int, int>, trail: seq<int>)
    requires TrailOk(vals, trail) && |trail| >= 1
    ensures var l := trail[|trail| - 1];
      TrailOk(vals[l := 0][-l := 0], trail[..|trail| - 1])
  {
    var n := |trail| - 1;
    var l, rest := trail[n], trail[..n];
    var vals' := vals[l := 0][-l := 0];
    assert trail == rest + [l];
    assert l in trail;
    forall m
      ensures Val(vals', m) == if m in rest then 1 else if -m in rest then -1 else 0
    {
      assert m in trail <==> m in rest || m == l;
      assert -m in trail <==> -m in rest || -m == l;
      assert Val(vals', m) == if m == l || m == -l then 0 else Val(vals, m);
    }
    forall m | m in rest
      ensures m != 0 && -m !in rest
    {
      assert m in trail;
      assert -m in rest ==> -m in trail;
    }
    assert Unrepeated(rest);
    assert TrailOk(vals', rest);
  }

  // Back at the root, everything is as before the assumptions.
  lemma RootAgain(formula: seq<seq<int>>, assumed: seq<int>, root: seq<int>, s: State, t: State, size: nat)
    requires Base(formula, assumed, root, s) && Sized(s, size) && Forces(formula, [], root)
    requires t == s.(vals := t.vals, trail := root, next := |root|) && TrailOk(t.vals, root)
    ensures Base(formula, [], [], t) && Propagated(t) && Sized(t, size)
  {
    assert t.trail[..t.next] == root;
    forall id | 0 <= id < |t.store|
      ensures QuietClause(t.store[id], [], [])
    {
    }
  }

  lemma RootForces(formula: seq<seq<int>>, s: State)
    requires Base(formula, [], [], s)
    ensures Forces(formula, [], s.trail)
  {
  }

  lemma ValOpposite(formula: seq<seq<int>>, assumed: seq<int>, root: seq<int>, s: State, l: int)
    requires Base(formula, assumed, root, s) && l != 0
    ensures Val(s.vals, -l) == -Val(s.vals, l)
    ensures Val(s.vals, -l) > 0 ==> -l in s.trail
  {
    assert -(-l) == l;
  }

  lemma AssumedForced(formula: seq<seq<int>>, simplified: seq<int>, i: nat)
    requires i < |simplified|
    ensures Forces(formula, Negations(simplified), [-simplified[i]])
  {
    assert Negations(simplified)[i] == -simplified[i];
  }

  lemma RefutedIsImplied(formula: seq<seq<int>>, simplified: seq<int>)
    requires Refutes(formula, Negations(simplified)) && NonZero(simplified)
    ensures Implied(formula, simplified)
  {
    forall a | ClausesSat(formula, a)
      ensures ClauseSat(simplified, a)
    {
      assert !AllHold(Negations(simplified), a);
      var l :| l in Negations(simplified) && !Holds(l, a);
      var i :| 0 <= i < |simplified| && Negations(simplified)[i] == l;
      assert Holds(simplified[i], a);
    }
  }

  ghost predicate LiveMatch(c: CheckerClause, simplified: seq<int>) {
    !c.garbage && |c.lits| == |simplified| && forall k :: 0 <= k < |c.lits| ==> c.lits[k] in simplified
  }

  predicate LitLeq(a: int, b: int) {
    Abs(a) < Abs(b) || (Abs(a) == Abs(b) && a <= b)
  }

  ghost predicate Sorted(s: seq<int>) {
    forall i, j :: 0 <= i < j < |s| ==> LitLeq(s[i], s[j])
  }

  function InsertLit(s: seq<int>, l: int): (r: seq<int>)
    requires Sorted(s)
    ensures Sorted(r) && forall x :: x in r <==> x in s || x == l
  {
    if s == [] then [l]
    else
      var n := |s| - 1;
      if LitLeq(s[n], l) then s + [l]
      else
        var rest := InsertLit(s[..n], l);
        assert s == s[..n] + [s[n]];
        assert forall i :: 0 <= i < |rest| ==> rest[i] in rest;
        rest + [s[n]]
  }

  // sort, with lit_smaller
  function SortLits(c: seq<int>): (r: seq<int>)
    ensures Sorted(r) && forall x :: x in r <==> x in c
  {
    if c == [] then []
    else
      var n := |c| - 1;
      assert c == c[..n] + [c[n]];
      InsertLit(SortLits(c[..n]), c[n])
  }

  lemma SizedMore(s: State, size: nat, size': nat)
    requires Sized(s, size) && size' >= size
    ensures Sized(s, size')
  {
  }

  lemma TrashedSized(s: State, size: nat, id: nat)
    requires Sized(s, size) && id < |s.store|
    ensures Sized(s.(store := Trashed(s.store, id)), size)
  {
  }

  lemma NewClauseOk(formula: seq<seq<int>>, s: State, simplified: seq<int>, lits: seq<int>, size: nat)
    requires Base(formula, [], [], s) && Propagated(s) && Sized(s, size)
    requires Implied(formula, simplified) && NonZero(simplified) && Permuted(simplified, lits) && |lits| >= 2
    requires forall i :: 0 <= i < |simplified| ==> Abs(simplified[i]) < size
    requires Val(s.vals, lits[0]) == 0 && Val(s.vals, lits[1]) == 0
    ensures Base(formula, [], [], Inserted(s, lits)) && Propagated(Inserted(s, lits)) && Sized(Inserted(s, lits), size)
  {
    PermutedKeeps(simplified, lits);
    forall l | l in lits
      ensures l != 0 && Abs(l) < size
    {
      assert l in simplified;
    }
    forall i | 0 <= i < |lits|
      ensures lits[i] != 0
    {
      assert lits[i] in lits;
    }
    InsertKeeps(formula, s, lits);
  }

  // All literals but the one at p are false: it is forced, and without any
  // the formula is refuted.
  lemma OpenFalse(formula: seq<seq<int>>, s: State, lits: seq<int>, p: nat)
    requires Base(formula, [], [], s) && Implied(formula, lits) && NonZero(lits)
    requires forall i :: 0 <= i < |lits| && i != p ==> Val(s.vals, lits[i]) < 0
    ensures p < |lits| ==> Forces(formula, [], [lits[p]])
    ensures p >= |lits| ==> Refutes(formula, [])
  {
    assert forall i :: 0 <= i < |lits| && i != p ==> -lits[i] in s.trail;
    if p < |lits| {
      UnitForced(formula, [], s.trail, lits, lits[p]);
    } else {
      FalseRefutes(formula, [], s.trail, lits);
    }
  }

  lemma GrowFormula(formula: seq<seq<int>>, c: seq<int>)
    ensures Refutes(formula, []) ==> Refutes(formula + [c], [])
    ensures Implied(formula + [c], c)
  {
    ClausesSnoc(formula, c);
  }

  // The same literals in another order say the same.
  lemma SameMembers(formula: seq<seq<int>>, c: seq<int>, d: seq<int>, size: nat)
    requires forall l :: l in c <==> l in d
    ensures Implied(formula, c) ==> Implied(formula, d)
    ensures NonZero(c) ==> NonZero(d)
    ensures (forall i :: 0 <= i < |c| ==> Abs(c[i]) < size) ==> forall i :: 0 <= i < |d| ==> Abs(d[i]) < size
  {
    forall i | 0 <= i < |d|
      ensures d[i] in c
    {
      var l := d[i];
      assert l in d;
    }
    forall a: Assignment | ClauseSat(c, a)
      ensures ClauseSat(d, a)
    {
      var i :| 0 <= i < |c| && Holds(c[i], a);
      assert c[i] in c;
      var k :| 0 <= k < |d| && d[k] == c[i];
    }
  }

  lemma TautologyImplied(formula: seq<seq<int>>, s: State, c: seq<int>)
    requires Base(formula, [], [], s) && NonZero(c) && exists l :: l in c && (-l in c || Val(s.vals, l) > 0)
    ensures Implied(formula, c)
  {
    var l :| l in c && (-l in c || Val(s.vals, l) > 0);
    var i :| 0 <= i < |c| && c[i] == l;
    forall a | ClausesSat(formula, a)
      ensures ClauseSat(c, a)
    {
      assert AllHold([], a);
      if !Holds(l, a) {
        assert l !in s.trail;
        var k :| 0 <= k < |c| && c[k] == -l;
        assert Holds(c[k], a);
      }
    }
  }

  function LiveEntries(store: seq<CheckerClause>, list: seq<Watch>): seq<Watch> {
    if list == [] then []
    else
      var w := list[|list| - 1];
      LiveEntries(store, list[..|list| - 1]) + (if w.clause < |store| && store[w.clause].garbage then [] else [w])
  }

  lemma {:induction false} LiveEntriesFrom(store: seq<CheckerClause>, list: seq<Watch>)
    ensures forall w :: w in LiveEntries(store, list) <==> w in list && !(w.clause < |store| && store[w.clause].garbage)
  {
    if list != [] {
      LiveEntriesFrom(store, list[..|list| - 1]);
      assert list == list[..|list| - 1] + [list[|list| - 1]];
    }
  }

  lemma {:induction false} LiveEntriesNoDup(store: seq<CheckerClause>, list: seq<Watch>)
    requires NoDup(list)
    ensures NoDup(LiveEntries(store, list))
  {
    if list != [] {
      var n := |list| - 1;
      LiveEntriesNoDup(store, list[..n]);
      LiveEntriesFrom(store, list[..n]);
      var rest := LiveEntries(store, list[..n]);
      forall k | 0 <= k < |rest|
        ensures rest[k].clause != list[n].clause
      {
        assert rest[k] in rest;
      }
    }
  }

  lemma LiveEntriesOk(store: seq<CheckerClause>, l: int, list: seq<Watch>)
    requires ListOk(store, l, list)
    ensures ListOk(store, l, LiveEntries(store, list))
  {
    LiveEntriesNoDup(store, list);
    LiveEntriesFrom(store, list);
    var kept := LiveEntries(store, list);
    forall k | 0 <= k < |kept|
      ensures WatchOk(store, l, kept[k])
    {
      assert kept[k] in kept;
    }
  }

  lemma LiveEntriesAttached(store: seq<CheckerClause>, list: seq<Watch>, id: nat)
    requires id < |store| && !store[id].garbage && Attached(list, id)
    ensures Attached(LiveEntries(store, list), id)
  {
    LiveEntriesFrom(store, list);
    var k :| 0 <= k < |list| && list[k].clause == id;
    assert list[k] in LiveEntries(store, list);
  }

  function Collected(store: seq<CheckerClause>, watchers: map<int, seq<Watch>>): map<int, seq<Watch>> {
    map l | l in watchers :: LiveEntries(store, watchers[l])
  }

  lemma CollectedLists(store: seq<CheckerClause>, watchers: map<int, seq<Watch>>)
    requires ListsOk(store, watchers)
    ensures ListsOk(store, Collected(store, watchers))
    ensures forall l :: ListOf(Collected(store, watchers), l) == LiveEntries(store, ListOf(watchers, l))
  {
    var watchers' := Collected(store, watchers);
    forall l
      ensures ListOf(watchers', l) == LiveEntries(store, ListOf(watchers, l)) && ListOk(store, l, ListOf(watchers', l))
    {
      assert ListOk(store, l, ListOf(watchers, l));
      LiveEntriesOk(store, l, ListOf(watchers, l));
    }
    forall id | 0 <= id < |store|
      ensures ClauseAttached(store, watchers', id)
    {
      assert ClauseAttached(store, watchers, id);
      if !store[id].garbage {
        LiveEntriesAttached(store, ListOf(watchers, store[id].lits[0]), id);
        LiveEntriesAttached(store, ListOf(watchers, store[id].lits[1]), id);
      }
    }
  }

  lemma CollectedKeeps(formula: seq<seq<int>>, s: State, size: nat)
    requires Base(formula, [], [], s) && Propagated(s) && Sized(s, size)
    ensures var t := s.(watchers := Collected(s.store, s.watchers));
      && Base(formula, [], [], t) && Propagated(t) && Sized(t, size)
      && NoGarbage(t.store, t.watchers)
  {
    CollectedLists(s.store, s.watchers);
    var watchers' := Collected(s.store, s.watchers);
    forall l, k | 0 <= k < |ListOf(watchers', l)| && ListOf(watchers', l)[k].clause < |s.store|
      ensures !s.store[ListOf(watchers', l)[k].clause].garbage
    {
      LiveEntriesFrom(s.store, ListOf(s.watchers, l));
      assert ListOf(watchers', l)[k] in ListOf(watchers', l);
    }
  }

  ghost predicate NoGarbage(store: seq<CheckerClause>, watchers: map<int, seq<Watch>>) {
    forall l, k :: 0 <= k < |ListOf(watchers, l)| && ListOf(watchers, l)[k].clause < |store| ==>
      !store[ListOf(watchers, l)[k].clause].garbage
  }
}
