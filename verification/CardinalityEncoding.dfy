/** Cardinality constraints as clauses: the totalizer encoding of "at most `bound` of these literals are true",
    built bottom-up from a queue of nodes. */
module CardinalityEncoding {
  import opened Knf
  import opened Clauses
  import opened SplitEncoding

  // What the fresh variable for position k of a node over `leaves` says: more
  // than k of the leaves are true.
  datatype Meaning = Meaning(leaves: seq<int>, k: nat)

  // a, with the variables from base on set to what they mean.
  function Extended(a: Assignment, base: int, meaning: seq<Meaning>): Assignment {
    x => if base <= x < base + |meaning| then Count(meaning[x - base].leaves, a) > meaning[x - base].k else a(x)
  }

  function Min(x: int, y: int): int {
    if x < y then x else y
  }

  // What the clauses of one branch say.
  ghost predicate BranchHolds(left: seq<int>, right: seq<int>, mid: seq<int>, bound: nat, a: Assignment)
    requires |mid| == Min(|left| + |right|, bound + 1)
  {
    && SideHolds(left, mid, Min(|left|, bound + 1), a) && SideHolds(right, mid, Min(|right|, bound + 1), a)
    && PairsHold(left, right, mid, bound, |left|, 0, a)
    && (|left| + |right| > bound ==> Holds(-mid[bound], a))
  }

  // One literal of a child is passed on.
  ghost predicate SideHolds(side: seq<int>, mid: seq<int>, n: int, a: Assignment)
    requires n <= |side| && n <= |mid|
  {
    forall i :: 0 <= i < n ==> Holds(mid[i], a) || Holds(-side[i], a)
  }

  // Two literals, one of each child, are added; (i, j) is the next pair.
  ghost predicate PairsHold(left: seq<int>, right: seq<int>, mid: seq<int>, bound: nat, i: int, j: int, a: Assignment)
    requires |mid| == Min(|left| + |right|, bound + 1)
  {
    forall p, q :: 0 <= p < |left| && 0 <= q < |right| && p + q < bound && (p < i || (p == i && q < j)) ==>
      Holds(mid[p + q + 1], a) || Holds(-left[p], a) || Holds(-right[q], a)
  }

  // A node over some leaves, in a formula cs whose fresh variables start at
  // base: its k-th literal means, and is forced by, more than k true leaves.
  ghost predicate NodeOk(node: seq<int>, leaves: seq<int>, bound: nat, base: int, meaning: seq<Meaning>, cs: seq<seq<int>>) {
    true == (
      && |node| == Min(|leaves|, bound + 1) && Below(node, base + |meaning|)
      && Means(node, leaves, base, meaning) && Forced(node, leaves, cs))
  }

  ghost predicate Means(node: seq<int>, leaves: seq<int>, base: int, meaning: seq<Meaning>) {
    forall a, k :: 0 <= k < |node| ==> (Holds(node[k], Extended(a, base, meaning)) <==> Count(leaves, a) > k)
  }

  ghost predicate Forced(node: seq<int>, leaves: seq<int>, cs: seq<seq<int>>) {
    forall a, k :: 0 <= k < |node| && ClausesSat(cs, a) && Count(leaves, a) > k ==> Holds(node[k], a)
  }

  // The clauses bound the number of true leaves.
  ghost predicate Bounded(leaves: seq<int>, bound: nat, cs: seq<seq<int>>) {
    forall a {:trigger ClausesSat(cs, a)} :: ClausesSat(cs, a) ==> Count(leaves, a) <= bound
  }

  // Within the bound, the meanings satisfy all clauses.
  ghost predicate Satisfiable(lits: seq<int>, bound: nat, base: int, meaning: seq<Meaning>, cs: seq<seq<int>>) {
    forall a :: Count(lits, a) <= bound ==> ClausesSat(cs, Extended(a, base, meaning))
  }

  function MidMeaning(leaves: seq<int>, n: nat): seq<Meaning> {
    seq(n, k requires 0 <= k < n => Meaning(leaves, k))
  }

  function MidVars(freshVar: int, n: nat): seq<int> {
    seq(n, i requires 0 <= i < n => freshVar + i)
  }

  lemma ExtendedAgrees(a: Assignment, base: int, meaning: seq<Meaning>, more: seq<Meaning>, l: int)
    requires 1 <= Abs(l) < base + |meaning|
    ensures Holds(l, Extended(a, base, meaning + more)) == Holds(l, Extended(a, base, meaning))
  {
  }

  // More clauses and more fresh variables leave a node as it is.
  lemma NodeGrows(node: seq<int>, leaves: seq<int>, bound: nat, base: int, meaning: seq<Meaning>, more: seq<Meaning>,
                  cs: seq<seq<int>>, added: seq<seq<int>>)
    requires NodeOk(node, leaves, bound, base, meaning, cs)
    ensures NodeOk(node, leaves, bound, base, meaning + more, cs + added)
  {
    forall a: Assignment, k | 0 <= k < |node|
      ensures Holds(node[k], Extended(a, base, meaning + more)) <==> Count(leaves, a) > k
    {
      ExtendedAgrees(a, base, meaning, more, node[k]);
    }
    forall a, k | 0 <= k < |node| && ClausesSat(cs + added, a) && Count(leaves, a) > k
      ensures Holds(node[k], a)
    {
      ClausesConcat(cs, added, a);
    }
  }

  lemma BoundedGrows(leaves: seq<int>, bound: nat, cs: seq<seq<int>>, added: seq<seq<int>>)
    requires Bounded(leaves, bound, cs)
    ensures Bounded(leaves, bound, cs + added)
  {
    forall a | ClausesSat(cs + added, a)
      ensures Count(leaves, a) <= bound
    {
      ClausesConcat(cs, added, a);
    }
  }

  // A leaf is a node of its own.
  lemma LeafOk(l: int, bound: nat, base: int)
    requires 1 <= Abs(l) < base
    ensures NodeOk([l], [l], bound, base, [], [])
  {
    forall a: Assignment
      ensures Count([l], a) == ToInt(Holds(l, a)) && Holds(l, Extended(a, base, [])) == Holds(l, a)
    {
      CountSnoc([], l, a);
      assert [] + [l] == [l];
    }
  }

  // The clauses of a branch force its literals.
  lemma BranchForces(left: seq<int>, right: seq<int>, mid: seq<int>, leavesL: seq<int>, leavesR: seq<int>, bound: nat, a: Assignment, k: nat)
    requires |left| == Min(|leavesL|, bound + 1) && |right| == Min(|leavesR|, bound + 1)
    requires |mid| == Min(|left| + |right|, bound + 1) && k < |mid|
    requires forall i :: 0 <= i < |left| ==> left[i] != 0
    requires forall i :: 0 <= i < |right| ==> right[i] != 0
    requires BranchHolds(left, right, mid, bound, a)
    requires forall i :: 0 <= i < |left| && Count(leavesL, a) > i ==> Holds(left[i], a)
    requires forall i :: 0 <= i < |right| && Count(leavesR, a) > i ==> Holds(right[i], a)
    requires Count(leavesL + leavesR, a) > k
    ensures Holds(mid[k], a)
  {
    CountConcat(leavesL, leavesR, a);
    CountBound(leavesL, a);
    CountBound(leavesR, a);
    var i := Min(Count(leavesL, a), k + 1);
    var j := k + 1 - i;
    if j == 0 {
      assert Holds(left[k], a);
    } else if i == 0 {
      assert Holds(right[k], a);
    } else {
      assert Holds(left[i - 1], a) && Holds(right[j - 1], a);
      assert mid[i - 1 + (j - 1) + 1] == mid[k];
    }
  }

  lemma BranchBounds(left: seq<int>, right: seq<int>, mid: seq<int>, leavesL: seq<int>, leavesR: seq<int>, bound: nat, a: Assignment)
    requires |left| == Min(|leavesL|, bound + 1) && |right| == Min(|leavesR|, bound + 1)
    requires |mid| == Min(|left| + |right|, bound + 1)
    requires forall i :: 0 <= i < |mid| ==> mid[i] > 0
    requires BranchHolds(left, right, mid, bound, a)
    requires forall k :: 0 <= k < |mid| && Count(leavesL + leavesR, a) > k ==> Holds(mid[k], a)
    ensures Count(leavesL + leavesR, a) <= bound
  {
    CountConcat(leavesL, leavesR, a);
    CountBound(leavesL, a);
    CountBound(leavesR, a);
    if |left| + |right| > bound {
      assert Holds(-mid[bound], a);
    }
  }

  // The new node is one over the leaves of both.
  lemma BranchNode(left: seq<int>, right: seq<int>, mid: seq<int>, leavesL: seq<int>, leavesR: seq<int>, bound: nat, base: int,
                   meaning: seq<Meaning>, cs: seq<seq<int>>, added: seq<seq<int>>)
    requires base >= 1 && NodeOk(left, leavesL, bound, base, meaning, cs) && NodeOk(right, leavesR, bound, base, meaning, cs)
    requires mid == MidVars(base + |meaning|, Min(|left| + |right|, bound + 1))
    requires forall a :: ClausesSat(added, a) <==> BranchHolds(left, right, mid, bound, a)
    ensures NodeOk(mid, leavesL + leavesR, bound, base, meaning + MidMeaning(leavesL + leavesR, |mid|), cs + added)
    ensures Bounded(leavesL + leavesR, bound, cs + added)
  {
    forall a: Assignment, k | 0 <= k < |mid| && ClausesSat(cs + added, a) && Count(leavesL + leavesR, a) > k
      ensures Holds(mid[k], a)
    {
      ClausesConcat(cs, added, a);
      BranchForces(left, right, mid, leavesL, leavesR, bound, a, k);
    }
    forall a | ClausesSat(cs + added, a)
      ensures Count(leavesL + leavesR, a) <= bound
    {
      ClausesConcat(cs, added, a);
      BranchBounds(left, right, mid, leavesL, leavesR, bound, a);
    }
  }

  // The meanings satisfy the clauses of the branch.
  lemma BranchMeans(left: seq<int>, right: seq<int>, mid: seq<int>, leavesL: seq<int>, leavesR: seq<int>, bound: nat, a: Assignment, e: Assignment)
    requires |left| == Min(|leavesL|, bound + 1) && |right| == Min(|leavesR|, bound + 1)
    requires |mid| == Min(|left| + |right|, bound + 1) && forall i :: 0 <= i < |mid| ==> mid[i] > 0
    requires forall i :: 0 <= i < |left| ==> left[i] != 0 && (Holds(left[i], e) <==> Count(leavesL, a) > i)
    requires forall i :: 0 <= i < |right| ==> right[i] != 0 && (Holds(right[i], e) <==> Count(leavesR, a) > i)
    requires forall i :: 0 <= i < |mid| ==> (Holds(mid[i], e) <==> Count(leavesL + leavesR, a) > i)
    requires Count(leavesL + leavesR, a) <= bound
    ensures BranchHolds(left, right, mid, bound, e)
  {
    CountConcat(leavesL, leavesR, a);
  }

  lemma BranchSatisfiable(lits: seq<int>, before: seq<int>, after: seq<int>, left: seq<int>, right: seq<int>, mid: seq<int>,
                          leavesL: seq<int>, leavesR: seq<int>, bound: nat, base: int,
                          meaning: seq<Meaning>, cs: seq<seq<int>>, added: seq<seq<int>>)
    requires base >= 1 && NodeOk(left, leavesL, bound, base, meaning, cs) && NodeOk(right, leavesR, bound, base, meaning, cs)
    requires mid == MidVars(base + |meaning|, Min(|left| + |right|, bound + 1))
    requires forall a :: ClausesSat(added, a) <==> BranchHolds(left, right, mid, bound, a)
    requires Satisfiable(lits, bound, base, meaning, cs) && lits == before + (leavesL + leavesR) + after
    requires forall i :: 0 <= i < |cs| ==> Below(cs[i], base + |meaning|)
    ensures Satisfiable(lits, bound, base, meaning + MidMeaning(leavesL + leavesR, |mid|), cs + added)
  {
    var more := MidMeaning(leavesL + leavesR, |mid|);
    forall a: Assignment | Count(lits, a) <= bound
      ensures ClausesSat(cs + added, Extended(a, base, meaning + more))
    {
      var e := Extended(a, base, meaning + more);
      CountConcat(before + (leavesL + leavesR), after, a);
      CountConcat(before, leavesL + leavesR, a);
      forall i | 0 <= i < |cs|
        ensures ClauseSat(cs[i], e)
      {
        assert ClauseSat(cs[i], Extended(a, base, meaning));
        var j :| 0 <= j < |cs[i]| && Holds(cs[i][j], Extended(a, base, meaning));
        assert 1 <= Abs(cs[i][j]) < base + |meaning|;
        ExtendedAgrees(a, base, meaning, more, cs[i][j]);
      }
      NodeGrows(left, leavesL, bound, base, meaning, more, cs, []);
      NodeGrows(right, leavesR, bound, base, meaning, more, cs, []);
      BranchMeans(left, right, mid, leavesL, leavesR, bound, a, e);
      ClausesConcat(cs, added, e);
    }
  }

  function Flat(parts: seq<seq<int>>): seq<int> {
    if parts == [] then [] else Flat(parts[..|parts| - 1]) + parts[|parts| - 1]
  }

  lemma LeavesSnoc(parts: seq<seq<int>>, x: seq<int>)
    ensures Flat(parts + [x]) == Flat(parts) + x
  {
    assert (parts + [x])[..|parts|] == parts;
  }

  lemma {:induction false} FlatCons(x: seq<int>, parts: seq<seq<int>>)
    ensures Flat([x] + parts) == x + Flat(parts)
  {
    if parts == [] {
      LeavesSnoc([], x);
      assert [] + [x] == [x] + parts;
    } else {
      var n := |parts| - 1;
      FlatCons(x, parts[..n]);
      assert ([x] + parts)[..n + 1] == [x] + parts[..n];
    }
  }

  lemma {:induction false} FlatLeaves(lits: seq<int>)
    ensures Flat(Leaves(lits)) == lits
  {
    if lits != [] {
      var n := |lits| - 1;
      FlatLeaves(lits[..n]);
      assert Leaves(lits)[..n] == Leaves(lits[..n]);
    }
  }

  function Leaves(lits: seq<int>): seq<seq<int>> {
    seq(|lits|, i requires 0 <= i < |lits| => [lits[i]])
  }

  ghost predicate Forest(nodes: seq<seq<int>>, leaves: seq<seq<int>>, bound: nat, base: int, meaning: seq<Meaning>, cs: seq<seq<int>>) {
    true == (
      |nodes| == |leaves| && forall i :: 0 <= i < |nodes| ==> NodeOk(nodes[i], leaves[i], bound, base, meaning, cs))
  }

  // The queue in the middle of the construction: the finished nodes of the
  // next level, then the nodes of this one, cover the literals in order.
  ghost predicate Building(lits: seq<int>, bound: nat, base: int, nodes: seq<seq<int>>, leavesN: seq<seq<int>>,
                           next: seq<seq<int>>, leavesX: seq<seq<int>>, meaning: seq<Meaning>, cs: seq<seq<int>>) {
    true == (
      && base >= 1 && Below(lits, base)
      && Forest(nodes, leavesN, bound, base, meaning, cs) && Forest(next, leavesX, bound, base, meaning, cs)
      && (forall i :: 0 <= i < |leavesX| ==> Bounded(leavesX[i], bound, cs))
      && Flat(leavesX) + Flat(leavesN) == lits
      && Satisfiable(lits, bound, base, meaning, cs) && ClausesBelow(cs, base + |meaning|))
  }

  lemma ForestGrows(nodes: seq<seq<int>>, leaves: seq<seq<int>>, bound: nat, base: int, meaning: seq<Meaning>, more: seq<Meaning>,
                    cs: seq<seq<int>>, added: seq<seq<int>>)
    requires Forest(nodes, leaves, bound, base, meaning, cs)
    ensures Forest(nodes, leaves, bound, base, meaning + more, cs + added)
  {
    forall i | 0 <= i < |nodes|
      ensures NodeOk(nodes[i], leaves[i], bound, base, meaning + more, cs + added)
    {
      NodeGrows(nodes[i], leaves[i], bound, base, meaning, more, cs, added);
    }
  }

  lemma BuildingStart(lits: seq<int>, bound: nat, base: int)
    requires base >= 1 && Below(lits, base)
    ensures Building(lits, bound, base, Leaves(lits), Leaves(lits), [], [], [], [])
  {
    FlatLeaves(lits);
    forall i | 0 <= i < |lits|
      ensures NodeOk(Leaves(lits)[i], Leaves(lits)[i], bound, base, [], [])
    {
      LeafOk(lits[i], bound, base);
    }
  }

  // Two neighbours, in the order of the literals, are taken out of the queue.
  ghost predicate Ready(lits: seq<int>, bound: nat, base: int, rest: seq<seq<int>>, leavesN: seq<seq<int>>,
                        next: seq<seq<int>>, leavesX: seq<seq<int>>, left: seq<int>, leavesL: seq<int>,
                        right: seq<int>, leavesR: seq<int>, meaning: seq<Meaning>, cs: seq<seq<int>>) {
    true == (
      && base >= 1 && Below(lits, base)
      && Forest(rest, leavesN, bound, base, meaning, cs) && Forest(next, leavesX, bound, base, meaning, cs)
      && (forall i :: 0 <= i < |leavesX| ==> Bounded(leavesX[i], bound, cs))
      && NodeOk(left, leavesL, bound, base, meaning, cs) && NodeOk(right, leavesR, bound, base, meaning, cs)
      && Flat(leavesX) + (leavesL + leavesR) + Flat(leavesN) == lits
      && Satisfiable(lits, bound, base, meaning, cs) && ClausesBelow(cs, base + |meaning|))
  }

  lemma ReadyVars(lits: seq<int>, bound: nat, base: int, rest: seq<seq<int>>, leavesN: seq<seq<int>>,
                  next: seq<seq<int>>, leavesX: seq<seq<int>>, left: seq<int>, leavesL: seq<int>,
                  right: seq<int>, leavesR: seq<int>, meaning: seq<Meaning>, cs: seq<seq<int>>)
    requires Ready(lits, bound, base, rest, leavesN, next, leavesX, left, leavesL, right, leavesR, meaning, cs)
    ensures Below(left, base + |meaning|) && Below(right, base + |meaning|)
    ensures |rest| == |leavesN| && |next| == |leavesX|
  {
  }

  lemma FrontReady(lits: seq<int>, bound: nat, base: int, nodes: seq<seq<int>>, leavesN: seq<seq<int>>,
                   next: seq<seq<int>>, leavesX: seq<seq<int>>, meaning: seq<Meaning>, cs: seq<seq<int>>)
    requires Building(lits, bound, base, nodes, leavesN, next, leavesX, meaning, cs) && |nodes| == |leavesN| >= 2
    ensures Ready(lits, bound, base, nodes[2..], leavesN[2..], next, leavesX, nodes[0], leavesN[0], nodes[1], leavesN[1], meaning, cs)
  {
    FlatCons(leavesN[0], leavesN[1..]);
    FlatCons(leavesN[1], leavesN[2..]);
    assert leavesN == [leavesN[0]] + leavesN[1..] && leavesN[1..] == [leavesN[1]] + leavesN[2..];
    assert Flat(leavesX) + (leavesN[0] + leavesN[1]) + Flat(leavesN[2..]) == Flat(leavesX) + Flat(leavesN);
  }

  lemma BackReady(lits: seq<int>, bound: nat, base: int, nodes: seq<seq<int>>, leavesN: seq<seq<int>>,
                  next: seq<seq<int>>, leavesX: seq<seq<int>>, meaning: seq<Meaning>, cs: seq<seq<int>>)
    requires Building(lits, bound, base, nodes, leavesN, next, leavesX, meaning, cs)
    requires |nodes| == |leavesN| == 1 && |next| == |leavesX| >= 1
    ensures var n := |next| - 1;
      Ready(lits, bound, base, [], [], next[..n], leavesX[..n], next[n], leavesX[n], nodes[0], leavesN[0], meaning, cs)
  {
    var n := |next| - 1;
    FlatCons(leavesN[0], []);
    assert leavesN == [leavesN[0]] + [];
    assert Flat(leavesX[..n]) + (leavesX[n] + leavesN[0]) + [] == Flat(leavesX) + Flat(leavesN);
  }

  lemma PairHoldsStep(left: seq<int>, right: seq<int>, mid: seq<int>, bound: nat, i: nat, j: nat)
    requires |mid| == Min(|left| + |right|, bound + 1) && i < |left| && j < |right|
    ensures forall a :: PairsHold(left, right, mid, bound, i, j + 1, a) <==>
      PairsHold(left, right, mid, bound, i, j, a) &&
      (i + j < bound ==> Holds(mid[i + j + 1], a) || Holds(-left[i], a) || Holds(-right[j], a))
  {
  }

  lemma PairsRow(left: seq<int>, right: seq<int>, mid: seq<int>, bound: nat, i: nat)
    requires |mid| == Min(|left| + |right|, bound + 1) && i < |left|
    ensures forall a :: PairsHold(left, right, mid, bound, i, |right|, a) <==> PairsHold(left, right, mid, bound, i + 1, 0, a)
  {
  }

  // Joining them.
  lemma Join(lits: seq<int>, bound: nat, base: int, rest: seq<seq<int>>, leavesN: seq<seq<int>>, next: seq<seq<int>>, leavesX: seq<seq<int>>,
             left: seq<int>, leavesL: seq<int>, right: seq<int>, leavesR: seq<int>, mid: seq<int>,
             meaning: seq<Meaning>, cs: seq<seq<int>>, added: seq<seq<int>>)
    requires Ready(lits, bound, base, rest, leavesN, next, leavesX, left, leavesL, right, leavesR, meaning, cs)
    requires mid == MidVars(base + |meaning|, Min(|left| + |right|, bound + 1))
    requires forall a :: ClausesSat(added, a) <==> BranchHolds(left, right, mid, bound, a)
    requires ClausesBelow(added, base + |meaning| + |mid|)
    ensures Building(lits, bound, base, rest, leavesN, next + [mid], leavesX + [leavesL + leavesR],
                     meaning + MidMeaning(leavesL + leavesR, |mid|), cs + added)
  {
    var more := MidMeaning(leavesL + leavesR, |mid|);
    ForestGrows(rest, leavesN, bound, base, meaning, more, cs, added);
    ForestGrows(next, leavesX, bound, base, meaning, more, cs, added);
    BranchNode(left, right, mid, leavesL, leavesR, bound, base, meaning, cs, added);
    forall i | 0 <= i < |leavesX|
      ensures Bounded(leavesX[i], bound, cs + added)
    {
      BoundedGrows(leavesX[i], bound, cs, added);
    }
    LeavesSnoc(leavesX, leavesL + leavesR);
    BranchSatisfiable(lits, Flat(leavesX), Flat(leavesN), left, right, mid, leavesL, leavesR, bound, base, meaning, cs, added);
  }

  // One node is left: the clauses say what they should.
  lemma AllExtend(lits: seq<int>, bound: nat, base: int, next: seq<seq<int>>, leavesX: seq<seq<int>>,
                  meaning: seq<Meaning>, cs: seq<seq<int>>)
    requires Building(lits, bound, base, [], [], next, leavesX, meaning, cs) && |leavesX| == 1
    ensures forall a :: Extends(cs, a, base) <==> Count(lits, a) <= bound
    ensures ClausesBelow(cs, base + |meaning|)
  {
    LeavesSnoc([], leavesX[0]);
    assert [] + [leavesX[0]] == leavesX;
    assert leavesX[0] == lits;
    assert Bounded(leavesX[0], bound, cs);
    forall a: Assignment
      ensures Extends(cs, a, base) <==> Count(lits, a) <= bound
    {
      if Extends(cs, a, base) {
        var b :| AgreeBelow(a, b, base) && ClausesSat(cs, b);
        CountBelow(lits, a, b, base);
      }
      if Count(lits, a) <= bound {
        assert AgreeBelow(a, Extended(a, base, meaning), base);
      }
    }
  }

  // No node is empty, and the last fresh variable occurs.
  ghost predicate NodesFilled(nodes: seq<seq<int>>, next: seq<seq<int>>, base: int, freshVar: int, cs: seq<seq<int>>) {
    true == (
      && (forall i :: 0 <= i < |nodes| ==> nodes[i] != []) && (forall i :: 0 <= i < |next| ==> next[i] != [])
      && (freshVar > base ==> Occurs(freshVar - 1, cs)))
  }

  // The finished nodes are the next ones to be joined.
  lemma NextLevel(lits: seq<int>, bound: nat, base: int, next: seq<seq<int>>, leavesX: seq<seq<int>>,
                  meaning: seq<Meaning>, cs: seq<seq<int>>, freshVar: int)
    requires Building(lits, bound, base, [], [], next, leavesX, meaning, cs) && NodesFilled([], next, base, freshVar, cs)
    ensures Building(lits, bound, base, next, leavesX, [], [], meaning, cs) && NodesFilled(next, [], base, freshVar, cs)
  {
  }

  lemma FreshUsedUp(base: int, freshVar: int, next: seq<seq<int>>, cs: seq<seq<int>>)
    requires NodesFilled([], next, base, freshVar, cs) && ClausesBelow(cs, freshVar) && base <= freshVar
    ensures UsesUp(cs, base, freshVar)
  {
  }

  lemma LeavesFilled(lits: seq<int>, base: int)
    ensures NodesFilled(Leaves(lits), [], base, base, [])
  {
  }

  // The last variable of a node occurs in the clauses of its branch.
  lemma LastOccurs(left: seq<int>, right: seq<int>, mid: seq<int>, bound: nat,
                   one: seq<seq<int>>, two: seq<seq<int>>, three: seq<seq<int>>, four: seq<seq<int>>)
    requires |mid| == Min(|left| + |right|, bound + 1)
    requires |left| > 0 && |right| > 0 && |mid| == |left| + |right| ==> Occurs(mid[|mid| - 1], three)
    requires four == if |left| + |right| > bound then [[-mid[bound]]] else []
    ensures |left| > 0 && |right| > 0 ==> Occurs(mid[|mid| - 1], one + two + three + four)
  {
    if |left| > 0 && |right| > 0 {
      if |left| + |right| > bound {
        assert -mid[|mid| - 1] in four[0];
        OccursMore(mid[|mid| - 1], one + two + three, four);
      } else {
        assert four == [] && one + two + three + four == one + two + three;
        OccursMore(mid[|mid| - 1], one + two, three);
      }
    }
  }

  class Encoder {
    var encodingClauses: seq<seq<int>>
    var encodingDerivation: seq<seq<int>>

    // totalizer_mid_variables
    method TotalizerMidVariables(left: nat, right: nat, bound: nat, freshVar: int) returns (mid: seq<int>, freshVar': int)
      ensures mid == MidVars(freshVar, Min(left + right, bound + 1)) && freshVar' == freshVar + |mid|
    {
      var midSize := if left + right < bound + 1 then left + right else bound + 1;
      mid, freshVar' := [], freshVar;
      for i := 0 to midSize
        invariant mid == MidVars(freshVar, i) && freshVar' == freshVar + i
      {
        mid := mid + [freshVar'];
        freshVar' := freshVar' + 1;
      }
    }

    // One of the two loops that pass on a single child.
    method SideClauses(side: seq<int>, mid: seq<int>, bound: nat, ghost n: int) returns (ghost cs: seq<seq<int>>)
      requires Min(|side|, bound + 1) <= |mid| && Below(side, n) && Below(mid, n)
      modifies this`encodingClauses
      ensures encodingClauses == old(encodingClauses) + cs && ClausesBelow(cs, n)
      ensures forall a :: ClausesSat(cs, a) <==> SideHolds(side, mid, Min(|side|, bound + 1), a)
    {
      cs := [];
      var i := 0;
      while i < |side| && i < bound + 1
        invariant 0 <= i <= Min(|side|, bound + 1)
        invariant encodingClauses == old(encodingClauses) + cs && ClausesBelow(cs, n)
        invariant forall a :: ClausesSat(cs, a) <==> SideHolds(side, mid, i, a)
      {
        encodingClauses := encodingClauses + [[mid[i], -side[i]]];
        ClausesSnoc(cs, [mid[i], -side[i]]);
        TwoLiterals(mid[i], -side[i]);
        cs := cs + [[mid[i], -side[i]]];
        i := i + 1;
      }
    }

    // The double loop that adds the two children.
    method PairClauses(left: seq<int>, right: seq<int>, mid: seq<int>, bound: nat, ghost n: int) returns (ghost cs: seq<seq<int>>)
      requires |mid| == Min(|left| + |right|, bound + 1) && Below(left, n) && Below(right, n) && Below(mid, n)
      modifies this`encodingClauses
      ensures encodingClauses == old(encodingClauses) + cs && ClausesBelow(cs, n)
      ensures forall a :: ClausesSat(cs, a) <==> PairsHold(left, right, mid, bound, |left|, 0, a)
      ensures |left| > 0 && |right| > 0 && |mid| == |left| + |right| ==> Occurs(mid[|mid| - 1], cs)
    {
      cs := [];
      for i := 0 to |left|
        invariant encodingClauses == old(encodingClauses) + cs && ClausesBelow(cs, n)
        invariant forall a :: ClausesSat(cs, a) <==> PairsHold(left, right, mid, bound, i, 0, a)
        invariant i == |left| > 0 && |right| > 0 && |mid| == |left| + |right| ==> Occurs(mid[|mid| - 1], cs)
      {
        for j := 0 to |right|
          invariant encodingClauses == old(encodingClauses) + cs && ClausesBelow(cs, n)
          invariant forall a :: ClausesSat(cs, a) <==> PairsHold(left, right, mid, bound, i, j, a)
          invariant i == |left| - 1 && j == |right| > 0 && |mid| == |left| + |right| ==> Occurs(mid[|mid| - 1], cs)
        {
          var sum := i + j + 2;
          PairHoldsStep(left, right, mid, bound, i, j);
          if sum <= bound + 1 {
            var c := [mid[sum - 1], -left[i], -right[j]];
            encodingClauses := encodingClauses + [c];
            ClausesSnoc(cs, c);
            TernaryClause(mid[sum - 1], -left[i], -right[j]);
            cs := cs + [c];
            assert c[0] == mid[sum - 1] && cs[|cs| - 1] == c;
          }
        }
        PairsRow(left, right, mid, bound, i);
      }
    }

    // totalizer_branch_clauses
    method TotalizerBranchClauses(left: seq<int>, right: seq<int>, mid: seq<int>, bound: nat, addDerivation: bool, ghost n: int)
        returns (ghost cs: seq<seq<int>>)
      requires |mid| == Min(|left| + |right|, bound + 1) && Below(left, n) && Below(right, n) && Below(mid, n)
      modifies this
      ensures encodingClauses == old(encodingClauses) + cs && ClausesBelow(cs, n)
      ensures |left| > 0 && |right| > 0 ==> Occurs(mid[|mid| - 1], cs)
      ensures encodingDerivation == old(encodingDerivation) + if addDerivation then cs else []
      ensures forall a :: ClausesSat(cs, a) <==> BranchHolds(left, right, mid, bound, a)
    {
      var origSize := |encodingClauses|;
      ghost var one := SideClauses(left, mid, bound, n);
      ghost var two := SideClauses(right, mid, bound, n);
      ghost var three := PairClauses(left, right, mid, bound, n);
      ghost var four: seq<seq<int>> := [];
      if |left| + |right| > bound {
        encodingClauses := encodingClauses + [[-mid[bound]]];
        four := [[-mid[bound]]];
        UnitClause(-mid[bound]);
      }
      cs := one + two + three + four;
      LastOccurs(left, right, mid, bound, one, two, three, four);
      if addDerivation {
        encodingDerivation := encodingDerivation + encodingClauses[origSize..];
      }
      assert encodingClauses[origSize..] == cs;
      forall a: Assignment
        ensures ClausesSat(cs, a) <==> BranchHolds(left, right, mid, bound, a)
      {
        ClausesConcat(one + two + three, four, a);
        ClausesConcat(one + two, three, a);
        ClausesConcat(one, two, a);
        assert four != [] ==> four[0] == [-mid[bound]];
      }
    }

    // Joining two nodes: fresh variables, clauses, and the new node.
    method JoinNodes(left: seq<int>, right: seq<int>, bound: nat, freshVar: int, addDerivation: bool)
        returns (mid: seq<int>, freshVar': int, ghost cs: seq<seq<int>>)
      requires freshVar >= 1 && Below(left, freshVar) && Below(right, freshVar)
      modifies this
      ensures mid == MidVars(freshVar, Min(|left| + |right|, bound + 1)) && freshVar' == freshVar + |mid|
      ensures encodingClauses == old(encodingClauses) + cs && ClausesBelow(cs, freshVar')
      ensures encodingDerivation == old(encodingDerivation) + if addDerivation then cs else []
      ensures forall a :: ClausesSat(cs, a) <==> BranchHolds(left, right, mid, bound, a)
      ensures |left| > 0 && |right| > 0 ==> mid != [] && Occurs(freshVar' - 1, cs)
    {
      mid, freshVar' := TotalizerMidVariables(|left|, |right|, bound, freshVar);
      cs := TotalizerBranchClauses(left, right, mid, bound, addDerivation, freshVar');
    }

    // One turn of the queue loop: take two neighbours, join them.
    method JoinFront(lits: seq<int>, bound: nat, ghost base: int, nodes: seq<seq<int>>, next: seq<seq<int>>, freshVar: int, addDerivation: bool,
                     ghost leavesN: seq<seq<int>>, ghost leavesX: seq<seq<int>>, ghost meaning: seq<Meaning>, ghost cs: seq<seq<int>>)
        returns (nodes': seq<seq<int>>, next': seq<seq<int>>, freshVar': int,
                 ghost leavesN': seq<seq<int>>, ghost leavesX': seq<seq<int>>, ghost meaning': seq<Meaning>, ghost added: seq<seq<int>>)
      requires Building(lits, bound, base, nodes, leavesN, next, leavesX, meaning, cs)
      requires |nodes| == |leavesN| >= 1 && |next| == |leavesX| && freshVar == base + |meaning| && |nodes| + |next| >= 2 && base >= 1
      requires NodesFilled(nodes, next, base, freshVar, cs)
      modifies this
      ensures Building(lits, bound, base, nodes', leavesN', next', leavesX', meaning', cs + added)
      ensures |nodes'| == |leavesN'| && |next'| == |leavesX'| >= 1 && freshVar' == base + |meaning'|
      ensures |nodes'| + |next'| == |nodes| + |next| - 1
      ensures NodesFilled(nodes', next', base, freshVar', cs + added)
      ensures encodingClauses == old(encodingClauses) + added
      ensures encodingDerivation == old(encodingDerivation) + if addDerivation then added else []
    {
      var left, right, mid := nodes[0], [], [];
      ghost var leavesL, leavesR;
      if |nodes| >= 2 {
        FrontReady(lits, bound, base, nodes, leavesN, next, leavesX, meaning, cs);
        right := nodes[1];
        nodes', next' := nodes[2..], next;
        leavesL, leavesR, leavesN', leavesX' := leavesN[0], leavesN[1], leavesN[2..], leavesX;
      } else {
        BackReady(lits, bound, base, nodes, leavesN, next, leavesX, meaning, cs);
        right, left := left, next[|next| - 1];
        nodes', next' := [], next[..|next| - 1];
        leavesL, leavesR, leavesN', leavesX' := leavesX[|leavesX| - 1], leavesN[0], [], leavesX[..|leavesX| - 1];
      }
      ReadyVars(lits, bound, base, nodes', leavesN', next', leavesX', left, leavesL, right, leavesR, meaning, cs);
      mid, freshVar', added := JoinNodes(left, right, bound, freshVar, addDerivation);
      Join(lits, bound, base, nodes', leavesN', next', leavesX', left, leavesL, right, leavesR, mid, meaning, cs, added);
      OccursMore(freshVar' - 1, cs, added);
      next', leavesX' := next' + [mid], leavesX' + [leavesL + leavesR];
      meaning' := meaning + MidMeaning(leavesL + leavesR, |mid|);
    }

    // totalizer_full_encoding: the emitted clauses can be satisfied over the
    // fresh variables iff at most `bound` literals are true.
    method TotalizerFullEncoding(lits: seq<int>, bound: nat, freshVar: int, addDerivation: bool)
        returns (freshVar': int, ghost cs: seq<seq<int>>)
      requires |lits| >= 2 && freshVar >= 1 && Below(lits, freshVar)
      modifies this
      ensures encodingClauses == old(encodingClauses) + cs && UsesUp(cs, freshVar, freshVar')
      ensures encodingDerivation == old(encodingDerivation) + if addDerivation then cs else []
      ensures forall a :: Extends(cs, a, freshVar) <==> Count(lits, a) <= bound
    {
      ghost var base := freshVar;
      var nodes, next: seq<seq<int>> := Leaves(lits), [];
      freshVar', cs := freshVar, [];
      ghost var leavesN, leavesX: seq<seq<int>> := Leaves(lits), [];
      ghost var meaning: seq<Meaning> := [];
      BuildingStart(lits, bound, base);
      LeavesFilled(lits, base);
      var more := true;
      while more
        invariant Building(lits, bound, base, nodes, leavesN, next, leavesX, meaning, cs)
        invariant |nodes| == |leavesN| && |next| == |leavesX| && freshVar' == base + |meaning|
        invariant NodesFilled(nodes, next, base, freshVar', cs)
        invariant if more then nodes != [] && |nodes| + |next| >= 2 else nodes == [] && |next| == 1
        invariant encodingClauses == old(encodingClauses) + cs
        invariant encodingDerivation == old(encodingDerivation) + if addDerivation then cs else []
        decreases |nodes| + |next|, more
      {
        ghost var added;
        nodes, next, freshVar', leavesN, leavesX, meaning, added :=
          JoinFront(lits, bound, base, nodes, next, freshVar', addDerivation, leavesN, leavesX, meaning, cs);
        cs := cs + added;
        if nodes == [] {
          if |next| == 1 {
            more := false;
          } else {
            NextLevel(lits, bound, base, next, leavesX, meaning, cs, freshVar');
            nodes, next := next, [];
            leavesN, leavesX := leavesX, [];
          }
        }
      }
      AllExtend(lits, bound, base, next, leavesX, meaning, cs);
      FreshUsedUp(base, freshVar', next, cs);
    }

    // split_full_encoding: 3n - 6 clauses and (n + 1) / 2 - 2 fresh variables,
    // satisfiable over the fresh ones iff at most one literal is false. So is
    // the proof, which has the definitions of the fresh variables as well.
    method SplitFullEncoding(lits: seq<int>, start: nat, freshVar: int, addDerivation: bool)
        returns (next: int, ghost cs: seq<seq<int>>, ghost ds: seq<seq<int>>)
      requires start + 3 <= |lits| && freshVar >= 1 && Below(lits[start..], freshVar)
      modifies this
      ensures encodingClauses == old(encodingClauses) + cs
      ensures encodingDerivation == old(encodingDerivation) + ds && (!addDerivation ==> ds == [])
      ensures addDerivation ==> Encodes(ds, lits[start..], freshVar) && forall c :: c in cs ==> c in ds
      ensures Encodes(cs, lits[start..], freshVar) && UsesUp(cs, freshVar, next)
      ensures |cs| == 3 * (|lits| - start) - 6
      ensures next == freshVar + (|lits| - start + 1) / 2 - 2
      decreases |lits| - start
    {
      ghost var part := lits[start..];
      var size := |lits| - start;
      var x, y, z := lits[start], lits[start + 1], lits[start + 2];
      if size == 3 {
        cs := Pairs3(x, y, z);
        encodingClauses := encodingClauses + [[x, y]] + [[x, z]] + [[y, z]];
        ds := if addDerivation then cs else [];
        encodingDerivation := encodingDerivation + (if addDerivation then [[x, y], [x, z], [y, z]] else []);
        next := freshVar;
        forall a: Assignment { BaseCases(part, a); }
        NothingFresh(cs, part, freshVar);
      } else if size == 4 {
        var w := lits[start + 3];
        cs := Pairs4(x, y, z, w);
        encodingClauses := encodingClauses + [[x, y]] + [[x, z]] + [[y, z]] + [[x, w]] + [[y, w]] + [[z, w]];
        ds := if addDerivation then cs else [];
        encodingDerivation := encodingDerivation + (if addDerivation then [[x, y], [x, z], [y, z], [x, w], [y, w], [z, w]] else []);
        next := freshVar;
        forall a: Assignment { BaseCases(part, a); }
        NothingFresh(cs, part, freshVar);
      } else {
        encodingClauses := encodingClauses + [[x, y]] + [[x, z]] + [[y, z]] + [[freshVar, x]] + [[freshVar, y]] + [[freshVar, z]];
        if addDerivation {
          encodingDerivation := encodingDerivation + [[x, y], [x, z], [y, z], [freshVar, x], [freshVar, y], [freshVar, z], [-freshVar, -x, -y, -z]];
        }
        var lits' := lits[start + 2 := -freshVar];
        assert lits'[start + 2..] == [-freshVar] + part[3..];
        ghost var rest, more;
        next, rest, more := SplitFullEncoding(lits', start + 2, freshVar + 1, addDerivation);
        cs := Linked(x, y, z, freshVar) + rest;
        LinkEncodes(part, lits'[start + 2..], rest, freshVar);
        LinkUses(part, rest, freshVar, next);
        ds := [];
        if addDerivation {
          ds := Linked(x, y, z, freshVar) + LinkDefinition(x, y, z, freshVar) + more;
          LinkDefined(part, lits'[start + 2..], more, freshVar);
        }
      }
    }

    // encode_cardinality_constraint for a row whose literals come in any
    // order: a clause, the split encoding or the totalizer of the negations.
    // Rows of at most two literals are left alone.
    method EncodeCardinalityConstraint(row: Row, literals: seq<int>, maxVar: int, addDerivation: bool)
        returns (encoded: bool, maxVar': int, ghost cs: seq<seq<int>>, ghost ds: seq<seq<int>>)
      requires maxVar >= 0 && Below(row.lits, maxVar + 1) && 1 <= row.degree <= |row.lits|
      requires multiset(literals) == multiset(row.lits)
      modifies this
      ensures encoded <==> row.degree == 1 || |row.lits| > 2
      ensures encoded ==> forall a :: Extends(cs, a, maxVar + 1) <==> RowSat(row, a)
      ensures encodingClauses == old(encodingClauses) + cs && (!encoded ==> cs == [])
      ensures UsesUp(cs, maxVar + 1, maxVar' + 1)
      ensures row.degree == |row.lits| - 1 >= 2 ==> maxVar' == maxVar + (|row.lits| + 1) / 2 - 2
      ensures encodingDerivation == old(encodingDerivation) + ds && (!addDerivation || row.degree == 1 ==> ds == [])
      ensures encoded && addDerivation && row.degree > 1 ==>
        (forall c :: c in cs ==> c in ds) && forall a :: Extends(ds, a, maxVar + 1) <==> RowSat(row, a)
    {
      encoded, maxVar', cs, ds := false, maxVar, [], [];
      SameSize(literals, row.lits);
      BelowPermuted(row.lits, literals, maxVar + 1);
      if row.degree == 1 {
        encoded := true;
        encodingClauses := encodingClauses + [row.lits];
        cs := [row.lits];
        PromotedClause(row, maxVar + 1);
      } else if |row.lits| > 2 {
        encoded := true;
        var freshVar;
        if row.degree == |row.lits| - 1 {
          assert literals[0..] == literals;
          freshVar, cs, ds := SplitFullEncoding(literals, 0, maxVar + 1, addDerivation);
        } else {
          freshVar, cs := TotalizerFullEncoding(Negated(literals), |literals| - row.degree, maxVar + 1, addDerivation);
          ds := if addDerivation then cs else [];
        }
        EncodedRow(row, literals);
        maxVar' := freshVar - 1;
      }
    }

    // The loop that encodes all rows at the start, each with its literals in
    // some order: the fresh variables of different rows are different, so the
    // clauses together say what the encoded rows say.
    method EncodeAll(rows: seq<Row>, orders: seq<seq<int>>, garbage: seq<bool>, maxVar: int, addDerivation: bool)
        returns (garbage': seq<bool>, maxVar': int, ghost cs: seq<seq<int>>)
      requires maxVar >= 0 && |rows| == |orders| == |garbage|
      requires forall i :: 0 <= i < |rows| ==> Below(rows[i].lits, maxVar + 1) && 1 <= rows[i].degree <= |rows[i].lits|
      requires forall i :: 0 <= i < |rows| ==> multiset(orders[i]) == multiset(rows[i].lits)
      modifies this
      ensures encodingClauses == old(encodingClauses) + cs && maxVar' >= maxVar && ClausesBelow(cs, maxVar' + 1)
      ensures |garbage'| == |rows| && forall i :: 0 <= i < |rows| ==>
        (garbage'[i] <==> garbage[i] || rows[i].degree == 1 || |rows[i].lits| > 2)
      ensures forall a :: Extends(cs, a, maxVar + 1) <==> EncodedSat(rows, garbage, |rows|, a)
    {
      garbage', maxVar', cs := garbage, maxVar, [];
      NothingEncoded(rows, garbage, maxVar + 1);
      for i := 0 to |rows|
        invariant encodingClauses == old(encodingClauses) + cs && maxVar' >= maxVar && ClausesBelow(cs, maxVar' + 1)
        invariant |garbage'| == |rows| && forall k :: 0 <= k < |rows| ==>
          (garbage'[k] <==> garbage[k] || (k < i && (rows[k].degree == 1 || |rows[k].lits| > 2)))
        invariant forall a :: Extends(cs, a, maxVar + 1) <==> EncodedSat(rows, garbage, i, a)
      {
        var next := maxVar';
        ghost var more: seq<seq<int>> := [];
        if !garbage[i] {
          var encoded;
          ghost var ds;
          encoded, next, more, ds := EncodeCardinalityConstraint(rows[i], orders[i], maxVar', addDerivation);
          if encoded {
            garbage' := garbage'[i := true];
          }
        }
        EncodedMore(rows, garbage, i, cs, more, maxVar + 1, maxVar' + 1);
        cs, maxVar' := cs + more, next;
      }
    }
  }

  // The rows among the first n that are turned into clauses hold.
  ghost predicate EncodedSat(rows: seq<Row>, garbage: seq<bool>, n: int, a: Assignment) {
    forall i :: 0 <= i < n && i < |rows| == |garbage| && !garbage[i] && (rows[i].degree == 1 || |rows[i].lits| > 2) ==>
      RowSat(rows[i], a)
  }

  lemma EncodedMore(rows: seq<Row>, garbage: seq<bool>, i: nat, cs: seq<seq<int>>, more: seq<seq<int>>, n: int, m: int)
    requires i < |rows| == |garbage| && n <= m && ClausesBelow(cs, m) && Below(rows[i].lits, n)
    requires forall a :: Extends(cs, a, n) <==> EncodedSat(rows, garbage, i, a)
    requires if !garbage[i] && (rows[i].degree == 1 || |rows[i].lits| > 2)
      then forall a :: Extends(more, a, m) <==> RowSat(rows[i], a) else more == []
    ensures forall a :: Extends(cs + more, a, n) <==> EncodedSat(rows, garbage, i + 1, a)
  {
    if !garbage[i] && (rows[i].degree == 1 || |rows[i].lits| > 2) {
      FreshConcat(cs, more, n, m, rows[i]);
    } else {
      assert cs + more == cs;
    }
    forall a: Assignment
      ensures EncodedSat(rows, garbage, i + 1, a) <==>
        EncodedSat(rows, garbage, i, a) && (!garbage[i] && (rows[i].degree == 1 || |rows[i].lits| > 2) ==> RowSat(rows[i], a))
    {
    }
  }

  lemma NothingEncoded(rows: seq<Row>, garbage: seq<bool>, n: int)
    ensures forall a :: Extends([], a, n) && EncodedSat(rows, garbage, 0, a)
  {
    forall a: Assignment
      ensures Extends([], a, n)
    {
      assert AgreeBelow(a, a, n) && ClausesSat([], a);
    }
  }

  // The link variable occurs, and so does the last one of the rest.
  lemma LinkUses(lits: seq<int>, rest: seq<seq<int>>, n: int, m: int)
    requires |lits| >= 5 && Below(lits, n) && n >= 1 && UsesUp(rest, n + 1, m)
    ensures UsesUp(Linked(lits[0], lits[1], lits[2], n) + rest, n, m)
  {
    var front := Linked(lits[0], lits[1], lits[2], n);
    assert front[3] == [n, lits[0]];
    assert n in front[3];
    assert (front + rest)[3] == front[3];
    assert ClausesBelow(front, m);
    if m > n + 1 {
      OccursMore(m - 1, front, rest);
    }
  }

  function Negated(lits: seq<int>): seq<int> {
    seq(|lits|, i requires 0 <= i < |lits| => -lits[i])
  }

  lemma {:induction false} CountNegated(lits: seq<int>, a: Assignment)
    requires forall i :: 0 <= i < |lits| ==> lits[i] != 0
    ensures Count(Negated(lits), a) == |lits| - Count(lits, a)
  {
    if lits != [] {
      var n := |lits| - 1;
      CountNegated(lits[..n], a);
      assert Negated(lits)[..n] == Negated(lits[..n]);
    }
  }

  lemma SameSize(x: seq<int>, y: seq<int>)
    requires multiset(x) == multiset(y)
    ensures |x| == |y|
  {
    assert |multiset(x)| == |x| && |multiset(y)| == |y|;
  }

  lemma BelowPermuted(x: seq<int>, y: seq<int>, n: int)
    requires Below(x, n) && multiset(x) == multiset(y)
    ensures Below(y, n)
  {
    forall i | 0 <= i < |y|
      ensures 1 <= Abs(y[i]) < n
    {
      assert y[i] in multiset(y);
      assert y[i] in x;
    }
  }

  lemma CountMiddle(x: seq<int>, l: int, y: seq<int>, a: Assignment)
    ensures Count(x + [l] + y, a) == Count(x + y, a) + ToInt(Holds(l, a))
  {
    CountConcat(x + [l], y, a);
    CountSnoc(x, l, a);
    CountConcat(x, y, a);
  }

  lemma MultisetMiddle(x: seq<int>, l: int, y: seq<int>)
    ensures multiset(x + [l] + y) == multiset(x + y) + multiset{l}
  {
    assert multiset(x + [l] + y) == multiset(x) + multiset{l} + multiset(y);
    assert multiset(x + y) == multiset(x) + multiset(y);
  }

  // The count of a row does not depend on the order of its literals.
  lemma {:induction false} CountPermuted(x: seq<int>, y: seq<int>, a: Assignment)
    requires multiset(x) == multiset(y)
    ensures Count(x, a) == Count(y, a)
    decreases |x|
  {
    SameSize(x, y);
    if x != [] {
      var n := |x| - 1;
      var i := Partner(x, y);
      TakenOut(x[..n], [], y[..i], y[i + 1..], x[n]);
      assert x == x[..n] + [x[n]] + [] && y == y[..i] + [x[n]] + y[i + 1..] && x[..n] == x[..n] + [];
      CountPermuted(x[..n], y[..i] + y[i + 1..], a);
      CountMiddle(y[..i], x[n], y[i + 1..], a);
    }
  }

  lemma Partner(x: seq<int>, y: seq<int>) returns (i: nat)
    requires multiset(x) == multiset(y) && x != []
    ensures i < |y| && y[i] == x[|x| - 1]
  {
    var l := x[|x| - 1];
    assert l in multiset(x);
    assert l in y;
    i :| 0 <= i < |y| && y[i] == l;
  }

  // One literal taken out of both.
  lemma TakenOut(x: seq<int>, x': seq<int>, y: seq<int>, y': seq<int>, l: int)
    ensures multiset(x + [l] + x') == multiset(y + [l] + y') ==> multiset(x + x') == multiset(y + y')
  {
    MultisetMiddle(x, l, x');
    MultisetMiddle(y, l, y');
    assert multiset(x + x') == multiset(x + [l] + x') - multiset{l};
    assert multiset(y + y') == multiset(y + [l] + y') - multiset{l};
  }

  lemma {:induction false} ClauseIsCount(c: seq<int>, a: Assignment)
    ensures ClauseSat(c, a) <==> Count(c, a) >= 1
  {
    if c != [] {
      var n := |c| - 1;
      ClauseIsCount(c[..n], a);
      if ClauseSat(c[..n], a) {
        var i :| 0 <= i < n && Holds(c[..n][i], a);
        assert Holds(c[i], a);
      }
      if ClauseSat(c, a) && !Holds(c[n], a) {
        var i :| 0 <= i < |c| && Holds(c[i], a);
        assert Holds(c[..n][i], a);
      }
    }
  }

  lemma PromotedClause(row: Row, n: int)
    requires Below(row.lits, n) && row.degree == 1
    ensures forall a :: Extends([row.lits], a, n) <==> RowSat(row, a)
  {
    forall a: Assignment
      ensures Extends([row.lits], a, n) <==> RowSat(row, a)
    {
      assert [row.lits][0] == row.lits;
      if Extends([row.lits], a, n) {
        var b :| AgreeBelow(a, b, n) && ClausesSat([row.lits], b);
        assert ClauseSat([row.lits][0], b);
        ClauseIsCount(row.lits, b);
        CountBelow(row.lits, a, b, n);
      }
      if RowSat(row, a) {
        ClauseIsCount(row.lits, a);
        assert AgreeBelow(a, a, n) && ClausesSat([row.lits], a);
      }
    }
  }

  // What either encoding says of the reordered literals is the row.
  lemma EncodedRow(row: Row, literals: seq<int>)
    requires multiset(literals) == multiset(row.lits) && |literals| == |row.lits|
    requires forall i :: 0 <= i < |literals| ==> literals[i] != 0
    ensures row.degree == |row.lits| - 1 ==> forall a :: AtMostOneFalse(literals, a) <==> RowSat(row, a)
    ensures forall a :: Count(Negated(literals), a) <= |literals| - row.degree <==> RowSat(row, a)
  {
    forall a: Assignment
      ensures Count(literals, a) == Count(row.lits, a)
      ensures Count(Negated(literals), a) == |literals| - Count(literals, a)
    {
      CountPermuted(literals, row.lits, a);
      CountNegated(literals, a);
    }
  }
}
