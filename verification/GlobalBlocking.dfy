/** Globally blocked clauses: the autarky left at the fixpoint repairs every
    model that falsifies the candidate, without hurting any other clause. */
module GlobalBlocking {
  import opened Knf
  import opened Clauses
  import opened Extension
  import opened Watches

  // Literal signs agree: at most one of a literal and its negation is true.
  ghost predicate Symmetric(vals: map<int, int>) {
    forall l {:trigger Val(vals, l)} :: -1 <= Val(vals, l) <= 1 && Val(vals, -l) == -Val(vals, l)
  }

  predicate Bit(bits: seq<bool>, l: int) {
    Abs(l) < |bits| && bits[Abs(l)]
  }

  // is_conditional_literal and is_autarky_literal
  predicate IsConditional(vals: map<int, int>, bits: seq<bool>, l: int) {
    Val(vals, l) > 0 && Bit(bits, l)
  }

  predicate IsAutarky(vals: map<int, int>, bits: seq<bool>, l: int) {
    Val(vals, l) > 0 && !Bit(bits, l)
  }

  // The negation of an autarky literal occurs.
  ghost predicate Touched(lits: seq<int>, vals: map<int, int>, bits: seq<bool>) {
    exists i :: 0 <= i < |lits| && IsAutarky(vals, bits, -lits[i])
  }

  ghost predicate SomeTrue(lits: seq<int>, vals: map<int, int>) {
    exists i :: 0 <= i < |lits| && Val(vals, lits[i]) > 0
  }

  // The autarky as a list of literals.
  ghost predicate AutarkyIs(vals: map<int, int>, bits: seq<bool>, autarky: seq<int>) {
    && NonZero(autarky)
    && forall l :: l in autarky <==> l != 0 && IsAutarky(vals, bits, l)
  }

  // Repairing makes exactly the literals of the witness true.
  lemma {:induction false} RepairSets(lits: seq<int>, a: Assignment, x: int)
    requires NonZero(lits) && (forall l :: l in lits ==> -l !in lits)
    ensures x > 0 ==> Repair(lits, a)(x) == if x in lits then true else if -x in lits then false else a(x)
  {
    if lits != [] {
      var n := |lits| - 1;
      var l := lits[n];
      var rest := lits[..n];
      assert lits == rest + [l];
      forall m | m in rest
        ensures -m !in rest
      {
        assert m in lits;
        assert -m in rest ==> -m in lits;
      }
      assert l in lits;
      assert x in lits <==> x in rest || x == l;
      assert -x in lits <==> -x in rest || -x == l;
      RepairSets(rest, if Holds(l, a) then a else Make(l, a), x);
    }
  }

  lemma RepairHolds(lits: seq<int>, a: Assignment, l: int)
    requires NonZero(lits) && (forall m :: m in lits ==> -m !in lits) && l != 0
    ensures Holds(l, Repair(lits, a)) <==> l in lits || (-l !in lits && Holds(l, a))
  {
    RepairSets(lits, a, Abs(l));
    if l in lits {
      assert -l !in lits;
    }
  }

  // What the fixpoint for candidate c guarantees about another clause.
  ghost predicate Settles(lits: seq<int>, vals: map<int, int>, bits: seq<bool>) {
    !Touched(lits, vals, bits) || SomeTrue(lits, vals)
  }

  // A falsified candidate makes the remaining conditional literals true, so
  // a settled clause stays satisfied.
  lemma OtherClauseKept(c: seq<int>, d: seq<int>, vals: map<int, int>, bits: seq<bool>, autarky: seq<int>, a: Assignment)
    requires Symmetric(vals) && AutarkyIs(vals, bits, autarky) && NonZero(d) && NonZero(c)
    requires forall k :: IsConditional(vals, bits, k) ==> -k in c
    requires Settles(d, vals, bits) && ClauseSat(d, a) && !ClauseSat(c, a)
    ensures ClauseSat(d, Repair(autarky, a))
  {
    AutarkyConsistent(vals, bits, autarky);
    if Touched(d, vals, bits) {
      var i :| 0 <= i < |d| && Val(vals, d[i]) > 0;
      if IsAutarky(vals, bits, d[i]) {
        assert d[i] in autarky;
      } else {
        var k := d[i];
        assert IsConditional(vals, bits, k);
        ConditionalHolds(c, d[i], a);
        assert -d[i] !in autarky by {
          assert Val(vals, -d[i]) == -Val(vals, d[i]);
        }
      }
      RepairHolds(autarky, a, d[i]);
    } else {
      var i :| 0 <= i < |d| && Holds(d[i], a);
      assert -d[i] !in autarky;
      RepairHolds(autarky, a, d[i]);
    }
  }

  lemma ConditionalHolds(c: seq<int>, k: int, a: Assignment)
    requires -k in c && k != 0 && !ClauseSat(c, a)
    ensures Holds(k, a)
  {
    var i :| 0 <= i < |c| && c[i] == -k;
    assert !Holds(c[i], a);
  }

  lemma AutarkyConsistent(vals: map<int, int>, bits: seq<bool>, autarky: seq<int>)
    requires Symmetric(vals) && AutarkyIs(vals, bits, autarky)
    ensures forall l :: l in autarky ==> -l !in autarky
  {
    forall l | l in autarky
      ensures -l !in autarky
    {
      assert Val(vals, -l) == -Val(vals, l);
    }
  }

  // The candidate itself is satisfied by an autarky literal in it.
  lemma CandidateRepaired(c: seq<int>, l: int, vals: map<int, int>, bits: seq<bool>, autarky: seq<int>, a: Assignment)
    requires Symmetric(vals) && AutarkyIs(vals, bits, autarky) && l in c && l != 0 && IsAutarky(vals, bits, l)
    ensures ClauseSat(c, Repair(autarky, a))
  {
    AutarkyConsistent(vals, bits, autarky);
    RepairHolds(autarky, a, l);
    var i :| 0 <= i < |c| && c[i] == l;
  }

  // Root-level literals are not touched.
  lemma RootKept(root: seq<int>, vals: map<int, int>, bits: seq<bool>, autarky: seq<int>, a: Assignment)
    requires Symmetric(vals) && AutarkyIs(vals, bits, autarky) && AllHold(root, a)
    requires forall l :: l in root ==> l != 0 && Val(vals, l) == 0
    ensures AllHold(root, Repair(autarky, a))
  {
    AutarkyConsistent(vals, bits, autarky);
    forall l | l in root
      ensures Holds(l, Repair(autarky, a))
    {
      assert Val(vals, -l) == -Val(vals, l);
      RepairHolds(autarky, a, l);
    }
  }

  // Clauses by number; those in use are irredundant and not garbage.
  ghost predicate UsedSat(clauses: seq<seq<int>>, used: seq<bool>, a: Assignment)
    requires |clauses| == |used|
  {
    forall id :: 0 <= id < |clauses| && used[id] ==> ClauseSat(clauses[id], a)
  }

  ghost predicate RootSat(lits: seq<int>, root: seq<int>) {
    exists l :: l in lits && l in root
  }

  // The fixpoint reached for candidate c.
  ghost predicate Blocks(clauses: seq<seq<int>>, used: seq<bool>, root: seq<int>, c: nat, l: int, vals: map<int, int>, bits: seq<bool>)
    requires |clauses| == |used| && c < |clauses|
  {
    && Symmetric(vals) && l in clauses[c] && IsAutarky(vals, bits, l)
    && (forall k :: IsConditional(vals, bits, k) ==> -k in clauses[c])
    && (forall r :: r in root ==> r != 0 && Val(vals, r) == 0)
    && forall id :: 0 <= id < |clauses| && used[id] && id != c ==>
         RootSat(clauses[id], root) || Settles(clauses[id], vals, bits)
  }

  // Fewer clauses in use are blocked as well.
  lemma BlocksLess(clauses: seq<seq<int>>, used: seq<bool>, used': seq<bool>, root: seq<int>, c: nat, l: int,
                   vals: map<int, int>, bits: seq<bool>)
    requires |clauses| == |used| == |used'| && c < |clauses| && Blocks(clauses, used, root, c, l, vals, bits)
    requires forall id :: 0 <= id < |used| && used'[id] ==> used[id]
    ensures Blocks(clauses, used', root, c, l, vals, bits)
  {
  }

  // What a set of true literals would have to be to block clause c: it meets
  // the clause, and every other clause that contains the negation of a member
  // contains a member too, or a true literal that is negated in c.
  ghost predicate BlockSet(clauses: seq<seq<int>>, used: seq<bool>, vals: map<int, int>, c: nat, y: set<int>)
    requires |clauses| == |used| && c < |clauses|
  {
    && (forall l :: l in y ==> Val(vals, l) > 0)
    && (exists l :: l in y && l in clauses[c])
    && forall id :: 0 <= id < |clauses| && used[id] && id != c && Hit(clauses[id], y) ==> Saved(clauses[id], clauses[c], vals, y)
  }

  ghost predicate Hit(d: seq<int>, y: set<int>) {
    exists k :: k in y && -k in d
  }

  ghost predicate Saved(d: seq<int>, c: seq<int>, vals: map<int, int>, y: set<int>) {
    exists r :: r in d && (r in y || (Val(vals, r) > 0 && -r in c))
  }

  // Global blocking is sound: taking c out of use and pushing it with the
  // autarky as its witness, every model of the rest that agrees with the root
  // literals is repaired to a model of all.
  lemma GloballyBlocked(clauses: seq<seq<int>>, used: seq<bool>, root: seq<int>, c: nat, l: int,
                        vals: map<int, int>, bits: seq<bool>, autarky: seq<int>, a: Assignment)
    requires |clauses| == |used| && c < |clauses| && Blocks(clauses, used, root, c, l, vals, bits)
    requires AutarkyIs(vals, bits, autarky) && forall id :: 0 <= id < |clauses| ==> NonZero(clauses[id])
    requires AllHold(root, a) && UsedSat(clauses, used[c := false], a)
    ensures var b := if ClauseSat(clauses[c], a) then a else Repair(autarky, a);
      AllHold(root, b) && UsedSat(clauses, used, b)
  {
    if !ClauseSat(clauses[c], a) {
      var b := Repair(autarky, a);
      RootKept(root, vals, bits, autarky, a);
      forall id | 0 <= id < |clauses| && used[id]
        ensures ClauseSat(clauses[id], b)
      {
        if id == c {
          CandidateRepaired(clauses[c], l, vals, bits, autarky, a);
        } else if RootSat(clauses[id], root) {
          var r :| r in clauses[id] && r in root;
          var i :| 0 <= i < |clauses[id]| && clauses[id][i] == r;
          assert Holds(r, b);
        } else {
          OtherClauseKept(clauses[c], clauses[id], vals, bits, autarky, a);
        }
      }
    }
  }

  // Models of what is in use now unwind to models of what was in use before.
  ghost predicate Restores(clauses: seq<seq<int>>, used0: seq<bool>, used: seq<bool>, root: seq<int>, pushed: seq<Entry>)
    requires |clauses| == |used0| == |used|
  {
    forall a {:trigger UsedSat(clauses, used, a)} :: AllHold(root, a) && UsedSat(clauses, used, a) ==>
      AllHold(root, Unwind(pushed, a)) && UsedSat(clauses, used0, Unwind(pushed, a))
  }

  lemma RestoresMore(clauses: seq<seq<int>>, used0: seq<bool>, used: seq<bool>, root: seq<int>, pushed: seq<Entry>, c: nat, l: int,
                     vals: map<int, int>, bits: seq<bool>, autarky: seq<int>)
    requires |clauses| == |used0| == |used| && Restores(clauses, used0, used, root, pushed)
    requires c < |clauses| && Blocks(clauses, used, root, c, l, vals, bits)
    requires AutarkyIs(vals, bits, autarky) && forall id :: 0 <= id < |clauses| ==> NonZero(clauses[id])
    ensures Restores(clauses, used0, used[c := false], root, pushed + [Entry(autarky, clauses[c])])
  {
    var pushed' := pushed + [Entry(autarky, clauses[c])];
    assert pushed'[..|pushed|] == pushed;
    forall a | AllHold(root, a) && UsedSat(clauses, used[c := false], a)
      ensures AllHold(root, Unwind(pushed', a)) && UsedSat(clauses, used0, Unwind(pushed', a))
    {
      GloballyBlocked(clauses, used, root, c, l, vals, bits, autarky, a);
    }
  }
}
