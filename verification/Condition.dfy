/** `condition_round`: globally blocked clauses are found by refining one
    assignment, and pushed on the extension stack. */
module Condition {
  import opened Knf
  import opened Elimination
  import opened IndexedStack
  import opened RecoveryLog
  import opened Clauses
  import opened Extension
  import opened Watches
  import opened GlobalBlocking
  import opened Conditioning

  class Conditioner {
    const clauses: seq<seq<int>>
    const numVars: nat
    const root: seq<int>
    const trail: seq<int>
    const limit: int
    const ext: External
    ghost const vals0: map<int, int>
    var used: seq<bool>
    var occs: map<int, seq<int>>
    var vals: map<int, int>
    var bits: seq<bool>
    var conditional: seq<int>
    var unassigned: seq<int>
    var props: int

    // The assignment chosen by the first loop of condition_round is given.
    constructor (clauses: seq<seq<int>>, used: seq<bool>, numVars: nat, root: seq<int>, trail: seq<int>, vals: map<int, int>,
                 limit: int, ext: External)
      requires |used| == |clauses| && TrailOk(vals, trail) && forall l :: l in trail ==> 1 <= Abs(l) <= numVars
      requires forall id :: 0 <= id < |clauses| ==> NonZero(clauses[id]) && VarsIn(clauses[id], numVars)
      requires forall r :: r in root ==> r != 0 && r !in trail && -r !in trail
      ensures Fresh() && this.clauses == clauses && this.used == used && this.root == root && this.ext == ext
    {
      this.clauses, this.used, this.numVars, this.root, this.trail := clauses, used, numVars, root, trail;
      this.limit, this.ext, this.vals, vals0 := limit, ext, vals, vals;
      occs, bits, conditional, unassigned, props := map[], NoneDeleted(numVars + 1), [], [], 0;
    }

    ghost predicate Fresh()
      reads this
    {
      && Fixed() && |used| == |clauses| && vals == vals0
      && occs == map[] && bits == NoneDeleted(numVars + 1) && conditional == [] && unassigned == []
    }

    ghost function Now(): Work
      reads this
    {
      Work(occs, vals, bits, conditional, unassigned)
    }

    // The trail lists the literals that are true, apart from the root level.
    ghost predicate Fixed()
    {
      true == (
        && TrailOk(vals0, trail) && (forall l :: l in trail ==> 1 <= Abs(l) <= numVars)
        && (forall id :: 0 <= id < |clauses| ==> NonZero(clauses[id]) && VarsIn(clauses[id], numVars))
        && forall r :: r in root ==> r != 0 && r !in trail && -r !in trail)
    }

    // Between candidates: the initial assignment and conditional part. The
    // context keeps the clauses that were in use after the scan.
    ghost predicate Between(x: Context, initial: seq<int>)
      reads this
    {
      true == (
        && Fixed() && x == Context(clauses, x.used, numVars, vals0, bits) && ContextOk(x)
        && |used| == |x.used| && (forall id :: 0 <= id < |used| && used[id] ==> x.used[id])
        && Reasoned(x.clauses, x.used, x.vals, initial, |x.clauses|)
        && ConditionalOk(x, initial, bits) && conditional == initial && unassigned == []
        && (forall l :: Val(vals, l) == Val(vals0, l)) && Watched(x, occs))
    }

    // While a candidate is tried.
    ghost predicate Trying(x: Context, u: int, j: int, pending: seq<int>)
      reads this
    {
      Working(x, Now(), u, j, pending) && x.clauses == clauses && x.numVars == numVars
    }

    // The same for candidate c: its first n conditional literals are
    // processed, an autarky literal of it is watched, and what has become
    // conditional belongs to no set that would block it.
    ghost predicate Going(x: Context, u: int, j: int, pending: seq<int>, c: nat, n: int, watched: int)
      reads this
    {
      true == (
        && Trying(x, u, j, pending) && c < |clauses| && Processed(Now(), clauses[c], n) && WatchedAutarky(clauses[c], watched)
        && Spared(x, c, conditional, unassigned))
    }

    // The watched autarky literal of the candidate, or 0 if there is none.
    ghost predicate WatchedAutarky(c: seq<int>, l: int)
      reads this
    {
      if l == 0 then forall m :: m in c ==> !IsAutarky(vals, bits, m) else l in c && IsAutarky(vals, bits, l)
    }

    // An autarky literal of the clause, the first one, or 0.
    method FindAutarky(c: seq<int>) returns (l: int)
      requires NonZero(c)
      ensures WatchedAutarky(c, l)
    {
      l := 0;
      var i := 0;
      while i < |c| && l == 0
        invariant 0 <= i <= |c|
        invariant if l == 0 then forall k :: 0 <= k < i ==> !IsAutarky(vals, bits, c[k]) else l in c && IsAutarky(vals, bits, l)
      {
        if IsAutarky(vals, bits, c[i]) {
          l := c[i];
        }
        i := i + 1;
      }
    }

    // The last true literal of the clause, and whether it has false autarky
    // literals.
    method Inspect(d: seq<int>) returns (replacement: int, negative: nat)
      requires NonZero(d) && Symmetric(vals)
      ensures replacement != 0 ==> replacement in d && Val(vals, replacement) > 0
      ensures replacement == 0 ==> forall i :: 0 <= i < |d| ==> Val(vals, d[i]) <= 0
      ensures negative == 0 ==> !Touched(d, vals, bits)
    {
      replacement, negative := 0, 0;
      for i := 0 to |d|
        invariant replacement != 0 ==> replacement in d && Val(vals, replacement) > 0
        invariant replacement == 0 ==> forall k :: 0 <= k < i ==> Val(vals, d[k]) <= 0
        invariant negative == 0 ==> forall k :: 0 <= k < i ==> !IsAutarky(vals, bits, -d[k])
      {
        assert Val(vals, -d[i]) == -Val(vals, d[i]);
        var tmp := Val(vals, d[i]);
        if tmp > 0 {
          replacement := d[i];
        }
        if tmp < 0 && IsAutarky(vals, bits, -d[i]) {
          negative := negative + 1;
        }
      }
    }

    // One autarky literal becomes conditional.
    method MarkOne(d: seq<int>, i: nat, c: nat, n: nat, watched: int, ghost x: Context, ghost u: int, ghost j: int, ghost pending: seq<int>)
        returns (watched': int)
      requires Going(x, u, j, pending, c, n, watched) && watched != 0 && c < |clauses| && NonZero(clauses[c])
      requires i < |d| && IsAutarky(vals, bits, -d[i]) && Doomed(x, c, d)
      modifies this`bits, this`conditional
      ensures Going(x, u, j, pending, c, n, watched')
      ensures Abs(-d[i]) < |old(bits)| && bits == old(bits)[Abs(-d[i]) := true] && conditional == old(conditional) + [-d[i]]
    {
      var l := -d[i];
      MarkGoes(x, Now(), u, j, pending, c, n, d, i, watched);
      bits := bits[Abs(l) := true];
      conditional := conditional + [l];
      watched' := watched;
      if l == watched {
        watched' := FindAutarky(clauses[c]);
      }
    }

    // False autarky literals of d become conditional; the candidate may lose
    // its watched autarky literal, for good or to another one.
    method MakeConditional(d: seq<int>, c: nat, n: nat, watched: int,
                           ghost x: Context, ghost u: int, ghost j: int, ghost pending: seq<int>) returns (watched': int)
      requires Going(x, u, j, pending, c, n, watched) && watched != 0 && c < |clauses| && NonZero(clauses[c])
      requires Doomed(x, c, d)
      modifies this`bits, this`conditional
      ensures Going(x, u, j, pending, c, n, watched')
      ensures watched' != 0 ==> !Touched(d, vals, bits)
      ensures Prefix(old(conditional), conditional)
    {
      watched' := watched;
      var i := 0;
      while i < |d| && watched' != 0
        invariant 0 <= i <= |d| && Prefix(old(conditional), conditional)
        invariant Going(x, u, j, pending, c, n, watched')
        invariant NotTouched(d, i, vals, bits)
      {
        ghost var before := bits;
        if IsAutarky(vals, bits, -d[i]) {
          watched' := MarkOne(d, i, c, n, watched', x, u, j, pending);
        }
        UntouchedStep(d, i, vals, before, bits);
        i := i + 1;
      }
      UntouchedEnd(d, i, vals, bits);
    }

    // One entry of the list of an unassigned literal.
    method VisitClause(u: int, j: nat, c: nat, n: nat, watched: int, ghost x: Context, ghost pending: seq<int>)
        returns (watched': int, j': nat)
      requires Going(x, u, j, pending, c, n, watched) && watched != 0 && c < |clauses| && NonZero(clauses[c])
      requires j < |Occs(occs, u)| && Val(vals, u) == 0 && OccsIn(occs, x.used, |clauses|)
      modifies this`bits, this`conditional, this`occs
      ensures Going(x, u, j', pending, c, n, watched') && j' <= |Occs(occs, u)| && OccsIn(occs, x.used, |clauses|)
      ensures watched' != 0 ==> |Occs(occs, u)| - j' < |Occs(old(occs), u)| - j
      ensures Prefix(old(conditional), conditional)
    {
      var id := Occs(occs, u)[j];
      EntryIn(occs, x.used, |clauses|, u, j);
      WorkFacts(x, Now(), u, j, pending, id);
      var replacement, negative := Inspect(clauses[id]);
      watched', j' := watched, j;
      if replacement != 0 {
        MoveKeeps(x, Now(), u, j, pending, replacement);
        MovedIn(occs, u, j, replacement, x.used, |clauses|);
        ProcessedOccs(Now(), Moved(occs, u, j, replacement), clauses[c], n);
        occs := Moved(occs, u, j, replacement);
      } else {
        if negative != 0 {
          VisitDooms(x, Now(), u, j, pending, c, id, watched);
          watched' := MakeConditional(clauses[id], c, n, watched, x, u, j, pending);
        }
        if watched' != 0 {
          EntryDone(x, Now(), u, j, pending);
          j' := j + 1;
        }
      }
    }

    // The list of an unassigned literal: each of its clauses finds another
    // true literal to watch, or has its false autarky literals made
    // conditional.
    method ProcessUnassigned(u: int, c: nat, n: nat, watched: int, ghost x: Context, ghost pending: seq<int>)
        returns (watched': int)
      requires Going(x, u, 0, pending, c, n, watched) && c < |clauses| && NonZero(clauses[c])
      requires u != 0 && Val(vals, u) == 0 && OccsIn(occs, x.used, |clauses|)
      modifies this`bits, this`conditional, this`occs
      ensures OccsIn(occs, x.used, |clauses|) && Prefix(old(conditional), conditional)
      ensures if watched' != 0 then Going(x, 0, 0, pending, c, n, watched') else Stuck(x, c)
    {
      watched' := watched;
      var j := 0;
      while watched' != 0 && j < |Occs(occs, u)|
        invariant 0 <= j <= |Occs(occs, u)| && Val(vals, u) == 0 && Prefix(old(conditional), conditional)
        invariant Going(x, u, j, pending, c, n, watched') && OccsIn(occs, x.used, |clauses|)
        decreases watched' != 0, |Occs(occs, u)| - j
      {
        watched', j := VisitClause(u, j, c, n, watched', x, pending);
      }
      if watched' != 0 {
        ListEnd(x, Now(), u, pending);
      } else {
        NothingLeft(x, u, j, pending, c, n);
      }
    }

    // What is needed to go back to the initial assignment.
    ghost predicate Restorable(x: Context)
      reads this
    {
      true == (
        && ContextOk(x) && x.clauses == clauses && ConditionalOk(x, conditional, bits)
        && UnassignedOk(x, conditional, unassigned, vals) && Watched(x, occs))
    }

    // The candidate has no autarky literal left, and nothing blocks it.
    ghost predicate Stuck(x: Context, c: nat)
      reads this
    {
      true == (
        && Restorable(x) && |x.clauses| == |x.used| && c < |x.clauses|
        && forall y :: !BlockSet(x.clauses, x.used, x.vals, c, y))
    }

    lemma NothingLeft(x: Context, u: int, j: int, pending: seq<int>, c: nat, n: int)
      requires Going(x, u, j, pending, c, n, 0)
      ensures Stuck(x, c)
    {
      TryingRestorable(x, Now(), u, j, pending);
      WorkParted(x, Now(), u, j, pending);
      NothingBlocks(x, Now(), c);
    }

    // condition_unassign
    method UnassignLiteral(k: int, ghost c: nat, ghost n: nat, ghost watched: int, ghost x: Context)
      requires Going(x, 0, 0, [], c, n, watched) && watched != 0 && n < |conditional| && k == conditional[n]
      requires c < |clauses| && -k !in clauses[c]
      modifies this`vals, this`unassigned
      ensures Going(x, 0, 0, [k], c, n + 1, watched)
      ensures k != 0 && Val(vals, k) == 0 && unassigned == old(unassigned) + [k]
    {
      ProcessedUnassign(x, Now(), clauses[c], n);
      UnassignKeeps(x, Now(), [], k);
      assert [] + [k] == [k];
      StillAutarky(x, Now(), k, watched);
      SparedUnassign(x, c, conditional, unassigned, k);
      vals := vals[k := 0][-k := 0];
      unassigned := unassigned + [k];
    }

    // Unassigning a conditional literal and processing it.
    method DropConditional(k: int, c: nat, n: nat, watched: int, ghost x: Context) returns (watched': int)
      requires Going(x, 0, 0, [], c, n, watched) && watched != 0 && n < |conditional| && k == conditional[n]
      requires c < |clauses| && -k !in clauses[c] && NonZero(clauses[c]) && OccsIn(occs, x.used, |clauses|)
      modifies this`bits, this`conditional, this`occs, this`vals, this`unassigned, this`props
      ensures OccsIn(occs, x.used, |clauses|) && Prefix(old(conditional), conditional) && Restorable(x)
      ensures watched' == 0 ==> Stuck(x, c)
      ensures watched' != 0 && props < limit ==> Going(x, 0, 0, [], c, n + 1, watched')
      ensures unassigned == old(unassigned) + [k] && props == (if old(props) < limit then old(props) + 1 else old(props))
    {
      UnassignLiteral(k, c, n, watched, x);
      watched' := watched;
      TryingRestorable(x, Now(), 0, 0, [k]);
      if props < limit {
        props := props + 1;
        watched' := ProcessNext(k, c, n + 1, watched', x);
      }
    }

    // The one literal that is waiting.
    method ProcessNext(k: int, c: nat, n: nat, watched: int, ghost x: Context) returns (watched': int)
      requires Going(x, 0, 0, [k], c, n, watched) && k != 0 && Val(vals, k) == 0
      requires c < |clauses| && NonZero(clauses[c]) && OccsIn(occs, x.used, |clauses|)
      modifies this`bits, this`conditional, this`occs
      ensures OccsIn(occs, x.used, |clauses|) && Prefix(old(conditional), conditional) && Restorable(x)
      ensures if watched' != 0 then Going(x, 0, 0, [], c, n, watched') else Stuck(x, c)
    {
      ListStart(x, Now(), [k]);
      assert [k][1..] == [];
      watched' := ProcessUnassigned(k, c, n, watched, x, []);
      if watched' != 0 {
        TryingRestorable(x, Now(), 0, 0, []);
      }
    }

    // The loop over the conditional stack, up to the fixpoint, the limit, or
    // the loss of the last autarky literal of the candidate. Each literal that
    // is unassigned counts as one propagation.
    method Refine(c: nat, watched: int, ghost x: Context) returns (watched': int)
      requires Going(x, 0, 0, [], c, 0, watched) && watched != 0
      requires c < |clauses| && NonZero(clauses[c]) && OccsIn(occs, x.used, |clauses|)
      modifies this`bits, this`conditional, this`occs, this`vals, this`unassigned, this`props
      ensures OccsIn(occs, x.used, |clauses|) && Prefix(old(conditional), conditional) && Restorable(x)
      ensures watched' == 0 ==> Stuck(x, c)
      ensures watched' != 0 && props < limit ==> Going(x, 0, 0, [], c, |conditional|, watched')
      ensures |old(unassigned)| <= |unassigned| <= |old(unassigned)| + numVars && props - old(props) == |unassigned| - |old(unassigned)|
    {
      watched' := watched;
      var n := 0;
      TryingRestorable(x, Now(), 0, 0, []);
      while watched' != 0 && props < limit && n < |conditional|
        invariant OccsIn(occs, x.used, |clauses|) && Prefix(old(conditional), conditional) && Restorable(x)
        invariant watched' == 0 ==> Stuck(x, c)
        invariant 0 <= n <= numVars && (watched' != 0 && props < limit ==> Going(x, 0, 0, [], c, n, watched'))
        invariant |old(unassigned)| <= |unassigned| <= |old(unassigned)| + n && props - old(props) == |unassigned| - |old(unassigned)|
        decreases watched' != 0 && props < limit, numVars + 1 - n
      {
        var k := conditional[n];
        StackFits(x, Now());
        if -k in clauses[c] {
          ProcessedUnassign(x, Now(), clauses[c], n);
        } else {
          watched' := DropConditional(k, c, n, watched', x);
        }
        n := n + 1;
      }
      if watched' != 0 && props < limit {
        StackLonger(Now(), clauses[c], n);
      }
    }

    // The autarky left, in trail order.
    method CollectAutarky(ghost x: Context) returns (autarky: seq<int>)
      requires Fixed() && Trying(x, 0, 0, []) && x.vals == vals0
      ensures AutarkyIs(vals, bits, autarky)
    {
      autarky := [];
      for i := 0 to |trail|
        invariant forall l :: l in autarky <==> l in trail[..i] && IsAutarky(vals, bits, l)
      {
        assert trail[..i + 1] == trail[..i] + [trail[i]];
        if IsAutarky(vals, bits, trail[i]) {
          autarky := autarky + [trail[i]];
        }
      }
      assert trail[..|trail|] == trail;
      AutarkyOnTrail(x, Now(), trail, autarky);
    }

    // Back to the initial assignment and conditional part.
    method Restore(ghost x: Context, initial: nat)
      requires Restorable(x) && initial <= |conditional| && ConditionalOk(x, conditional[..initial], x.bits)
      modifies this`bits, this`conditional, this`vals, this`unassigned
      ensures conditional == old(conditional)[..initial] && bits == x.bits && unassigned == []
      ensures forall l :: Val(vals, l) == Val(x.vals, l)
    {
      Reassign(x);
      Unmark(x, initial);
      SameBits(x, conditional, bits, x.bits);
    }

    // condition_assign for everything unassigned
    method Reassign(ghost x: Context)
      requires Restorable(x)
      modifies this`vals, this`unassigned
      ensures unassigned == [] && forall l :: Val(vals, l) == Val(x.vals, l)
    {
      while unassigned != []
        invariant ContextOk(x) && ConditionalOk(x, conditional, bits) && UnassignedOk(x, conditional, unassigned, vals)
        decreases |unassigned|
      {
        var l := unassigned[|unassigned| - 1];
        ReassignVals(x, conditional, bits, unassigned, vals);
        unassigned := unassigned[..|unassigned| - 1];
        vals := vals[l := 1][-l := -1];
      }
      NothingUnassigned(x, conditional, vals);
    }

    method Unmark(ghost x: Context, initial: nat)
      requires ConditionalOk(x, conditional, bits) && initial <= |conditional|
      modifies this`bits, this`conditional
      ensures ConditionalOk(x, conditional, bits) && conditional == old(conditional)[..initial]
    {
      while |conditional| > initial
        invariant initial <= |conditional| <= |old(conditional)| && conditional == old(conditional)[..|conditional|]
        invariant ConditionalOk(x, conditional, bits)
      {
        var l := conditional[|conditional| - 1];
        UnmarkConditional(x, conditional, bits);
        bits := bits[Abs(l) := false];
        conditional := conditional[..|conditional| - 1];
      }
    }

    // The candidate is pushed with the autarky as witness and goes out of use.
    method Block(id: nat, watched: int, ghost x: Context, ghost used0: seq<bool>, ghost pushed: seq<Entry>)
        returns (ghost pushed': seq<Entry>)
      requires Fixed() && x.vals == vals0 && id < |clauses| == |used| == |used0| == |x.used|
      requires forall d :: 0 <= d < |used| && used[d] ==> x.used[d]
      requires Going(x, 0, 0, [], id, |conditional|, watched) && watched != 0 && ext.Valid()
      requires Restores(clauses, used0, used, root, pushed)
      modifies this`used, ext`extension, ext`entries
      ensures used == old(used)[id := false] && Restorable(x)
      ensures |pushed'| == |pushed| + 1 && pushed'[..|pushed|] == pushed
      ensures ext.Valid() && ext.entries == old(ext.entries) + pushed'[|pushed|..]
      ensures Restores(clauses, used0, used, root, pushed')
      ensures exists y :: BlockSet(clauses, x.used, x.vals, id, y)
    {
      RootUnassigned(vals0, trail, root);
      var autarky := CollectAutarky(x);
      BlockedRestores(x, Now(), root, used0, used, id, watched, pushed, autarky);
      ClauseProper(x, id);
      ext.PushClauseAndWitness(clauses[id], autarky);
      pushed' := pushed + [Entry(autarky, clauses[id])];
      TryingRestorable(x, Now(), 0, 0, []);
      used := used[id := false];
    }

    // One candidate: if an autarky literal of it survives the fixpoint, it is
    // pushed with the autarky as witness and taken out of use. Below the
    // limit this happens if and only if some set of true literals blocks it.
    method TryCandidate(id: nat, ghost x: Context, ghost initial: seq<int>, ghost used0: seq<bool>, ghost pushed: seq<Entry>)
        returns (blocked: bool, ghost pushed': seq<Entry>)
      requires Between(x, initial) && OccsIn(occs, x.used, |clauses|) && id < |clauses|
      requires ext.Valid() && |used0| == |clauses| && Restores(clauses, used0, used, root, pushed)
      modifies this`bits, this`conditional, this`occs, this`vals, this`unassigned, this`props, this`used, ext`extension, ext`entries
      ensures Between(x, initial) && OccsIn(occs, x.used, |clauses|)
      ensures |pushed'| == (if blocked then |pushed| + 1 else |pushed|) && pushed'[..|pushed|] == pushed
      ensures ext.Valid() && ext.entries == old(ext.entries) + pushed'[|pushed|..]
      ensures Restores(clauses, used0, used, root, pushed')
      ensures used == if blocked then old(used)[id := false] else old(used)
      ensures props < limit ==> (blocked <==> exists y :: BlockSet(clauses, x.used, vals0, id, y))
      ensures old(props) <= props <= old(props) + numVars
    {
      var watched := StartCandidate(id, x, initial);
      blocked, pushed' := false, pushed;
      if watched != 0 {
        blocked, pushed' := TryWatched(id, watched, x, initial, used0, pushed);
      }
    }

    method TryWatched(id: nat, watched: int, ghost x: Context, ghost initial: seq<int>, ghost used0: seq<bool>, ghost pushed: seq<Entry>)
        returns (blocked: bool, ghost pushed': seq<Entry>)
      requires Between(x, initial) && OccsIn(occs, x.used, |clauses|) && id < |clauses|
      requires Going(x, 0, 0, [], id, 0, watched) && watched != 0 && NonZero(clauses[id])
      requires ext.Valid() && |used0| == |clauses| && Restores(clauses, used0, used, root, pushed)
      modifies this`bits, this`conditional, this`occs, this`vals, this`unassigned, this`props, this`used, ext`extension, ext`entries
      ensures Between(x, initial) && OccsIn(occs, x.used, |clauses|)
      ensures |pushed'| == (if blocked then |pushed| + 1 else |pushed|) && pushed'[..|pushed|] == pushed
      ensures ext.Valid() && ext.entries == old(ext.entries) + pushed'[|pushed|..]
      ensures Restores(clauses, used0, used, root, pushed')
      ensures used == if blocked then old(used)[id := false] else old(used)
      ensures props < limit ==> (blocked <==> exists y :: BlockSet(clauses, x.used, vals0, id, y))
      ensures old(props) <= props <= old(props) + numVars
    {
      var size := |conditional|;
      blocked, pushed' := RefineAndBlock(id, watched, x, used0, pushed);
      FinishCandidate(x, initial, size);
    }

    // Back to the state between candidates.
    method FinishCandidate(ghost x: Context, ghost initial: seq<int>, size: nat)
      requires Restorable(x) && Fixed() && x == Context(clauses, x.used, numVars, vals0, x.bits)
      requires |used| == |x.used| && forall id :: 0 <= id < |used| && used[id] ==> x.used[id]
      requires Reasoned(x.clauses, x.used, x.vals, initial, |x.clauses|) && ConditionalOk(x, initial, x.bits)
      requires size == |initial| <= |conditional| && conditional[..size] == initial
      modifies this`bits, this`conditional, this`vals, this`unassigned
      ensures Between(x, initial)
    {
      assert ContextOk(x) && Watched(x, occs);
      Restore(x, size);
    }

    // The first watched literal, if any.
    method StartCandidate(id: nat, ghost x: Context, ghost initial: seq<int>) returns (watched: int)
      requires Between(x, initial) && id < |clauses|
      ensures watched != 0 ==> Going(x, 0, 0, [], id, 0, watched) && NonZero(clauses[id])
      ensures watched == 0 ==> |x.used| == |clauses| && forall y :: !BlockSet(clauses, x.used, x.vals, id, y)
    {
      ClauseProper(x, id);
      watched := FindAutarky(clauses[id]);
      WorkStart(x, Now());
      WorkParted(x, Now(), 0, 0, []);
      if watched == 0 {
        NoCandidate(x, Now(), id);
      } else {
        InitialSpared(x, id, conditional, watched);
      }
    }

    // From the watched literal to the fixpoint, and to the extension stack.
    method RefineAndBlock(id: nat, watched: int, ghost x: Context, ghost used0: seq<bool>, ghost pushed: seq<Entry>)
        returns (blocked: bool, ghost pushed': seq<Entry>)
      requires Fixed() && x.vals == vals0 && id < |clauses| == |used| == |used0| == |x.used|
      requires forall d :: 0 <= d < |used| && used[d] ==> x.used[d]
      requires Going(x, 0, 0, [], id, 0, watched) && watched != 0 && NonZero(clauses[id]) && OccsIn(occs, x.used, |clauses|)
      requires ext.Valid() && Restores(clauses, used0, used, root, pushed)
      modifies this`bits, this`conditional, this`occs, this`vals, this`unassigned, this`props, this`used, ext`extension, ext`entries
      ensures OccsIn(occs, x.used, |clauses|) && Prefix(old(conditional), conditional) && Restorable(x)
      ensures used == (if blocked then old(used)[id := false] else old(used))
      ensures |pushed'| == (if blocked then |pushed| + 1 else |pushed|) && pushed'[..|pushed|] == pushed
      ensures ext.Valid() && ext.entries == old(ext.entries) + pushed'[|pushed|..]
      ensures Restores(clauses, used0, used, root, pushed')
      ensures props < limit ==> (blocked <==> exists y :: BlockSet(clauses, x.used, x.vals, id, y))
      ensures old(props) <= props <= old(props) + numVars
    {
      blocked, pushed' := false, pushed;
      var last := Refine(id, watched, x);
      if last != 0 && props < limit {
        pushed' := Block(id, last, x, used0, pushed);
        blocked := true;
      }
    }

    // The scan of the clauses, i of them done.
    ghost predicate Scanned(i: int, used0: seq<bool>)
      reads this
    {
      true == (
        && Fixed() && |used| == |used0| == |clauses| && vals == vals0 && unassigned == [] && OccsIn(occs, used, i)
        && Reasoned(clauses, used, vals0, conditional, i)
        && ConditionalOk(Context(clauses, used, numVars, vals0, bits), conditional, bits)
        && ScannedUpTo(Context(clauses, used, numVars, vals0, bits), occs, i)
        && Restores(clauses, used0, used, root, []))
    }

    // Of the first n clauses those satisfied at the root have gone.
    ghost predicate Sifted(before: seq<bool>, after: seq<bool>, n: int)
    {
      && |before| == |after| == |clauses|
      && forall id :: 0 <= id < |clauses| ==> (after[id] <==> before[id] && (id >= n || !RootSat(clauses[id], root)))
    }

    // Root-level value, numbers of true and false literals, and the true
    // literal with the shortest list.
    method CountLiterals(d: seq<int>) returns (satisfied: bool, positive: nat, negative: nat, watch: int)
      requires NonZero(d) && Symmetric(vals)
      ensures satisfied <==> RootSat(d, root)
      ensures positive > 0 ==> watch != 0 && watch in d && Val(vals, watch) > 0
      ensures !satisfied && negative == 0 ==> !Touched(d, vals, bits)
      ensures !satisfied && positive == 0 ==> forall i :: 0 <= i < |d| ==> Val(vals, d[i]) <= 0
    {
      satisfied, positive, negative, watch := false, 0, 0, 0;
      var minsize := 0;
      var i := 0;
      while i < |d| && !satisfied
        invariant 0 <= i <= |d|
        invariant satisfied <==> exists k :: 0 <= k < i && d[k] in root
        invariant (positive > 0 ==> watch != 0) && (watch != 0 ==> watch in d && Val(vals, watch) > 0)
        invariant !satisfied && negative == 0 ==> forall k :: 0 <= k < i ==> !IsAutarky(vals, bits, -d[k])
        invariant !satisfied && positive == 0 ==> forall k :: 0 <= k < i ==> Val(vals, d[k]) <= 0
      {
        var l := d[i];
        assert Val(vals, -l) == -Val(vals, l);
        if l in root {
          satisfied := true;
        } else if Val(vals, l) < 0 {
          negative := negative + 1;
        } else if Val(vals, l) > 0 {
          if watch == 0 || |Occs(occs, l)| < minsize {
            watch, minsize := l, |Occs(occs, l)|;
          }
          positive := positive + 1;
        }
        i := i + 1;
      }
      if satisfied {
        var k :| 0 <= k < i && d[k] in root;
        var l := d[k];
        assert l in d;
      }
    }

    // A clause with false and no true literals makes their negations
    // conditional from the start.
    method MarkInitial(id: nat, ghost x: Context)
      requires x == Context(clauses, used, numVars, vals0, bits) && ContextOk(x) && ConditionalOk(x, conditional, bits) && vals == vals0
      requires id < |clauses| && used[id] && forall i :: 0 <= i < |clauses[id]| ==> Val(vals, clauses[id][i]) <= 0
      requires Reasoned(clauses, used, vals0, conditional, id + 1)
      modifies this`bits, this`conditional
      ensures ConditionalOk(x, conditional, bits) && !Touched(clauses[id], vals, bits)
      ensures Reasoned(clauses, used, vals0, conditional, id + 1)
      ensures forall l :: IsAutarky(vals, bits, l) ==> IsAutarky(vals, old(bits), l)
    {
      var d := clauses[id];
      for i := 0 to |d|
        invariant ConditionalOk(x, conditional, bits) && NotTouched(d, i, vals, bits)
        invariant Reasoned(clauses, used, vals0, conditional, id + 1)
        invariant forall l :: IsAutarky(vals, bits, l) ==> IsAutarky(vals, old(bits), l)
      {
        ghost var before := bits;
        var l := -d[i];
        if IsAutarky(vals, bits, l) {
          ValueInRange(x, l);
          MarkConditional(x, conditional, bits, l);
          OneMarked(vals, bits, l);
          ReasonedMore(clauses, used, vals0, conditional, id, i);
          bits := bits[Abs(l) := true];
          conditional := conditional + [l];
        }
        UntouchedStep(d, i, vals, before, bits);
      }
      UntouchedEnd(d, |d|, vals, bits);
    }

    // One clause of the scan.
    method ScanClause(id: nat, ghost used0: seq<bool>) returns (candidate: bool)
      requires Scanned(id, used0) && id < |clauses| && used[id]
      modifies this`used, this`occs, this`bits, this`conditional
      ensures Scanned(id + 1, used0)
      ensures used == old(used)[id := !RootSat(clauses[id], root)]
      ensures candidate <==> IsCandidate(clauses[id], root, vals)
    {
      ghost var x := Context(clauses, used, numVars, vals0, bits);
      ScanFacts(x, trail, occs, id);
      var satisfied, positive, negative, watch := CountLiterals(clauses[id]);
      candidate := !satisfied && positive > 0;
      if satisfied {
        ScanSatisfied(x, occs, id, used0, root);
        ScanDropped(x, occs, id, conditional);
        used := used[id := false];
      } else {
        WatchOrMark(id, used0, positive, negative, watch);
      }
    }

    // A clause with both true and false literals is watched, one with false
    // literals only makes their negations conditional.
    method WatchOrMark(id: nat, ghost used0: seq<bool>, positive: nat, negative: nat, watch: int)
      requires Scanned(id, used0) && id < |clauses| && used[id]
      requires positive > 0 ==> watch != 0 && watch in clauses[id] && Val(vals, watch) > 0
      requires negative == 0 ==> !Touched(clauses[id], vals, bits)
      requires positive == 0 ==> forall i :: 0 <= i < |clauses[id]| ==> Val(vals, clauses[id][i]) <= 0
      modifies this`occs, this`bits, this`conditional
      ensures Scanned(id + 1, used0)
    {
      ghost var x := Context(clauses, used, numVars, vals0, bits);
      ScanFacts(x, trail, occs, id);
      ScanMore(x, occs, id, conditional);
      if negative > 0 && positive > 0 {
        ScanWatched(x, occs, id, watch);
        occs := occs[watch := Occs(occs, watch) + [id]];
      } else if negative > 0 {
        MarkInitial(id, x);
        ScanMarked(x, occs, id, bits);
      } else {
        ScanMarked(x, occs, id, bits);
      }
    }

    // The loop that collects candidates, watches and initial conditionals:
    // clauses satisfied at the root go out of use, those with a true literal
    // are candidates.
    method ScanClauses() returns (candidates: seq<int>)
      requires Fresh()
      modifies this`used, this`occs, this`bits, this`conditional
      ensures Scanned(|clauses|, old(used)) && Sifted(old(used), used, |clauses|) && Unrepeated(candidates)
      ensures forall id :: id in candidates <==> 0 <= id < |clauses| && old(used)[id] && IsCandidate(clauses[id], root, vals)
    {
      candidates := [];
      ScanStart(Context(clauses, used, numVars, vals0, bits), root);
      for id := 0 to |clauses|
        invariant Scanned(id, old(used)) && Sifted(old(used), used, id) && Unrepeated(candidates)
        invariant forall d :: d in candidates <==> 0 <= d < id && old(used)[d] && IsCandidate(clauses[d], root, vals)
      {
        if used[id] {
          var candidate := ScanClause(id, old(used));
          if candidate {
            UnrepeatedSnoc(candidates, id);
            candidates := candidates + [id];
          }
        } else {
          ScanSkipped(Context(clauses, used, numVars, vals0, bits), occs, id);
          ScanMore(Context(clauses, used, numVars, vals0, bits), occs, id, conditional);
        }
      }
    }

    // condition_round: whatever is pushed, every model of the clauses left in
    // use that agrees with the root level unwinds to a model of all clauses
    // that were in use; the assignment and the marks are back where they were.
    // If the limit was not reached, exactly those of the candidates that have
    // been tried went out of use that some set of true literals blocks; and if
    // nobody asked for an end (`asked`, before each candidate) either, that
    // holds of all candidates that are no reasons.
    method ConditionRound(reason: seq<bool>, asked: seq<bool>) returns (blocked: nat, ghost pushed: seq<Entry>, ghost scanned: seq<bool>, ghost tried: seq<int>)
      requires Fresh() && ext.Valid() && |reason| == |clauses|
      modifies this`used, this`occs, this`vals, this`bits, this`conditional, this`unassigned, this`props, ext`extension, ext`entries
      ensures ext.Valid() && ext.entries == old(ext.entries) + pushed && blocked == |pushed|
      ensures |used| == |clauses| && Restores(clauses, old(used), used, root, pushed)
      ensures Sifted(old(used), scanned, |clauses|)
      ensures forall id :: id in tried ==>
        0 <= id < |clauses| && old(used)[id] && IsCandidate(clauses[id], root, old(vals)) && !reason[id]
      ensures props < limit ==> Decided(clauses, scanned, old(vals), used, tried)
      ensures props < limit && NoneAsked(asked) ==> DecidedAll(clauses, old(used), scanned, old(vals), root, reason, used)
      ensures Unrepeated(tried) && Spent(old(props), props, |tried|, numVars)
      ensures forall id :: 0 <= id < |clauses| && id !in tried ==> used[id] == scanned[id]
      ensures forall l :: Val(vals, l) == Val(old(vals), l)
      ensures bits == NoneDeleted(numVars + 1) && conditional == [] && unassigned == []
    {
      var candidates := ScanClauses();
      ghost var x := Context(clauses, used, numVars, vals0, bits);
      ghost var initial := conditional;
      scanned := used;
      ScanEnd(x, trail, occs);
      assert ext.entries + [] == ext.entries;
      blocked, pushed, tried := TryCandidates(candidates, reason, asked, x, initial, old(used));
      if props < limit && NoneAsked(asked) {
        ExhaustedAll(clauses, old(used), scanned, vals0, root, candidates, reason, used);
      }
      UnmarkAll(x);
    }

    // In the middle of the round.
    ghost predicate Round(x: Context, initial: seq<int>, used0: seq<bool>, entries0: seq<Entry>, pushed: seq<Entry>, tried: seq<int>)
      reads this, ext
    {
      true == (
        && Between(x, initial) && OccsIn(occs, x.used, |clauses|) && ext.Valid() && ext.entries == entries0 + pushed
        && |used| == |used0| == |x.used| == |clauses| && Restores(clauses, used0, used, root, pushed)
        && (props < limit ==> Decided(clauses, x.used, vals0, used, tried))
        && forall id :: 0 <= id < |clauses| && id !in tried ==> used[id] == x.used[id])
    }

    // The loop over the candidates.
    method TryCandidates(candidates: seq<int>, reason: seq<bool>, asked: seq<bool>, ghost x: Context, ghost initial: seq<int>, ghost used0: seq<bool>)
        returns (blocked: nat, ghost pushed: seq<Entry>, ghost tried: seq<int>)
      requires Round(x, initial, used0, ext.entries, [], []) && |reason| == |clauses| && Unrepeated(candidates)
      requires forall id :: id in candidates ==> 0 <= id < |clauses| == |x.used| && x.used[id]
      modifies this`used, this`occs, this`vals, this`bits, this`conditional, this`unassigned, this`props, ext`extension, ext`entries
      ensures Round(x, initial, used0, old(ext.entries), pushed, tried) && blocked == |pushed|
      ensures forall id :: id in tried ==> id in candidates && 0 <= id < |clauses| && !reason[id]
      ensures Unrepeated(tried) && Spent(old(props), props, |tried|, numVars)
      ensures props < limit && NoneAsked(asked) ==> Exhausted(clauses, x.used, vals0, used, candidates, reason)
    {
      blocked, pushed, tried := 0, [], [];
      var stop := false;
      var i := 0;
      while i < |candidates| && !stop
        invariant 0 <= i <= |candidates| && blocked == |pushed|
        invariant TriedUpTo(candidates, i, reason, tried, stop) && Spent(old(props), props, |tried|, numVars)
        invariant stop ==> |trail| <= |conditional| || !NoneAsked(asked) || props >= limit
        invariant Round(x, initial, used0, old(ext.entries), pushed, tried)
      {
        var id := candidates[i];
        TriedUpToMore(candidates, i, reason, tried);
        if |trail| <= |conditional| {
          stop := true;
        } else if !reason[id] && ((i < |asked| && asked[i]) || props >= limit) {
          stop := true;
        } else if !reason[id] {
          ghost var before := props;
          var success;
          success, pushed := TryNext(id, x, initial, used0, old(ext.entries), pushed, tried);
          SpentMore(old(props), before, props, |tried|, numVars);
          tried := tried + [id];
          if success {
            blocked := blocked + 1;
          }
        }
        i := i + 1;
      }
      TriedUpToEnd(candidates, i, reason, tried, stop);
      if props < limit && NoneAsked(asked) {
        RoundExhausted(x, initial, used0, old(ext.entries), pushed, tried, candidates, reason, stop);
      }
    }

    lemma RoundExhausted(x: Context, initial: seq<int>, used0: seq<bool>, entries0: seq<Entry>, pushed: seq<Entry>, tried: seq<int>,
                         candidates: seq<int>, reason: seq<bool>, stop: bool)
      requires Round(x, initial, used0, entries0, pushed, tried) && |reason| == |clauses| && props < limit
      requires forall id :: id in candidates ==> 0 <= id < |clauses| == |x.used| && x.used[id]
      requires if stop then |trail| <= |conditional| else forall id :: id in candidates ==> 0 <= id < |clauses| && (reason[id] || id in tried)
      ensures Exhausted(clauses, x.used, vals0, used, candidates, reason)
    {
      if stop {
        WorkStart(x, Now());
        WorkParted(x, Now(), 0, 0, []);
        NothingToBlock(x, Now(), trail, used, tried, candidates, reason);
      } else {
        AllDecided(x, used, tried, candidates, reason);
      }
    }

    method TryNext(id: nat, ghost x: Context, ghost initial: seq<int>, ghost used0: seq<bool>, ghost entries0: seq<Entry>,
                   ghost pushed: seq<Entry>, ghost tried: seq<int>) returns (success: bool, ghost pushed': seq<Entry>)
      requires Round(x, initial, used0, entries0, pushed, tried) && id < |clauses| == |x.used|
      requires id !in tried && x.used[id] && props < limit
      modifies this`used, this`occs, this`vals, this`bits, this`conditional, this`unassigned, this`props, ext`extension, ext`entries
      ensures Round(x, initial, used0, entries0, pushed', tried + [id])
      ensures old(props) <= props <= old(props) + numVars
      ensures |pushed'| == if success then |pushed| + 1 else |pushed|
    {
      ghost var left := used;
      success, pushed' := TryCandidate(id, x, initial, used0, pushed);
      assert entries0 + pushed' == entries0 + pushed + pushed'[|pushed|..];
      if props < limit {
        DecidedMore(clauses, x.used, vals0, left, used, tried, id, success);
      }
    }

    method UnmarkAll(ghost x: Context)
      requires ConditionalOk(x, conditional, bits)
      modifies this`bits, this`conditional
      ensures bits == NoneDeleted(x.numVars + 1) && conditional == []
    {
      Unmark(x, 0);
      NoBits(x, bits);
    }
  }

  // Of the tried clauses exactly those that are blocked have gone out of use.
  ghost predicate Decided(clauses: seq<seq<int>>, scanned: seq<bool>, vals: map<int, int>, used: seq<bool>, tried: seq<int>) {
    true == (
      && |scanned| == |used| == |clauses|
      && forall id :: id in tried ==> 0 <= id < |clauses| && (!used[id] <==> exists y :: BlockSet(clauses, scanned, vals, id, y)))
  }

  // Of the first n candidates those that are no reasons have been tried, or
  // the loop has stopped.
  ghost predicate TriedUpTo(candidates: seq<int>, n: int, reason: seq<bool>, tried: seq<int>, stop: bool) {
    true == (
      && 0 <= n <= |candidates| && Unrepeated(candidates) && Unrepeated(tried)
      && (forall id :: id in candidates ==> 0 <= id < |reason|)
      && (forall id :: id in tried ==> id in candidates[..n] && 0 <= id < |reason| && !reason[id])
      && (!stop ==> forall id :: id in candidates[..n] ==> 0 <= id < |reason| && (reason[id] || id in tried)))
  }

  lemma TriedUpToMore(candidates: seq<int>, i: nat, reason: seq<bool>, tried: seq<int>)
    requires TriedUpTo(candidates, i, reason, tried, false) && i < |candidates|
    ensures var id := candidates[i];
      && 0 <= id < |reason| && id in candidates && TriedUpTo(candidates, i + 1, reason, tried, true)
      && (reason[id] ==> TriedUpTo(candidates, i + 1, reason, tried, false))
      && (!reason[id] ==> id !in tried && TriedUpTo(candidates, i + 1, reason, tried + [id], false))
  {
    var id := candidates[i];
    assert id in candidates && candidates[..i + 1] == candidates[..i] + [id];
    UnrepeatedAt(candidates, i);
    if id !in tried {
      UnrepeatedSnoc(tried, id);
    }
  }

  lemma TriedUpToEnd(candidates: seq<int>, i: nat, reason: seq<bool>, tried: seq<int>, stop: bool)
    requires TriedUpTo(candidates, i, reason, tried, stop) && (i == |candidates| || stop)
    ensures Unrepeated(tried) && forall id :: id in tried ==> id in candidates && 0 <= id < |reason| && !reason[id]
    ensures !stop ==> forall id :: id in candidates ==> 0 <= id < |reason| && (reason[id] || id in tried)
  {
    assert candidates[..|candidates|] == candidates;
  }

  // Each candidate takes at most as many propagations as there are variables.
  ghost predicate Spent(start: int, props: int, tried: nat, numVars: nat) {
    true == (start <= props <= start + tried * numVars)
  }

  lemma SpentMore(start: int, props: int, props': int, tried: nat, numVars: nat)
    requires Spent(start, props, tried, numVars) && props <= props' <= props + numVars
    ensures Spent(start, props', tried + 1, numVars)
  {
    assert (tried + 1) * numVars == tried * numVars + numVars;
  }

  lemma ExhaustedAll(clauses: seq<seq<int>>, before: seq<bool>, scanned: seq<bool>, vals: map<int, int>, root: seq<int>,
                     candidates: seq<int>, reason: seq<bool>, used: seq<bool>)
    requires |before| == |clauses| && Exhausted(clauses, scanned, vals, used, candidates, reason)
    requires forall id :: id in candidates <==> 0 <= id < |clauses| && before[id] && IsCandidate(clauses[id], root, vals)
    ensures DecidedAll(clauses, before, scanned, vals, root, reason, used)
  {
  }

  ghost predicate NoneAsked(asked: seq<bool>) {
    forall i :: 0 <= i < |asked| ==> !asked[i]
  }

  // Of the listed clauses that are no reasons exactly those that are blocked
  // have gone out of use.
  ghost predicate Exhausted(clauses: seq<seq<int>>, scanned: seq<bool>, vals: map<int, int>, used: seq<bool>,
                            candidates: seq<int>, reason: seq<bool>) {
    true == (
      && |scanned| == |used| == |clauses| == |reason|
      && forall id :: id in candidates && 0 <= id < |clauses| && !reason[id] ==>
           (!used[id] <==> exists y :: BlockSet(clauses, scanned, vals, id, y)))
  }

  // The same for all candidates.
  ghost predicate DecidedAll(clauses: seq<seq<int>>, before: seq<bool>, scanned: seq<bool>, vals: map<int, int>, root: seq<int>,
                             reason: seq<bool>, used: seq<bool>) {
    true == (
      && |before| == |scanned| == |used| == |clauses| == |reason|
      && forall id :: 0 <= id < |clauses| && before[id] && IsCandidate(clauses[id], root, vals) && !reason[id] ==>
           (!used[id] <==> exists y :: BlockSet(clauses, scanned, vals, id, y)))
  }

  lemma DecidedMore(clauses: seq<seq<int>>, scanned: seq<bool>, vals: map<int, int>, used: seq<bool>, used': seq<bool>,
                    tried: seq<int>, id: nat, blocked: bool)
    requires Decided(clauses, scanned, vals, used, tried) && id < |clauses| && id !in tried && used[id]
    requires used' == if blocked then used[id := false] else used
    requires blocked <==> exists y :: BlockSet(clauses, scanned, vals, id, y)
    ensures Decided(clauses, scanned, vals, used', tried + [id])
  {
  }

  ghost predicate IsCandidate(d: seq<int>, root: seq<int>, vals: map<int, int>) {
    !RootSat(d, root) && SomeTrue(d, vals)
  }

  // None of the first i literals is a false autarky literal.
  ghost predicate NotTouched(d: seq<int>, i: int, vals: map<int, int>, bits: seq<bool>) {
    true == (0 <= i <= |d| && forall k :: 0 <= k < i ==> !IsAutarky(vals, bits, -d[k]))
  }

  lemma UntouchedStep(d: seq<int>, i: nat, vals: map<int, int>, bits: seq<bool>, bits': seq<bool>)
    requires NotTouched(d, i, vals, bits) && i < |d|
    requires if IsAutarky(vals, bits, -d[i]) then Abs(-d[i]) < |bits| && bits' == bits[Abs(-d[i]) := true] else bits' == bits
    ensures NotTouched(d, i + 1, vals, bits')
  {
  }

  lemma UntouchedEnd(d: seq<int>, i: nat, vals: map<int, int>, bits: seq<bool>)
    requires NotTouched(d, i, vals, bits)
    ensures i == |d| ==> !Touched(d, vals, bits)
  {
  }

  ghost predicate Prefix(before: seq<int>, after: seq<int>) {
    |before| <= |after| && after[..|before|] == before
  }

  lemma NothingUnassigned(x: Context, conditional: seq<int>, vals: map<int, int>)
    requires UnassignedOk(x, conditional, [], vals)
    ensures forall l :: Val(vals, l) == Val(x.vals, l)
  {
  }

  // All entries are numbers of clauses in use, below n.
  ghost predicate OccsIn(occs: map<int, seq<int>>, used: seq<bool>, n: int) {
    true == (0 <= n <= |used| && forall l, i :: 0 <= i < |Occs(occs, l)| ==> 0 <= Occs(occs, l)[i] < n && used[Occs(occs, l)[i]])
  }

  lemma EntryIn(occs: map<int, seq<int>>, used: seq<bool>, n: int, l: int, i: nat)
    requires OccsIn(occs, used, n) && i < |Occs(occs, l)|
    ensures 0 <= Occs(occs, l)[i] < n <= |used| && used[Occs(occs, l)[i]]
  {
  }

  // The visited clause has no true literal left: its false ones are doomed.
  lemma VisitDooms(x: Context, s: Work, u: int, j: int, pending: seq<int>, c: nat, id: nat, watched: int)
    requires Working(x, s, u, j, pending) && Spared(x, c, s.conditional, s.unassigned) && id < |x.clauses| && x.used[id]
    requires forall i :: 0 <= i < |x.clauses[id]| ==> Val(s.vals, x.clauses[id][i]) <= 0
    requires watched in x.clauses[c] && IsAutarky(s.vals, s.bits, watched)
    ensures Doomed(x, c, x.clauses[id])
  {
    WorkParted(x, s, u, j, pending);
    NothingSaves(x, s, c, id, watched);
  }

  lemma ProcessedOccs(s: Work, occs: map<int, seq<int>>, c: seq<int>, n: int)
    requires Processed(s, c, n)
    ensures Processed(s.(occs := occs), c, n)
  {
  }

  lemma MovedIn(occs: map<int, seq<int>>, u: int, j: nat, r: int, used: seq<bool>, n: int)
    requires OccsIn(occs, used, n) && j < |Occs(occs, u)| && r != u
    ensures OccsIn(Moved(occs, u, j, r), used, n)
    ensures |Occs(Moved(occs, u, j, r), u)| == |Occs(occs, u)| - 1
  {
    var list := Occs(occs, u);
    var occs' := Moved(occs, u, j, r);
    forall l, i | 0 <= i < |Occs(occs', l)|
      ensures 0 <= Occs(occs', l)[i] < n && used[Occs(occs', l)[i]]
    {
      if l == u {
        assert Occs(occs', u)[i] == list[if i < j then i else i + 1];
      } else if l == r && i < |Occs(occs, r)| {
        assert Occs(occs', r)[i] == Occs(occs, r)[i];
      } else if l == r {
        assert Occs(occs', r)[i] == list[j];
      } else {
        assert Occs(occs', l) == Occs(occs, l);
      }
    }
  }

  lemma OneMarked(vals: map<int, int>, bits: seq<bool>, l: int)
    requires Abs(l) < |bits|
    ensures forall m :: IsAutarky(vals, bits[Abs(l) := true], m) <==> IsAutarky(vals, bits, m) && Abs(m) != Abs(l)
  {
  }

  // A doomed literal becomes conditional, with all that is kept.
  lemma MarkGoes(x: Context, s: Work, u: int, j: int, pending: seq<int>, c: nat, n: nat, d: seq<int>, i: nat, watched: int)
    requires Working(x, s, u, j, pending) && c < |x.clauses| && Processed(s, x.clauses[c], n)
    requires Spared(x, c, s.conditional, s.unassigned) && Doomed(x, c, d)
    requires i < |d| && IsAutarky(s.vals, s.bits, -d[i]) && IsAutarky(s.vals, s.bits, watched)
    ensures Abs(-d[i]) < |s.bits|
    ensures var t := Marked(s, -d[i]);
      && Working(x, t, u, j, pending) && Processed(t, x.clauses[c], n) && Spared(x, c, t.conditional, t.unassigned)
      && (watched != -d[i] ==> IsAutarky(t.vals, t.bits, watched))
  {
    var l := -d[i];
    MarkKeeps(x, s, u, j, pending, l);
    ProcessedMark(s, x.clauses[c], n, l);
    SparedMark(x, c, s.conditional, s.unassigned, d, i);
    if l != watched {
      StillWatched(x, s, u, j, pending, l, watched);
    }
  }

  lemma StillWatched(x: Context, s: Work, u: int, j: int, pending: seq<int>, l: int, watched: int)
    requires Working(x, s, u, j, pending) && IsAutarky(s.vals, s.bits, l) && IsAutarky(s.vals, s.bits, watched) && l != watched
    requires Abs(l) < |s.bits|
    ensures IsAutarky(s.vals, s.bits[Abs(l) := true], watched)
  {
    OtherSign(x, s, u, j, pending, l, watched);
  }

  // The watched literal is another variable than one just marked.
  lemma OtherSign(x: Context, s: Work, u: int, j: int, pending: seq<int>, l: int, m: int)
    requires Working(x, s, u, j, pending) && Val(s.vals, l) > 0 && Val(s.vals, m) > 0 && l != m
    ensures Abs(l) != Abs(m)
  {
    assert Val(s.vals, l) == Val(x.vals, l) && Val(s.vals, m) == Val(x.vals, m);
    assert Val(x.vals, -l) == -Val(x.vals, l);
  }

  lemma WorkFacts(x: Context, s: Work, u: int, j: int, pending: seq<int>, id: int)
    requires Working(x, s, u, j, pending) && 0 <= id < |x.clauses|
    ensures NonZero(x.clauses[id]) && Symmetric(s.vals)
  {
    forall m
      ensures -1 <= Val(s.vals, m) <= 1 && Val(s.vals, -m) == -Val(s.vals, m)
    {
      assert Val(x.vals, -m) == -Val(x.vals, m) && -(-m) == m;
    }
  }

  // A watched autarky literal keeps its value when a conditional literal is
  // unassigned.
  lemma StillAutarky(x: Context, s: Work, k: int, l: int)
    requires Working(x, s, 0, 0, []) && k in s.conditional && k !in s.unassigned && IsConditional(s.vals, s.bits, k)
    requires l == 0 || IsAutarky(s.vals, s.bits, l)
    ensures l == 0 || IsAutarky(Unassign(s, k).vals, s.bits, l)
  {
    if l != 0 {
      WorkSymmetric(x, s);
      assert Abs(l) != Abs(k);
    }
  }

  lemma WorkSymmetric(x: Context, s: Work)
    requires Working(x, s, 0, 0, [])
    ensures Symmetric(s.vals)
  {
    forall m
      ensures -1 <= Val(s.vals, m) <= 1 && Val(s.vals, -m) == -Val(s.vals, m)
    {
      assert Val(x.vals, -m) == -Val(x.vals, m) && -(-m) == m;
    }
  }

  lemma TryingRestorable(x: Context, s: Work, u: int, j: int, pending: seq<int>)
    requires Working(x, s, u, j, pending)
    ensures ContextOk(x) && ConditionalOk(x, s.conditional, s.bits)
    ensures UnassignedOk(x, s.conditional, s.unassigned, s.vals) && Watched(x, s.occs)
  {
  }

  lemma StackLonger(s: Work, c: seq<int>, n: nat)
    requires Processed(s, c, n)
    ensures n <= |s.conditional|
  {
  }

  // The stack is bounded by the number of variables.
  lemma StackFits(x: Context, s: Work)
    requires Working(x, s, 0, 0, [])
    ensures |s.conditional| <= x.numVars
  {
    var more := s.conditional + [0];
    forall i, j | 0 <= i < j < |more|
      ensures Abs(more[i]) != Abs(more[j])
    {
    }
    Pigeons(more, x.numVars + 1);
  }

  // As many conditional literals as there are true ones: none is left.
  lemma AllConditional(x: Context, s: Work, trail: seq<int>)
    requires Parted(x, s) && s.unassigned == [] && TrailOk(x.vals, trail) && |trail| <= |s.conditional|
    ensures forall l :: !IsAutarky(s.vals, s.bits, l)
  {
    TrailDistinct(x.vals, trail);
    forall l | l in s.conditional
      ensures l in trail
    {
      var i :| 0 <= i < |s.conditional| && s.conditional[i] == l;
      assert Val(x.vals, l) > 0;
    }
    WithinSize(s.conditional, trail);
    forall l
      ensures !IsAutarky(s.vals, s.bits, l)
    {
      if Val(s.vals, l) > 0 {
        NowConditional(x, s, trail, l);
      }
    }
  }

  lemma NowConditional(x: Context, s: Work, trail: seq<int>, l: int)
    requires Parted(x, s) && s.unassigned == [] && TrailOk(x.vals, trail) && Within(trail, s.conditional)
    requires Val(s.vals, l) > 0
    ensures !IsAutarky(s.vals, s.bits, l)
  {
    assert Val(x.vals, l) > 0;
    assert l in trail;
    assert l in s.conditional;
    var i :| 0 <= i < |s.conditional| && s.conditional[i] == l;
    assert Mentions(s.conditional, Abs(l));
  }

  // With no autarky literal at all, nothing blocks any of the clauses.
  lemma NothingToBlock(x: Context, s: Work, trail: seq<int>, used: seq<bool>, tried: seq<int>, candidates: seq<int>, reason: seq<bool>)
    requires Parted(x, s) && s.unassigned == [] && TrailOk(x.vals, trail) && |trail| <= |s.conditional|
    requires Reasoned(x.clauses, x.used, x.vals, s.conditional, |x.clauses|) && |x.clauses| == |x.used| == |used| == |reason|
    requires forall id :: id in candidates ==> 0 <= id < |x.clauses| && x.used[id]
    requires Decided(x.clauses, x.used, x.vals, used, tried)
    requires forall id :: 0 <= id < |x.clauses| && id !in tried ==> used[id] == x.used[id]
    ensures Exhausted(x.clauses, x.used, x.vals, used, candidates, reason)
  {
    AllConditional(x, s, trail);
    forall id | id in candidates && id !in tried
      ensures used[id] && forall y :: !BlockSet(x.clauses, x.used, x.vals, id, y)
    {
      NoCandidate(x, s, id);
    }
  }

  // All have been tried.
  lemma AllDecided(x: Context, used: seq<bool>, tried: seq<int>, candidates: seq<int>, reason: seq<bool>)
    requires |x.clauses| == |x.used| == |used| == |reason| && Decided(x.clauses, x.used, x.vals, used, tried)
    requires forall id :: id in candidates ==> 0 <= id < |x.clauses| && (reason[id] || id in tried)
    ensures Exhausted(x.clauses, x.used, x.vals, used, candidates, reason)
  {
  }

  lemma AutarkyOnTrail(x: Context, s: Work, trail: seq<int>, autarky: seq<int>)
    requires Working(x, s, 0, 0, []) && TrailOk(x.vals, trail)
    requires forall l :: l in autarky <==> l in trail && IsAutarky(s.vals, s.bits, l)
    ensures AutarkyIs(s.vals, s.bits, autarky)
  {
    forall l | IsAutarky(s.vals, s.bits, l)
      ensures l in autarky
    {
      assert Val(s.vals, l) == Val(x.vals, l);
    }
    forall i | 0 <= i < |autarky|
      ensures autarky[i] != 0
    {
      var l := autarky[i];
      assert l in autarky;
    }
  }

  lemma ReassignVals(x: Context, conditional: seq<int>, bits: seq<bool>, unassigned: seq<int>, vals: map<int, int>)
    requires ContextOk(x) && ConditionalOk(x, conditional, bits) && UnassignedOk(x, conditional, unassigned, vals) && unassigned != []
    ensures var l := unassigned[|unassigned| - 1];
      UnassignedOk(x, conditional, unassigned[..|unassigned| - 1], vals[l := 1][-l := -1])
  {
    var n := |unassigned| - 1;
    var l, rest := unassigned[n], unassigned[..n];
    assert unassigned == rest + [l] && l in unassigned;
    NotBefore(unassigned, n);
    ConditionalMember(x, conditional, bits, l);
    ValuesBack(x, unassigned, vals, rest, l);
    forall m | m in rest
      ensures m in conditional
    {
      assert m in unassigned;
    }
  }

  lemma ValuesBack(x: Context, unassigned: seq<int>, vals: map<int, int>, rest: seq<int>, l: int)
    requires Symmetric(x.vals) && Val(x.vals, l) == 1 && l != 0 && unassigned == rest + [l] && l !in rest && -l !in rest
    requires forall m {:trigger Val(vals, m)} :: Val(vals, m) == if m in unassigned || -m in unassigned then 0 else Val(x.vals, m)
    ensures forall m {:trigger Val(vals[l := 1][-l := -1], m)} ::
      Val(vals[l := 1][-l := -1], m) == if m in rest || -m in rest then 0 else Val(x.vals, m)
  {
    var vals' := vals[l := 1][-l := -1];
    assert Val(x.vals, -l) == -Val(x.vals, l);
    forall m
      ensures Val(vals', m) == if m in rest || -m in rest then 0 else Val(x.vals, m)
    {
      assert m in unassigned <==> m in rest || m == l;
      assert -m in unassigned <==> -m in rest || -m == l;
      assert Val(vals', m) == if m == -l then -1 else if m == l then 1 else Val(vals, m);
    }
  }

  lemma UnmarkConditional(x: Context, conditional: seq<int>, bits: seq<bool>)
    requires ConditionalOk(x, conditional, bits) && conditional != []
    ensures var l := conditional[|conditional| - 1];
      Abs(l) < |bits| && ConditionalOk(x, conditional[..|conditional| - 1], bits[Abs(l) := false])
  {
    var n := |conditional| - 1;
    var l, rest := conditional[n], conditional[..n];
    var v: int := Abs(l);
    forall u | 0 <= u <= x.numVars
      ensures Mentions(rest, u) <==> Mentions(conditional, u) && u != v
    {
      if Mentions(conditional, u) && u != v {
        var i :| 0 <= i < |conditional| && Abs(conditional[i]) == u;
        assert rest[i] == conditional[i];
      }
      if Mentions(rest, u) {
        var i :| 0 <= i < |rest| && Abs(rest[i]) == u;
        assert conditional[i] == rest[i] && Abs(conditional[i]) != Abs(conditional[n]);
      }
    }
  }

  lemma SameBits(x: Context, conditional: seq<int>, bits: seq<bool>, bits': seq<bool>)
    requires ConditionalOk(x, conditional, bits) && ConditionalOk(x, conditional, bits')
    ensures bits == bits'
  {
    forall v | 0 <= v <= x.numVars
      ensures bits[v] == bits'[v]
    {
    }
  }

  lemma RootUnassigned(vals: map<int, int>, trail: seq<int>, root: seq<int>)
    requires TrailOk(vals, trail) && forall r :: r in root ==> r != 0 && r !in trail && -r !in trail
    ensures forall r :: r in root ==> r != 0 && Val(vals, r) == 0
  {
  }

  // What blocking gives: a set that blocks, and models that unwind.
  lemma BlockedRestores(x: Context, s: Work, root: seq<int>, used0: seq<bool>, used: seq<bool>, id: nat, watched: int,
                        pushed: seq<Entry>, autarky: seq<int>)
    requires Working(x, s, 0, 0, []) && id < |x.clauses| == |used| == |used0| == |x.used|
    requires Processed(s, x.clauses[id], |s.conditional|) && watched in x.clauses[id] && IsAutarky(s.vals, s.bits, watched)
    requires forall r :: r in root ==> r != 0 && Val(x.vals, r) == 0
    requires forall d :: 0 <= d < |used| && used[d] ==> x.used[d]
    requires AutarkyIs(s.vals, s.bits, autarky) && Restores(x.clauses, used0, used, root, pushed)
    ensures Restores(x.clauses, used0, used[id := false], root, pushed + [Entry(autarky, x.clauses[id])])
    ensures exists y :: BlockSet(x.clauses, x.used, x.vals, id, y)
  {
    FixpointBlocks(x, s, root, id, watched);
    BlocksLess(x.clauses, x.used, used, root, id, watched, s.vals, s.bits);
    AutarkyBlocks(x, s, id, watched, set l | l in autarky);
    AllProper(x);
    RestoresMore(x.clauses, used0, used, root, pushed, id, watched, s.vals, s.bits, autarky);
  }

  lemma AllProper(x: Context)
    requires ContextOk(x)
    ensures forall id :: 0 <= id < |x.clauses| ==> NonZero(x.clauses[id])
  {
  }

  lemma ClauseProper(x: Context, id: nat)
    requires ContextOk(x) && id < |x.clauses|
    ensures NonZero(x.clauses[id])
  {
  }

  // Clauses before i that are in use: untouched, or watched.
  ghost predicate ScannedUpTo(x: Context, occs: map<int, seq<int>>, i: int) {
    true == (
      && |x.clauses| == |x.used| && 0 <= i <= |x.clauses|
      && forall id :: 0 <= id < i && x.used[id] ==> !Touched(x.clauses[id], x.vals, x.bits) || HasWatch(x, occs, id))
  }

  lemma ScanStart(x: Context, root: seq<int>)
    requires |x.clauses| == |x.used| && x.bits == NoneDeleted(x.numVars + 1)
    ensures ScannedUpTo(x, map[], 0) && ConditionalOk(x, [], x.bits) && OccsIn(map[], x.used, 0)
    ensures Reasoned(x.clauses, x.used, x.vals, [], 0)
    ensures Restores(x.clauses, x.used, x.used, root, [])
  {
  }

  lemma ScanFacts(x: Context, trail: seq<int>, occs: map<int, seq<int>>, id: nat)
    requires TrailOk(x.vals, trail) && forall l :: l in trail ==> 1 <= Abs(l) <= x.numVars
    requires |x.clauses| == |x.used| && |x.bits| == x.numVars + 1
    requires forall d :: 0 <= d < |x.clauses| ==> NonZero(x.clauses[d]) && VarsIn(x.clauses[d], x.numVars)
    ensures ContextOk(x)
  {
    forall l
      ensures -1 <= Val(x.vals, l) <= 1 && Val(x.vals, -l) == -Val(x.vals, l)
      ensures Val(x.vals, l) != 0 ==> 1 <= Abs(l) <= x.numVars
    {
      assert -(-l) == l;
      assert l in trail ==> -l !in trail;
    }
  }

  lemma ValueInRange(x: Context, l: int)
    requires ContextOk(x) && Val(x.vals, l) != 0
    ensures 1 <= Abs(l) <= x.numVars
  {
  }

  lemma ScanSkipped(x: Context, occs: map<int, seq<int>>, id: nat)
    requires ScannedUpTo(x, occs, id) && id < |x.clauses| && !x.used[id]
    ensures ScannedUpTo(x, occs, id + 1)
  {
  }

  // Dropping a clause satisfied at the root loses nothing.
  lemma ScanSatisfied(x: Context, occs: map<int, seq<int>>, id: nat, used0: seq<bool>, root: seq<int>)
    requires ScannedUpTo(x, occs, id) && id < |x.clauses| && RootSat(x.clauses[id], root) && |used0| == |x.used|
    requires Restores(x.clauses, used0, x.used, root, [])
    ensures ScannedUpTo(x.(used := x.used[id := false]), occs, id + 1)
    ensures Restores(x.clauses, used0, x.used[id := false], root, [])
  {
    var x' := x.(used := x.used[id := false]);
    forall d | 0 <= d < id + 1 && x'.used[d]
      ensures !Touched(x'.clauses[d], x'.vals, x'.bits) || HasWatch(x', occs, d)
    {
      if HasWatch(x, occs, d) {
        var w :| w in x.clauses[d] && d in Occs(occs, w) && Val(x.vals, w) > 0;
      }
    }
    forall a | AllHold(root, a) && UsedSat(x.clauses, x'.used, a)
      ensures UsedSat(x.clauses, x.used, a)
    {
      var r :| r in x.clauses[id] && r in root;
      var i :| 0 <= i < |x.clauses[id]| && x.clauses[id][i] == r;
      assert Holds(x.clauses[id][i], a);
    }
  }

  lemma ScanWatched(x: Context, occs: map<int, seq<int>>, id: nat, watch: int)
    requires ScannedUpTo(x, occs, id) && id < |x.clauses| && x.used[id] && OccsIn(occs, x.used, id + 1)
    requires watch in x.clauses[id] && Val(x.vals, watch) > 0
    ensures var occs' := occs[watch := Occs(occs, watch) + [id]];
      ScannedUpTo(x, occs', id + 1) && OccsIn(occs', x.used, id + 1)
  {
    var occs' := occs[watch := Occs(occs, watch) + [id]];
    forall w, d | d in Occs(occs, w)
      ensures d in Occs(occs', w)
    {
    }
    forall d | 0 <= d < id + 1 && x.used[d]
      ensures !Touched(x.clauses[d], x.vals, x.bits) || HasWatch(x, occs', d)
    {
      if d == id {
        assert id in Occs(occs', watch);
      } else if HasWatch(x, occs, d) {
        var w :| w in x.clauses[d] && d in Occs(occs, w) && Val(x.vals, w) > 0;
        assert d in Occs(occs', w);
      }
    }
    forall l, i | 0 <= i < |Occs(occs', l)|
      ensures 0 <= Occs(occs', l)[i] < id + 1 && x.used[Occs(occs', l)[i]]
    {
      if l == watch && i == |Occs(occs, watch)| {
        assert Occs(occs', l)[i] == id;
      } else {
        assert Occs(occs', l)[i] == Occs(occs, l)[i];
      }
    }
  }

  // What the scan knows stays true when it goes on, and when the current
  // clause goes out of use.
  lemma ScanMore(x: Context, occs: map<int, seq<int>>, id: nat, conditional: seq<int>)
    requires OccsIn(occs, x.used, id) && Reasoned(x.clauses, x.used, x.vals, conditional, id) && id < |x.clauses|
    ensures OccsIn(occs, x.used, id + 1) && Reasoned(x.clauses, x.used, x.vals, conditional, id + 1)
  {
  }

  lemma ScanDropped(x: Context, occs: map<int, seq<int>>, id: nat, conditional: seq<int>)
    requires OccsIn(occs, x.used, id) && Reasoned(x.clauses, x.used, x.vals, conditional, id) && id < |x.clauses|
    ensures OccsIn(occs, x.used[id := false], id + 1) && Reasoned(x.clauses, x.used[id := false], x.vals, conditional, id + 1)
  {
    var used := x.used[id := false];
    forall k | k in conditional
      ensures exists d :: 0 <= d < id + 1 && used[d] && Rejects(x.clauses[d], x.vals, k)
    {
      var d :| 0 <= d < id && x.used[d] && Rejects(x.clauses[d], x.vals, k);
      assert used[d];
    }
  }

  lemma ReasonedMore(clauses: seq<seq<int>>, used: seq<bool>, vals: map<int, int>, conditional: seq<int>, id: nat, i: nat)
    requires Reasoned(clauses, used, vals, conditional, id + 1) && id < |clauses| && used[id] && i < |clauses[id]|
    requires forall j :: 0 <= j < |clauses[id]| ==> Val(vals, clauses[id][j]) <= 0
    ensures Reasoned(clauses, used, vals, conditional + [-clauses[id][i]], id + 1)
  {
    assert Rejects(clauses[id], vals, -clauses[id][i]);
  }

  lemma ScanMarked(x: Context, occs: map<int, seq<int>>, id: nat, bits: seq<bool>)
    requires ScannedUpTo(x, occs, id) && id < |x.clauses| && !Touched(x.clauses[id], x.vals, bits)
    requires forall l :: IsAutarky(x.vals, bits, l) ==> IsAutarky(x.vals, x.bits, l)
    ensures ScannedUpTo(x.(bits := bits), occs, id + 1)
  {
    var x' := x.(bits := bits);
    forall d | 0 <= d < id + 1 && x.used[d]
      ensures !Touched(x'.clauses[d], x'.vals, x'.bits) || HasWatch(x', occs, d)
    {
      if d < id && Touched(x.clauses[d], x.vals, bits) {
        TouchedLess(x.clauses[d], x.vals, x.bits, x.vals, bits);
        assert HasWatch(x, occs, d);
        var w :| w in x.clauses[d] && d in Occs(occs, w) && Val(x.vals, w) > 0;
      }
    }
  }

  lemma ScanEnd(x: Context, trail: seq<int>, occs: map<int, seq<int>>)
    requires ScannedUpTo(x, occs, |x.clauses|)
    requires TrailOk(x.vals, trail) && forall l :: l in trail ==> 1 <= Abs(l) <= x.numVars
    requires |x.bits| == x.numVars + 1
    requires forall d :: 0 <= d < |x.clauses| ==> NonZero(x.clauses[d]) && VarsIn(x.clauses[d], x.numVars)
    ensures ContextOk(x) && Watched(x, occs)
  {
    ScanFacts(x, trail, occs, 0);
  }

  lemma NoBits(x: Context, bits: seq<bool>)
    requires ConditionalOk(x, [], bits)
    ensures bits == NoneDeleted(x.numVars + 1)
  {
  }
}
