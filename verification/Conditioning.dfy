/** The refinement of one assignment into a conditional and an autarky part:
    its state, and what every step of it keeps. */
module Conditioning {
  import opened Knf
  import opened Clauses
  import opened Extension
  import opened Watches
  import opened GlobalBlocking

  // What stays fixed while a candidate is tried: the clauses, which of them
  // are in use, and the initial assignment and conditional part.
  datatype Context = Context(clauses: seq<seq<int>>, used: seq<bool>, numVars: nat, vals: map<int, int>, bits: seq<bool>)

  datatype Work = Work(occs: map<int, seq<int>>, vals: map<int, int>, bits: seq<bool>, conditional: seq<int>, unassigned: seq<int>)

  function Occs(occs: map<int, seq<int>>, l: int): seq<int> {
    if l in occs then occs[l] else []
  }

  ghost predicate ContextOk(x: Context) {
    true == (
      && |x.clauses| == |x.used| && |x.bits| == x.numVars + 1 && Symmetric(x.vals)
      && (forall id :: 0 <= id < |x.clauses| ==> NonZero(x.clauses[id]) && VarsIn(x.clauses[id], x.numVars))
      && forall l {:trigger Val(x.vals, l)} :: Val(x.vals, l) != 0 ==> 1 <= Abs(l) <= x.numVars)
  }

  // The conditional stack holds true literals, each once, and the bits say
  // which.
  ghost predicate ConditionalOk(x: Context, conditional: seq<int>, bits: seq<bool>) {
    true == (
      && DistinctVars(conditional) && |bits| == x.numVars + 1
      && (forall i :: 0 <= i < |conditional| ==> Val(x.vals, conditional[i]) > 0 && 1 <= Abs(conditional[i]) <= x.numVars)
      && forall v :: 0 <= v <= x.numVars ==> (bits[v] <==> Mentions(conditional, v)))
  }

  // Only unassigned literals have lost their value.
  ghost predicate UnassignedOk(x: Context, conditional: seq<int>, unassigned: seq<int>, vals: map<int, int>) {
    true == (
      && DistinctVars(unassigned) && (forall l :: l in unassigned ==> l in conditional)
      && forall l {:trigger Val(vals, l)} ::
           Val(vals, l) == if l in unassigned || -l in unassigned then 0 else Val(x.vals, l))
  }

  // Some initially true literal of the clause has it in its list.
  ghost predicate HasWatch(x: Context, occs: map<int, seq<int>>, id: int)
    requires 0 <= id < |x.clauses|
  {
    exists w :: w in x.clauses[id] && id in Occs(occs, w) && Val(x.vals, w) > 0
  }

  ghost predicate Watched(x: Context, occs: map<int, seq<int>>)
    requires |x.clauses| == |x.used|
  {
    true == (forall id :: 0 <= id < |x.clauses| && x.used[id] ==> !Touched(x.clauses[id], x.vals, x.bits) || HasWatch(x, occs, id))
  }

  // A clause with a false autarky literal is in the list of a literal that is
  // true or still to be processed; the list of u is done up to place j.
  ghost predicate WatchGuard(x: Context, s: Work, id: int, u: int, j: int, pending: seq<int>, w: int)
    requires 0 <= id < |x.clauses|
  {
    && w in x.clauses[id]
    && if w == u then 0 <= j <= |Occs(s.occs, u)| && id in Occs(s.occs, u)[j..]
       else id in Occs(s.occs, w) && (Val(s.vals, w) > 0 || w in pending)
  }

  ghost predicate Guarded(x: Context, s: Work, id: int, u: int, j: int, pending: seq<int>)
    requires 0 <= id < |x.clauses|
  {
    !Touched(x.clauses[id], s.vals, s.bits) || exists w :: WatchGuard(x, s, id, u, j, pending, w)
  }

  ghost predicate Working(x: Context, s: Work, u: int, j: int, pending: seq<int>) {
    true == (
      && ContextOk(x) && ConditionalOk(x, s.conditional, s.bits) && UnassignedOk(x, s.conditional, s.unassigned, s.vals)
      && Watched(x, s.occs)
      && forall id :: 0 <= id < |x.clauses| && x.used[id] ==> Guarded(x, s, id, u, j, pending))
  }

  // Fewer true literals and more conditional ones touch fewer clauses.
  lemma TouchedLess(lits: seq<int>, vals: map<int, int>, bits: seq<bool>, vals': map<int, int>, bits': seq<bool>)
    requires Touched(lits, vals', bits')
    requires forall l :: IsAutarky(vals', bits', l) ==> IsAutarky(vals, bits, l)
    ensures Touched(lits, vals, bits)
  {
    var i :| 0 <= i < |lits| && IsAutarky(vals', bits', -lits[i]);
    assert IsAutarky(vals, bits, -lits[i]);
  }

  // At the start of a candidate nothing is unassigned.
  lemma WorkStart(x: Context, s: Work)
    requires ContextOk(x) && ConditionalOk(x, s.conditional, s.bits) && s.bits == x.bits
    requires s.unassigned == [] && (forall l :: Val(s.vals, l) == Val(x.vals, l)) && Watched(x, s.occs)
    ensures Working(x, s, 0, 0, [])
  {
    forall id | 0 <= id < |x.clauses| && x.used[id]
      ensures Guarded(x, s, id, 0, 0, [])
    {
      if Touched(x.clauses[id], s.vals, s.bits) {
        TouchedLess(x.clauses[id], x.vals, x.bits, s.vals, s.bits);
        assert HasWatch(x, s.occs, id);
        var w :| w in x.clauses[id] && id in Occs(s.occs, w) && Val(x.vals, w) > 0;
        WatchNonZero(x, id, w);
        assert WatchGuard(x, s, id, 0, 0, [], w);
      }
    }
  }

  lemma WatchNonZero(x: Context, id: int, w: int)
    requires ContextOk(x) && 0 <= id < |x.clauses| && w in x.clauses[id]
    ensures w != 0
  {
    assert NonZero(x.clauses[id]);
    var i :| 0 <= i < |x.clauses[id]| && x.clauses[id][i] == w;
  }

  // An autarky literal becomes conditional.
  function Marked(s: Work, l: int): Work
    requires Abs(l) < |s.bits|
  {
    s.(bits := s.bits[Abs(l) := true], conditional := s.conditional + [l])
  }

  lemma MarkKeeps(x: Context, s: Work, u: int, j: int, pending: seq<int>, l: int)
    requires Working(x, s, u, j, pending) && IsAutarky(s.vals, s.bits, l)
    ensures 1 <= Abs(l) < |s.bits| && Working(x, Marked(s, l), u, j, pending) && l !in s.unassigned && l !in s.conditional
  {
    assert Val(s.vals, l) == Val(x.vals, l);
    var s' := Marked(s, l);
    MarkConditional(x, s.conditional, s.bits, l);
    forall m | m in s.unassigned
      ensures m in s'.conditional
    {
      assert m in s.conditional;
    }
    forall id | 0 <= id < |x.clauses| && x.used[id]
      ensures Guarded(x, s', id, u, j, pending)
    {
      assert Guarded(x, s, id, u, j, pending);
      if Touched(x.clauses[id], s'.vals, s'.bits) {
        TouchedLess(x.clauses[id], s.vals, s.bits, s'.vals, s'.bits);
        var w :| WatchGuard(x, s, id, u, j, pending, w);
        assert WatchGuard(x, s', id, u, j, pending, w);
      }
    }
  }

  lemma MarkConditional(x: Context, conditional: seq<int>, bits: seq<bool>, l: int)
    requires ConditionalOk(x, conditional, bits) && Val(x.vals, l) > 0 && !Bit(bits, l) && 1 <= Abs(l) <= x.numVars
    ensures ConditionalOk(x, conditional + [l], bits[Abs(l) := true]) && l !in conditional
  {
    var v: int := Abs(l);
    assert !Mentions(conditional, v);
    var conditional' := conditional + [l];
    forall u | 0 <= u <= x.numVars
      ensures Mentions(conditional', u) <==> Mentions(conditional, u) || u == v
    {
      assert conditional'[|conditional|] == l;
      assert forall i :: 0 <= i < |conditional| ==> conditional'[i] == conditional[i];
    }
  }

  // A conditional literal is unassigned and waits to be processed.
  function Unassign(s: Work, k: int): Work {
    s.(vals := s.vals[k := 0][-k := 0], unassigned := s.unassigned + [k])
  }

  lemma UnassignKeeps(x: Context, s: Work, pending: seq<int>, k: int)
    requires Working(x, s, 0, 0, pending) && k in s.conditional && k !in s.unassigned
    ensures Working(x, Unassign(s, k), 0, 0, pending + [k]) && IsConditional(s.vals, s.bits, k)
  {
    var s' := Unassign(s, k);
    ConditionalMember(x, s.conditional, s.bits, k);
    UnassignVals(x, s.conditional, s.bits, s.unassigned, s.vals, k);
    forall id | 0 <= id < |x.clauses| && x.used[id]
      ensures Guarded(x, s', id, 0, 0, pending + [k])
    {
      assert Guarded(x, s, id, 0, 0, pending);
      if Touched(x.clauses[id], s'.vals, s'.bits) {
        forall l | IsAutarky(s'.vals, s'.bits, l)
          ensures IsAutarky(s.vals, s.bits, l)
        {
          assert Val(s'.vals, l) == if l == k || l == -k then 0 else Val(s.vals, l);
        }
        TouchedLess(x.clauses[id], s.vals, s.bits, s'.vals, s'.bits);
        var w :| WatchGuard(x, s, id, 0, 0, pending, w);
        WatchNonZero(x, id, w);
        assert Val(s'.vals, w) == if w == k || w == -k then 0 else Val(s.vals, w);
        assert Val(s.vals, -k) <= 0;
        assert WatchGuard(x, s', id, 0, 0, pending + [k], w);
      }
    }
  }

  lemma ConditionalMember(x: Context, conditional: seq<int>, bits: seq<bool>, k: int)
    requires ConditionalOk(x, conditional, bits) && k in conditional
    ensures 1 <= Abs(k) <= x.numVars && Val(x.vals, k) > 0 && Bit(bits, k)
  {
    var i :| 0 <= i < |conditional| && conditional[i] == k;
    assert Mentions(conditional, Abs(k));
  }

  lemma UnassignVals(x: Context, conditional: seq<int>, bits: seq<bool>, unassigned: seq<int>, vals: map<int, int>, k: int)
    requires ContextOk(x) && ConditionalOk(x, conditional, bits) && UnassignedOk(x, conditional, unassigned, vals)
    requires k in conditional && k !in unassigned
    ensures UnassignedOk(x, conditional, unassigned + [k], vals[k := 0][-k := 0])
    ensures Val(vals, k) == Val(x.vals, k) > 0 && Val(vals, -k) < 0
  {
    ConditionalMember(x, conditional, bits, k);
    var vals' := vals[k := 0][-k := 0];
    assert Val(x.vals, -k) == -Val(x.vals, k);
    if -k in unassigned {
      ConditionalMember(x, conditional, bits, -k);
    }
    assert -(-k) == k;
    forall l
      ensures Val(vals', l) == if l in unassigned + [k] || -l in unassigned + [k] then 0 else Val(x.vals, l)
    {
      assert Val(vals', l) == if l == k || l == -k then 0 else Val(vals, l);
    }
    forall i | 0 <= i < |unassigned|
      ensures Abs(unassigned[i]) != Abs(k)
    {
      var m := unassigned[i];
      assert m in unassigned;
    }
    forall l | l in unassigned + [k]
      ensures l in conditional
    {
      assert l in unassigned || l == k;
    }
    assert DistinctVars(unassigned + [k]);
    assert Val(x.vals, -k) == -Val(x.vals, k);
  }

  // The list of the next unassigned literal is opened.
  lemma ListStart(x: Context, s: Work, pending: seq<int>)
    requires Working(x, s, 0, 0, pending) && |pending| >= 1 && Val(s.vals, pending[0]) == 0 && pending[0] != 0
    ensures Working(x, s, pending[0], 0, pending[1..])
  {
    var u := pending[0];
    assert pending == [u] + pending[1..];
    assert Occs(s.occs, u)[0..] == Occs(s.occs, u);
    forall id | 0 <= id < |x.clauses| && x.used[id]
      ensures Guarded(x, s, id, u, 0, pending[1..])
    {
      assert Guarded(x, s, id, 0, 0, pending);
      if Touched(x.clauses[id], s.vals, s.bits) {
        var w :| WatchGuard(x, s, id, 0, 0, pending, w);
        WatchNonZero(x, id, w);
        assert WatchGuard(x, s, id, u, 0, pending[1..], w);
      }
    }
  }

  // It is done.
  lemma ListEnd(x: Context, s: Work, u: int, pending: seq<int>)
    requires Working(x, s, u, |Occs(s.occs, u)|, pending) && u != 0
    ensures Working(x, s, 0, 0, pending)
  {
    forall id | 0 <= id < |x.clauses| && x.used[id]
      ensures Guarded(x, s, id, 0, 0, pending)
    {
      assert Guarded(x, s, id, u, |Occs(s.occs, u)|, pending);
      if Touched(x.clauses[id], s.vals, s.bits) {
        var w :| WatchGuard(x, s, id, u, |Occs(s.occs, u)|, pending, w);
        WatchNonZero(x, id, w);
        assert WatchGuard(x, s, id, 0, 0, pending, w);
      }
    }
  }

  // A clause that is no longer touched stays where it is.
  lemma EntryDone(x: Context, s: Work, u: int, j: nat, pending: seq<int>)
    requires Working(x, s, u, j, pending) && j < |Occs(s.occs, u)|
    requires var d := Occs(s.occs, u)[j];
      0 <= d < |x.clauses| && !Touched(x.clauses[d], s.vals, s.bits)
    ensures Working(x, s, u, j + 1, pending)
  {
    var list := Occs(s.occs, u);
    assert list[j..] == [list[j]] + list[j + 1..];
    forall id | 0 <= id < |x.clauses| && x.used[id]
      ensures Guarded(x, s, id, u, j + 1, pending)
    {
      assert Guarded(x, s, id, u, j, pending);
      if Touched(x.clauses[id], s.vals, s.bits) {
        var w :| WatchGuard(x, s, id, u, j, pending, w);
        assert WatchGuard(x, s, id, u, j + 1, pending, w);
      }
    }
  }

  // A clause moves to the list of another true literal r.
  function Moved(occs: map<int, seq<int>>, u: int, j: nat, r: int): map<int, seq<int>>
    requires j < |Occs(occs, u)|
  {
    var list := Occs(occs, u);
    var dropped := occs[u := list[..j] + list[j + 1..]];
    dropped[r := Occs(dropped, r) + [list[j]]]
  }

  lemma MovedMember(occs: map<int, seq<int>>, u: int, j: nat, r: int, id: int, w: int)
    requires j < |Occs(occs, u)| && r != u
    requires id in Occs(occs, w) && (w != u || id != Occs(occs, u)[j])
    ensures id in Occs(Moved(occs, u, j, r), w)
  {
    var list := Occs(occs, u);
    if w == u {
      assert list == list[..j] + [list[j]] + list[j + 1..];
    }
  }

  lemma MoveKeeps(x: Context, s: Work, u: int, j: nat, pending: seq<int>, r: int)
    requires Working(x, s, u, j, pending) && j < |Occs(s.occs, u)|
    requires var d := Occs(s.occs, u)[j];
      0 <= d < |x.clauses| && r in x.clauses[d] && r != u && Val(s.vals, r) > 0
    ensures Working(x, s.(occs := Moved(s.occs, u, j, r)), u, j, pending)
  {
    var list := Occs(s.occs, u);
    var d := list[j];
    var s' := s.(occs := Moved(s.occs, u, j, r));
    assert Occs(s'.occs, u) == list[..j] + list[j + 1..];
    assert list[j..] == [d] + list[j + 1..] && Occs(s'.occs, u)[j..] == list[j + 1..];
    assert d in Occs(s'.occs, r) && Val(x.vals, r) > 0;
    forall id | 0 <= id < |x.clauses| && x.used[id]
      ensures !Touched(x.clauses[id], x.vals, x.bits) || HasWatch(x, s'.occs, id)
      ensures Guarded(x, s', id, u, j, pending)
    {
      if id != d {
        MoveOther(x, s, u, j, pending, r, id);
      } else {
        assert WatchGuard(x, s', id, u, j, pending, r);
      }
    }
  }

  lemma MoveOther(x: Context, s: Work, u: int, j: nat, pending: seq<int>, r: int, id: int)
    requires Working(x, s, u, j, pending) && j < |Occs(s.occs, u)| && r != u
    requires 0 <= id < |x.clauses| && x.used[id] && id != Occs(s.occs, u)[j]
    ensures var occs' := Moved(s.occs, u, j, r);
      && (!Touched(x.clauses[id], x.vals, x.bits) || HasWatch(x, occs', id))
      && Guarded(x, s.(occs := occs'), id, u, j, pending)
  {
    var list := Occs(s.occs, u);
    var s' := s.(occs := Moved(s.occs, u, j, r));
    assert Occs(s'.occs, u) == list[..j] + list[j + 1..];
    assert list[j..] == [list[j]] + list[j + 1..] && Occs(s'.occs, u)[j..] == list[j + 1..];
    assert !Touched(x.clauses[id], x.vals, x.bits) || HasWatch(x, s.occs, id);
    if HasWatch(x, s.occs, id) {
      var w :| w in x.clauses[id] && id in Occs(s.occs, w) && Val(x.vals, w) > 0;
      MovedMember(s.occs, u, j, r, id, w);
    }
    assert Guarded(x, s, id, u, j, pending);
    if Touched(x.clauses[id], s.vals, s.bits) {
      var w :| WatchGuard(x, s, id, u, j, pending, w);
      if w != u {
        MovedMember(s.occs, u, j, r, id, w);
      }
      assert WatchGuard(x, s', id, u, j, pending, w);
    }
  }

  // The first n conditional literals have been processed for candidate c:
  // they occur negated in it or are unassigned; the others are assigned.
  ghost predicate Processed(s: Work, c: seq<int>, n: int) {
    true == (
      && 0 <= n <= |s.conditional|
      && (forall i :: 0 <= i < n ==> -s.conditional[i] in c || s.conditional[i] in s.unassigned)
      && forall i :: n <= i < |s.conditional| ==> s.conditional[i] !in s.unassigned)
  }

  lemma ProcessedMark(s: Work, c: seq<int>, n: int, l: int)
    requires Processed(s, c, n) && Abs(l) < |s.bits| && l !in s.unassigned
    ensures Processed(Marked(s, l), c, n)
  {
  }

  lemma ProcessedUnassign(x: Context, s: Work, c: seq<int>, n: nat)
    requires Processed(s, c, n) && n < |s.conditional| && ConditionalOk(x, s.conditional, s.bits)
    ensures Processed(Unassign(s, s.conditional[n]), c, n + 1)
    ensures -s.conditional[n] in c ==> Processed(s, c, n + 1)
    ensures s.conditional[n] in s.conditional && s.conditional[n] !in s.unassigned && s.conditional[n] != 0
  {
    forall i | n < i < |s.conditional|
      ensures s.conditional[i] != s.conditional[n]
    {
      assert Abs(s.conditional[n]) != Abs(s.conditional[i]);
    }
  }

  // With everything processed and an autarky literal l of the candidate left,
  // the candidate is globally blocked.
  lemma FixpointBlocks(x: Context, s: Work, root: seq<int>, c: nat, l: int)
    requires Working(x, s, 0, 0, []) && c < |x.clauses| && Processed(s, x.clauses[c], |s.conditional|)
    requires l in x.clauses[c] && IsAutarky(s.vals, s.bits, l)
    requires forall r :: r in root ==> r != 0 && Val(x.vals, r) == 0
    ensures Blocks(x.clauses, x.used, root, c, l, s.vals, s.bits)
  {
    forall m
      ensures -1 <= Val(s.vals, m) <= 1 && Val(s.vals, -m) == -Val(s.vals, m)
    {
      assert Val(x.vals, -m) == -Val(x.vals, m) && -(-m) == m;
    }
    forall k | IsConditional(s.vals, s.bits, k)
      ensures -k in x.clauses[c]
    {
      assert Val(s.vals, k) == Val(x.vals, k) && k !in s.unassigned;
      assert Mentions(s.conditional, Abs(k));
      var i :| 0 <= i < |s.conditional| && Abs(s.conditional[i]) == Abs(k);
      assert Val(x.vals, s.conditional[i]) > 0;
      assert s.conditional[i] == k by {
        assert Val(x.vals, -k) == -Val(x.vals, k);
      }
    }
    forall r | r in root
      ensures r != 0 && Val(s.vals, r) == 0
    {
      assert Val(x.vals, r) == 0;
    }
    forall id | 0 <= id < |x.clauses| && x.used[id]
      ensures Settles(x.clauses[id], s.vals, s.bits)
    {
      ClauseSettled(x, s, id);
    }
  }

  // At the fixpoint a clause with a false autarky literal has a true one.
  lemma ClauseSettled(x: Context, s: Work, id: nat)
    requires Working(x, s, 0, 0, []) && id < |x.clauses| && x.used[id]
    ensures Settles(x.clauses[id], s.vals, s.bits)
  {
    assert Guarded(x, s, id, 0, 0, []);
    if Touched(x.clauses[id], s.vals, s.bits) {
      var w :| WatchGuard(x, s, id, 0, 0, [], w);
      WatchNonZero(x, id, w);
      var i :| 0 <= i < |x.clauses[id]| && x.clauses[id][i] == w;
    }
  }

  // The literals of any set that would block c have not become conditional,
  // and unassigned ones are not negated in c.
  ghost predicate Spared(x: Context, c: nat, conditional: seq<int>, unassigned: seq<int>) {
    true == (
      && |x.clauses| == |x.used| && c < |x.clauses|
      && (forall y, k {:trigger BlockSet(x.clauses, x.used, x.vals, c, y), k in conditional} ::
            BlockSet(x.clauses, x.used, x.vals, c, y) && k in conditional ==> k !in y)
      && forall k :: k in unassigned ==> -k !in x.clauses[c])
  }

  // The negations of the literals of d belong to no set that would block c.
  ghost predicate Doomed(x: Context, c: nat, d: seq<int>) {
    true == (
      && |x.clauses| == |x.used| && c < |x.clauses|
      && forall y, i {:trigger BlockSet(x.clauses, x.used, x.vals, c, y), d[i]} ::
           0 <= i < |d| && BlockSet(x.clauses, x.used, x.vals, c, y) ==> -d[i] !in y)
  }

  lemma SparedMark(x: Context, c: nat, conditional: seq<int>, unassigned: seq<int>, d: seq<int>, i: nat)
    requires Spared(x, c, conditional, unassigned) && Doomed(x, c, d) && i < |d|
    ensures Spared(x, c, conditional + [-d[i]], unassigned)
  {
  }

  lemma SparedUnassign(x: Context, c: nat, conditional: seq<int>, unassigned: seq<int>, k: int)
    requires Spared(x, c, conditional, unassigned) && -k !in x.clauses[c]
    ensures Spared(x, c, conditional, unassigned + [k])
  {
  }

  // What the values say about the conditional and the unassigned literals.
  ghost predicate Parted(x: Context, s: Work) {
    true == (ContextOk(x) && ConditionalOk(x, s.conditional, s.bits) && UnassignedOk(x, s.conditional, s.unassigned, s.vals))
  }

  lemma WorkParted(x: Context, s: Work, u: int, j: int, pending: seq<int>)
    requires Working(x, s, u, j, pending)
    ensures Parted(x, s)
  {
  }

  // A clause without true literals left dooms its false ones: whatever would
  // save it has become conditional, or is not negated in c.
  lemma NothingSaves(x: Context, s: Work, c: nat, id: nat, watched: int)
    requires Parted(x, s) && id < |x.clauses| && x.used[id] && Spared(x, c, s.conditional, s.unassigned)
    requires forall i :: 0 <= i < |x.clauses[id]| ==> Val(s.vals, x.clauses[id][i]) <= 0
    requires watched in x.clauses[c] && Val(s.vals, watched) > 0
    ensures Doomed(x, c, x.clauses[id])
  {
    var d := x.clauses[id];
    forall i | 0 <= i < |d|
      ensures d[i] != watched
    {
    }
    forall y, i | 0 <= i < |d| && BlockSet(x.clauses, x.used, x.vals, c, y)
      ensures -d[i] !in y
    {
      NotSaved(x, s, c, d, y);
      assert -(-d[i]) in d;
    }
  }

  lemma NotSaved(x: Context, s: Work, c: nat, d: seq<int>, y: set<int>)
    requires Parted(x, s) && Spared(x, c, s.conditional, s.unassigned) && BlockSet(x.clauses, x.used, x.vals, c, y)
    requires forall i :: 0 <= i < |d| ==> Val(s.vals, d[i]) <= 0
    ensures !Saved(d, x.clauses[c], x.vals, y)
  {
    forall r | r in d
      ensures r !in y && !(Val(x.vals, r) > 0 && -r in x.clauses[c])
    {
      var k :| 0 <= k < |d| && d[k] == r;
      if Val(x.vals, r) > 0 {
        LostTruth(x, s, r);
      }
    }
  }

  // A literal that was true and is no longer has been unassigned.
  lemma LostTruth(x: Context, s: Work, r: int)
    requires Parted(x, s) && Val(x.vals, r) > 0 && Val(s.vals, r) <= 0
    ensures r in s.unassigned && r in s.conditional
  {
    assert Val(s.vals, r) == if r in s.unassigned || -r in s.unassigned then 0 else Val(x.vals, r);
    forall i | 0 <= i < |s.conditional|
      ensures s.conditional[i] != -r
    {
      assert Val(x.vals, -r) == -Val(x.vals, r);
    }
  }

  // With no autarky literal left in c, nothing blocks it.
  lemma NothingBlocks(x: Context, s: Work, c: nat)
    requires Parted(x, s) && Spared(x, c, s.conditional, s.unassigned)
    requires forall l :: l in x.clauses[c] ==> !IsAutarky(s.vals, s.bits, l)
    ensures forall y :: !BlockSet(x.clauses, x.used, x.vals, c, y)
  {
    forall y | BlockSet(x.clauses, x.used, x.vals, c, y)
      ensures false
    {
      var l :| l in y && l in x.clauses[c];
      if Val(s.vals, l) <= 0 {
        LostTruth(x, s, l);
      } else {
        TrueConditional(x, s, l);
      }
    }
  }

  lemma TrueConditional(x: Context, s: Work, l: int)
    requires Parted(x, s) && IsConditional(s.vals, s.bits, l)
    ensures l in s.conditional && l !in s.unassigned && Val(x.vals, l) > 0
  {
    assert Val(s.vals, l) == if l in s.unassigned || -l in s.unassigned then 0 else Val(x.vals, l);
    assert Mentions(s.conditional, Abs(l));
    var i :| 0 <= i < |s.conditional| && Abs(s.conditional[i]) == Abs(l);
    assert Val(x.vals, s.conditional[i]) > 0;
    assert Val(x.vals, -l) == -Val(x.vals, l);
  }

  // Every literal that is conditional from the start is negated in a clause
  // among the first n without true literals.
  ghost predicate Reasoned(clauses: seq<seq<int>>, used: seq<bool>, vals: map<int, int>, conditional: seq<int>, n: int) {
    true == (
      && |used| == |clauses| && 0 <= n <= |clauses|
      && forall k :: k in conditional ==> exists d :: 0 <= d < n && used[d] && Rejects(clauses[d], vals, k))
  }

  ghost predicate Rejects(d: seq<int>, vals: map<int, int>, k: int) {
    -k in d && forall l :: l in d ==> Val(vals, l) <= 0
  }

  // At the start those literals are in no set that would block a clause with
  // a true literal.
  lemma InitialSpared(x: Context, c: nat, conditional: seq<int>, l: int)
    requires ContextOk(x) && Reasoned(x.clauses, x.used, x.vals, conditional, |x.clauses|) && c < |x.clauses|
    requires l in x.clauses[c] && Val(x.vals, l) > 0
    ensures Spared(x, c, conditional, [])
  {
    forall y, k | BlockSet(x.clauses, x.used, x.vals, c, y) && k in conditional
      ensures k !in y
    {
      var d :| 0 <= d < |x.clauses| && x.used[d] && Rejects(x.clauses[d], x.vals, k);
      assert d != c;
      assert k in y ==> Hit(x.clauses[d], y);
    }
  }

  // Without a literal that is true and not conditional, nothing blocks c.
  lemma NoCandidate(x: Context, s: Work, c: nat)
    requires Parted(x, s) && s.unassigned == [] && c < |x.clauses|
    requires Reasoned(x.clauses, x.used, x.vals, s.conditional, |x.clauses|)
    requires forall l :: l in x.clauses[c] ==> !IsAutarky(s.vals, s.bits, l)
    ensures |x.used| == |x.clauses| && forall y :: !BlockSet(x.clauses, x.used, x.vals, c, y)
  {
    if l :| l in x.clauses[c] && Val(x.vals, l) > 0 {
      InitialSpared(x, c, s.conditional, l);
      NothingBlocks(x, s, c);
    }
  }

  // The autarky that is left blocks the candidate.
  lemma AutarkyBlocks(x: Context, s: Work, c: nat, l: int, y: set<int>)
    requires Working(x, s, 0, 0, []) && c < |x.clauses| && Processed(s, x.clauses[c], |s.conditional|)
    requires l in x.clauses[c] && IsAutarky(s.vals, s.bits, l)
    requires forall k :: k in y <==> k != 0 && IsAutarky(s.vals, s.bits, k)
    ensures |x.clauses| == |x.used| && BlockSet(x.clauses, x.used, x.vals, c, y)
  {
    WatchNonZero(x, c, l);
    forall k | k in y
      ensures Val(x.vals, k) > 0
    {
      assert Val(s.vals, k) == if k in s.unassigned || -k in s.unassigned then 0 else Val(x.vals, k);
    }
    forall id | 0 <= id < |x.clauses| && x.used[id] && id != c && Hit(x.clauses[id], y)
      ensures Saved(x.clauses[id], x.clauses[c], x.vals, y)
    {
      ClauseSettled(x, s, id);
      WorkParted(x, s, 0, 0, []);
      AutarkySaves(x, s, x.clauses[c], x.clauses[id], y);
    }
  }

  lemma AutarkySaves(x: Context, s: Work, c: seq<int>, d: seq<int>, y: set<int>)
    requires Parted(x, s) && Processed(s, c, |s.conditional|)
    requires NonZero(d) && Hit(d, y) && Settles(d, s.vals, s.bits)
    requires forall k :: k in y <==> k != 0 && IsAutarky(s.vals, s.bits, k)
    ensures Saved(d, c, x.vals, y)
  {
    HitTouches(d, s.vals, s.bits, y);
    var m :| 0 <= m < |d| && Val(s.vals, d[m]) > 0;
    var r := d[m];
    assert r in d;
    if !IsAutarky(s.vals, s.bits, r) {
      ConditionalNegated(x, s, c, r);
    }
  }

  lemma HitTouches(d: seq<int>, vals: map<int, int>, bits: seq<bool>, y: set<int>)
    requires Hit(d, y) && forall k :: k in y ==> IsAutarky(vals, bits, k)
    ensures Touched(d, vals, bits)
  {
    var k :| k in y && -k in d;
    var i :| 0 <= i < |d| && d[i] == -k;
    assert IsAutarky(vals, bits, -d[i]);
  }

  // At the fixpoint a conditional literal is negated in the candidate.
  lemma ConditionalNegated(x: Context, s: Work, c: seq<int>, r: int)
    requires Parted(x, s) && Processed(s, c, |s.conditional|) && IsConditional(s.vals, s.bits, r)
    ensures -r in c && Val(x.vals, r) > 0
  {
    TrueConditional(x, s, r);
    var n :| 0 <= n < |s.conditional| && s.conditional[n] == r;
  }
}
