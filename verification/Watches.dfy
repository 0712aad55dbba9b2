/** The state of the clausal proof checker: clauses with two watched literals,
    watcher lists with blocking literals, and a trail. */
module Watches {
  import opened Knf
  import opened Clauses
  import opened IndexedStack

  // A clause is garbage when its size has been set to zero.
  datatype CheckerClause = CheckerClause(lits: seq<int>, garbage: bool)

  datatype Watch = Watch(blit: int, size: nat, clause: nat)

  datatype State = State(store: seq<CheckerClause>, watchers: map<int, seq<Watch>>, vals: map<int, int>, trail: seq<int>, next: nat)

  function Val(vals: map<int, int>, l: int): int {
    if l in vals then vals[l] else 0
  }

  function ListOf(watchers: map<int, seq<Watch>>, l: int): seq<Watch> {
    if l in watchers then watchers[l] else []
  }

  ghost predicate TrailOk(vals: map<int, int>, trail: seq<int>) {
    true == (
      && (forall l {:trigger Val(vals, l)} :: Val(vals, l) == if l in trail then 1 else if -l in trail then -1 else 0)
      && (forall l :: l in trail ==> l != 0 && -l !in trail)
      && Unrepeated(trail))
  }

  ghost predicate ClauseOk(c: CheckerClause) {
    |c.lits| >= 2 && DistinctVars(c.lits) && forall i :: 0 <= i < |c.lits| ==> c.lits[i] != 0
  }

  ghost predicate WatchOk(store: seq<CheckerClause>, l: int, w: Watch) {
    && w.clause < |store|
    && var c := store[w.clause];
      && w.size == |c.lits| && l in c.lits && w.blit in c.lits && w.blit != l
      && (c.garbage || w.size == 2 || l == c.lits[0] || l == c.lits[1])
  }

  ghost predicate NoDup(list: seq<Watch>) {
    forall k, m :: 0 <= k < m < |list| ==> list[k].clause != list[m].clause
  }

  ghost predicate ListOk(store: seq<CheckerClause>, l: int, list: seq<Watch>) {
    NoDup(list) && forall k :: 0 <= k < |list| ==> WatchOk(store, l, list[k])
  }

  ghost predicate Attached(list: seq<Watch>, id: nat) {
    exists k :: 0 <= k < |list| && list[k].clause == id
  }

  // Every live clause is in the lists of its first two literals.
  ghost predicate ClauseAttached(store: seq<CheckerClause>, watchers: map<int, seq<Watch>>, id: nat)
    requires id < |store|
  {
    || store[id].garbage
    || (|store[id].lits| >= 2 && Attached(ListOf(watchers, store[id].lits[0]), id) && Attached(ListOf(watchers, store[id].lits[1]), id))
  }

  ghost predicate SatBy(lits: seq<int>, trail: seq<int>) {
    exists i :: 0 <= i < |lits| && lits[i] in trail
  }

  // A false watched literal, seen by propagation, is harmless: the clause is
  // satisfied.
  ghost predicate QuietClause(c: CheckerClause, trail: seq<int>, seen: seq<int>) {
    c.garbage || |c.lits| < 2 || ((-c.lits[0] in seen || -c.lits[1] in seen) ==> SatBy(c.lits, trail))
  }

  ghost predicate Quiet(store: seq<CheckerClause>, trail: seq<int>, seen: seq<int>) {
    forall id :: 0 <= id < |store| ==> QuietClause(store[id], trail, seen)
  }

  ghost predicate AllHold(lits: seq<int>, a: Assignment) {
    forall l :: l in lits ==> Holds(l, a)
  }

  ghost predicate Implied(formula: seq<seq<int>>, c: seq<int>) {
    forall a {:trigger ClausesSat(formula, a)} :: ClausesSat(formula, a) ==> ClauseSat(c, a)
  }

  // Under the assumptions the formula implies all of `lits`.
  ghost predicate Forces(formula: seq<seq<int>>, assumed: seq<int>, lits: seq<int>) {
    forall a {:trigger ClausesSat(formula, a)} :: ClausesSat(formula, a) && AllHold(assumed, a) ==> AllHold(lits, a)
  }

  ghost predicate Refutes(formula: seq<seq<int>>, assumed: seq<int>) {
    forall a {:trigger ClausesSat(formula, a)} :: ClausesSat(formula, a) ==> !AllHold(assumed, a)
  }

  ghost predicate StoreOk(formula: seq<seq<int>>, store: seq<CheckerClause>) {
    true == (forall id :: 0 <= id < |store| ==> ClauseOk(store[id]) && Implied(formula, store[id].lits))
  }

  ghost predicate ListsOk(store: seq<CheckerClause>, watchers: map<int, seq<Watch>>) {
    true == (
      && (forall l {:trigger ListOf(watchers, l)} :: ListOk(store, l, ListOf(watchers, l)))
      && forall id :: 0 <= id < |store| ==> ClauseAttached(store, watchers, id))
  }

  // What propagation keeps at every point; `root` is the part of the trail
  // that will survive backtracking.
  ghost predicate Base(formula: seq<seq<int>>, assumed: seq<int>, root: seq<int>, s: State) {
    true == (
      && StoreOk(formula, s.store) && ListsOk(s.store, s.watchers) && TrailOk(s.vals, s.trail)
      && Forces(formula, assumed, s.trail) && s.next <= |s.trail|
      && (forall l :: l in root ==> l in s.trail) && Quiet(s.store, root, root))
  }

  ghost predicate Propagated(s: State) {
    true == (s.next <= |s.trail| && Quiet(s.store, s.trail, s.trail[..s.next]))
  }

  // In the middle of visiting the list of the false literal f: its first i
  // entries are done.
  ghost predicate Visiting(s: State, f: int, i: int) {
    true == (
      && 1 <= s.next <= |s.trail| && s.trail[s.next - 1] == -f && 0 <= i <= |ListOf(s.watchers, f)|
      && Quiet(s.store, s.trail, s.trail[..s.next - 1])
      && forall k :: 0 <= k < i ==> VisitDone(s, ListOf(s.watchers, f)[k]))
  }

  ghost predicate VisitDone(s: State, w: Watch) {
    w.clause < |s.store| ==> s.store[w.clause].garbage || SatBy(s.store[w.clause].lits, s.trail)
  }

  function WithAssigned(s: State, l: int): State {
    s.(vals := s.vals[l := 1][-l := -1], trail := s.trail + [l])
  }

  lemma SatByGrows(lits: seq<int>, trail: seq<int>, l: int)
    requires SatBy(lits, trail)
    ensures SatBy(lits, trail + [l])
  {
    var i :| 0 <= i < |lits| && lits[i] in trail;
    assert lits[i] in trail + [l];
  }

  lemma AssignTrail(vals: map<int, int>, trail: seq<int>, l: int)
    requires TrailOk(vals, trail) && l != 0 && Val(vals, l) == 0
    ensures TrailOk(vals[l := 1][-l := -1], trail + [l])
  {
    var vals' := vals[l := 1][-l := -1];
    assert l !in trail && -l !in trail;
    forall m
      ensures Val(vals', m) == if m in trail + [l] then 1 else if -m in trail + [l] then -1 else 0
    {
      assert Val(vals', m) == if m == l then 1 else if m == -l then -1 else Val(vals, m);
    }
    UnrepeatedSnoc(trail, l);
  }

  lemma ForcesMore(formula: seq<seq<int>>, assumed: seq<int>, trail: seq<int>, l: int)
    requires Forces(formula, assumed, trail) && Forces(formula, assumed, [l])
    ensures Forces(formula, assumed, trail + [l])
  {
    assert l in [l];
  }

  lemma QuietGrows(store: seq<CheckerClause>, trail: seq<int>, seen: seq<int>, l: int)
    requires Quiet(store, trail, seen)
    ensures Quiet(store, trail + [l], seen)
  {
    forall id | 0 <= id < |store|
      ensures QuietClause(store[id], trail + [l], seen)
    {
      assert QuietClause(store[id], trail, seen);
      if SatBy(store[id].lits, trail) {
        SatByGrows(store[id].lits, trail, l);
      }
    }
  }

  // Assigning a forced literal.
  lemma AssignKeeps(formula: seq<seq<int>>, assumed: seq<int>, root: seq<int>, s: State, l: int)
    requires Base(formula, assumed, root, s) && l != 0 && Val(s.vals, l) == 0 && Forces(formula, assumed, [l])
    ensures Base(formula, assumed, root, WithAssigned(s, l))
    ensures Propagated(s) ==> Propagated(WithAssigned(s, l))
  {
    var t := WithAssigned(s, l);
    AssignTrail(s.vals, s.trail, l);
    ForcesMore(formula, assumed, s.trail, l);
    assert t.trail[..s.next] == s.trail[..s.next];
    if Propagated(s) {
      QuietGrows(s.store, s.trail, s.trail[..s.next], l);
    }
  }

  lemma AssignVisiting(s: State, l: int, f: int, i: nat)
    requires Visiting(s, f, i)
    ensures Visiting(WithAssigned(s, l), f, i)
  {
    var t := WithAssigned(s, l);
    QuietGrows(s.store, s.trail, s.trail[..s.next - 1], l);
    assert t.trail[..s.next - 1] == s.trail[..s.next - 1];
    forall k | 0 <= k < i
      ensures VisitDone(t, ListOf(t.watchers, f)[k])
    {
      var w := ListOf(s.watchers, f)[k];
      assert VisitDone(s, w);
      if w.clause < |s.store| && SatBy(s.store[w.clause].lits, s.trail) {
        SatByGrows(s.store[w.clause].lits, s.trail, l);
      }
    }
  }

  // A literal left alone in an implied clause is forced.
  lemma UnitForced(formula: seq<seq<int>>, assumed: seq<int>, trail: seq<int>, lits: seq<int>, l: int)
    requires Implied(formula, lits) && Forces(formula, assumed, trail)
    requires forall i :: 0 <= i < |lits| && lits[i] != l ==> lits[i] != 0 && -lits[i] in trail
    ensures Forces(formula, assumed, [l])
  {
    forall a | ClausesSat(formula, a) && AllHold(assumed, a)
      ensures AllHold([l], a)
    {
      forall i | 0 <= i < |lits| && lits[i] != l
        ensures !Holds(lits[i], a)
      {
        assert Holds(-lits[i], a);
      }
      assert ClauseSat(lits, a);
    }
  }

  // A clause with all literals false refutes the assumptions.
  lemma FalseRefutes(formula: seq<seq<int>>, assumed: seq<int>, trail: seq<int>, lits: seq<int>)
    requires Implied(formula, lits) && Forces(formula, assumed, trail)
    requires forall i :: 0 <= i < |lits| ==> lits[i] != 0 && -lits[i] in trail
    ensures Refutes(formula, assumed)
  {
    forall a | ClausesSat(formula, a)
      ensures !AllHold(assumed, a)
    {
      assert ClauseSat(lits, a);
      var i :| 0 <= i < |lits| && Holds(lits[i], a);
      assert !Holds(-lits[i], a);
    }
  }

  function WithList(s: State, f: int, list: seq<Watch>): State {
    s.(watchers := s.watchers[f := list])
  }

  // Removing an entry that no live clause needs.
  lemma ListsDrop(store: seq<CheckerClause>, watchers: map<int, seq<Watch>>, f: int, i: nat, free: nat)
    requires ListsOk(store, watchers) && i < |ListOf(watchers, f)| && ListOf(watchers, f)[i].clause == free
    ensures var list := ListOf(watchers, f);
      var watchers' := watchers[f := list[..i] + list[i + 1..]];
      && (forall l :: ListOk(store, l, ListOf(watchers', l)))
      && (forall id :: 0 <= id < |store| && id != free ==> ClauseAttached(store, watchers', id))
      && (forall l :: l != f && Attached(ListOf(watchers, l), free) ==> Attached(ListOf(watchers', l), free))
      && (forall k :: 0 <= k < |list| - 1 ==> ListOf(watchers', f)[k].clause != free)
  {
    var list := ListOf(watchers, f);
    var list' := list[..i] + list[i + 1..];
    var watchers' := watchers[f := list'];
    assert ListOk(store, f, list);
    assert forall k :: 0 <= k < |list'| ==> list'[k] == list[if k < i then k else k + 1];
    forall l
      ensures ListOk(store, l, ListOf(watchers', l))
    {
      assert ListOk(store, l, ListOf(watchers, l));
      assert l != f ==> ListOf(watchers', l) == ListOf(watchers, l);
    }
    forall id | 0 <= id < |store| && id != free
      ensures ClauseAttached(store, watchers', id)
    {
      assert ClauseAttached(store, watchers, id);
      if !store[id].garbage {
        StillAttached(watchers, f, list, i, id, store[id].lits[0]);
        StillAttached(watchers, f, list, i, id, store[id].lits[1]);
      }
    }
  }

  lemma StillAttached(watchers: map<int, seq<Watch>>, f: int, list: seq<Watch>, i: nat, id: nat, l: int)
    requires list == ListOf(watchers, f) && i < |list| && list[i].clause != id
    requires Attached(ListOf(watchers, l), id)
    ensures Attached(ListOf(watchers[f := list[..i] + list[i + 1..]], l), id)
  {
    if l == f {
      var k :| 0 <= k < |list| && list[k].clause == id;
      var list' := list[..i] + list[i + 1..];
      var k' := if k < i then k else k - 1;
      assert list'[k'] == list[k];
    }
  }

  // The entry for a garbage clause is dropped from the list.
  lemma DropKeeps(formula: seq<seq<int>>, assumed: seq<int>, root: seq<int>, s: State, f: int, i: nat)
    requires Base(formula, assumed, root, s) && Visiting(s, f, i) && i < |ListOf(s.watchers, f)|
    requires ListOf(s.watchers, f)[i].clause < |s.store| && s.store[ListOf(s.watchers, f)[i].clause].garbage
    ensures var list := ListOf(s.watchers, f);
      var t := WithList(s, f, list[..i] + list[i + 1..]);
      Base(formula, assumed, root, t) && Visiting(t, f, i)
  {
    var list := ListOf(s.watchers, f);
    var t := WithList(s, f, list[..i] + list[i + 1..]);
    ListsDrop(s.store, s.watchers, f, i, list[i].clause);
    assert ListOf(t.watchers, f) == list[..i] + list[i + 1..];
    assert forall k :: 0 <= k < i ==> ListOf(t.watchers, f)[k] == list[k];
  }

  // A satisfied or garbage entry is left where it is.
  lemma KeepVisited(s: State, f: int, i: nat)
    requires Visiting(s, f, i) && i < |ListOf(s.watchers, f)| && VisitDone(s, ListOf(s.watchers, f)[i])
    ensures Visiting(s, f, i + 1)
  {
  }

  // Its blocking literal may be updated.
  lemma BlitKeeps(formula: seq<seq<int>>, assumed: seq<int>, root: seq<int>, s: State, f: int, i: nat, blit: int)
    requires Base(formula, assumed, root, s) && Visiting(s, f, i) && i < |ListOf(s.watchers, f)|
    requires ListOf(s.watchers, f)[i].clause < |s.store|
    requires blit in s.store[ListOf(s.watchers, f)[i].clause].lits && blit != f
    ensures var list := ListOf(s.watchers, f);
      var t := WithList(s, f, list[i := list[i].(blit := blit)]);
      Base(formula, assumed, root, t) && Visiting(t, f, i) && |ListOf(t.watchers, f)| == |list|
  {
    var list := ListOf(s.watchers, f);
    var list' := list[i := list[i].(blit := blit)];
    var t := WithList(s, f, list');
    assert ListOf(t.watchers, f) == list' && ListOk(s.store, f, list);
    assert forall k :: 0 <= k < |list'| ==> list'[k].clause == list[k].clause;
    forall l
      ensures ListOk(t.store, l, ListOf(t.watchers, l))
    {
      assert ListOk(s.store, l, ListOf(s.watchers, l));
      assert l != f ==> ListOf(t.watchers, l) == ListOf(s.watchers, l);
    }
    forall id | 0 <= id < |s.store|
      ensures ClauseAttached(t.store, t.watchers, id)
    {
      assert ClauseAttached(s.store, s.watchers, id);
      forall l | Attached(ListOf(s.watchers, l), id)
        ensures Attached(ListOf(t.watchers, l), id)
      {
        if l == f {
          var k :| 0 <= k < |list| && list[k].clause == id;
          assert list'[k].clause == id;
        }
      }
    }
  }

  ghost predicate Permuted(lits: seq<int>, lits': seq<int>) {
    |lits'| == |lits| && DistinctVars(lits') && forall l :: l in lits <==> l in lits'
  }

  // The same clauses, their literals perhaps in another order.
  ghost predicate SameClauses(store: seq<CheckerClause>, store': seq<CheckerClause>) {
    true == (
      && |store'| == |store|
      && forall id :: 0 <= id < |store| ==> Reordered(store[id], store'[id]))
  }

  ghost predicate Reordered(c: CheckerClause, d: CheckerClause) {
    d == c || (d.garbage == c.garbage && Permuted(c.lits, d.lits))
  }

  lemma SameClausesAgain(store: seq<CheckerClause>)
    ensures SameClauses(store, store)
  {
  }

  lemma SameClausesOn(a: seq<CheckerClause>, b: seq<CheckerClause>, c: seq<CheckerClause>)
    requires SameClauses(a, b) && SameClauses(b, c)
    ensures SameClauses(a, c)
  {
    forall id | 0 <= id < |a|
      ensures Reordered(a[id], c[id])
    {
      assert Reordered(a[id], b[id]) && Reordered(b[id], c[id]);
    }
  }

  lemma SameClausesStep(store: seq<CheckerClause>, id: nat, lits: seq<int>)
    requires id < |store| && Permuted(store[id].lits, lits)
    ensures SameClauses(store, store[id := store[id].(lits := lits)])
  {
  }

  lemma PermutedKeeps(lits: seq<int>, lits': seq<int>)
    requires Permuted(lits, lits')
    ensures forall trail :: SatBy(lits, trail) <==> SatBy(lits', trail)
    ensures forall a :: ClauseSat(lits, a) <==> ClauseSat(lits', a)
  {
    forall trail
      ensures SatBy(lits, trail) <==> SatBy(lits', trail)
    {
      if SatBy(lits, trail) {
        var i :| 0 <= i < |lits| && lits[i] in trail;
        assert lits[i] in lits;
        var j :| 0 <= j < |lits'| && lits'[j] == lits[i];
      }
      if SatBy(lits', trail) {
        var i :| 0 <= i < |lits'| && lits'[i] in trail;
        assert lits'[i] in lits';
        var j :| 0 <= j < |lits| && lits[j] == lits'[i];
      }
    }
    forall a: Assignment
      ensures ClauseSat(lits, a) <==> ClauseSat(lits', a)
    {
      if ClauseSat(lits, a) {
        var i :| 0 <= i < |lits| && Holds(lits[i], a);
        assert lits[i] in lits;
        var j :| 0 <= j < |lits'| && lits'[j] == lits[i];
      }
      if ClauseSat(lits', a) {
        var i :| 0 <= i < |lits'| && Holds(lits'[i], a);
        assert lits'[i] in lits';
        var j :| 0 <= j < |lits| && lits[j] == lits'[i];
      }
    }
  }

  lemma SwapPermutes(lits: seq<int>, i: nat, j: nat)
    requires DistinctVars(lits) && i < |lits| && j < |lits|
    ensures Permuted(lits, lits[i := lits[j]][j := lits[i]])
  {
    var lits' := lits[i := lits[j]][j := lits[i]];
    forall l
      ensures l in lits <==> l in lits'
    {
      if l in lits {
        var k :| 0 <= k < |lits| && lits[k] == l;
        assert lits'[if k == i then j else if k == j then i else k] == l;
      }
      if l in lits' {
        var k :| 0 <= k < |lits'| && lits'[k] == l;
        assert lits[if k == i then j else if k == j then i else k] == l;
      }
    }
  }

  function WithLits(s: State, id: nat, lits: seq<int>): State
    requires id < |s.store|
  {
    s.(store := s.store[id := s.store[id].(lits := lits)])
  }

  lemma StoreReordered(formula: seq<seq<int>>, store: seq<CheckerClause>, id: nat, lits: seq<int>)
    requires StoreOk(formula, store) && id < |store| && Permuted(store[id].lits, lits)
    ensures StoreOk(formula, store[id := store[id].(lits := lits)])
  {
    PermutedKeeps(store[id].lits, lits);
    forall i | 0 <= i < |lits|
      ensures lits[i] != 0
    {
      assert lits[i] in lits;
    }
  }

  // The two watched literals change places.
  lemma ReorderKeeps(formula: seq<seq<int>>, assumed: seq<int>, root: seq<int>, s: State, f: int, i: nat, id: nat)
    requires Base(formula, assumed, root, s) && Visiting(s, f, i) && id < |s.store| && !s.store[id].garbage && |s.store[id].lits| >= 2
    ensures var lits := s.store[id].lits;
      var t := WithLits(s, id, lits[0 := lits[1]][1 := lits[0]]);
      Base(formula, assumed, root, t) && Visiting(t, f, i)
  {
    var lits := s.store[id].lits;
    var lits' := lits[0 := lits[1]][1 := lits[0]];
    var t := WithLits(s, id, lits');
    assert ClauseOk(s.store[id]);
    SwapPermutes(lits, 0, 1);
    PermutedKeeps(lits, lits');
    StoreReordered(formula, s.store, id, lits');
    forall l
      ensures ListOk(t.store, l, ListOf(t.watchers, l))
    {
      assert ListOk(s.store, l, ListOf(s.watchers, l));
    }
    forall d | 0 <= d < |s.store|
      ensures ClauseAttached(t.store, t.watchers, d)
    {
      assert ClauseAttached(s.store, s.watchers, d);
    }
    forall trail, seen, d | 0 <= d < |s.store| && QuietClause(s.store[d], trail, seen)
      ensures QuietClause(t.store[d], trail, seen)
    {
    }
    forall k | 0 <= k < i
      ensures VisitDone(t, ListOf(t.watchers, f)[k])
    {
      assert VisitDone(s, ListOf(s.watchers, f)[k]);
    }
  }

  // The second watch moves from the false literal f to a literal at k that is
  // not false.
  ghost predicate Replaceable(store: seq<CheckerClause>, watchers: map<int, seq<Watch>>, f: int, i: int, id: int, k: int) {
    true == (
      && ListsOk(store, watchers) && 0 <= i < |ListOf(watchers, f)| && ListOf(watchers, f)[i].clause == id
      && 0 <= id < |store| && !store[id].garbage && 2 <= k < |store[id].lits|
      && DistinctVars(store[id].lits) && store[id].lits[1] == f)
  }

  function ReplacedStore(store: seq<CheckerClause>, id: nat, k: nat): seq<CheckerClause>
    requires id < |store| && 2 <= k < |store[id].lits|
  {
    var lits := store[id].lits;
    store[id := store[id].(lits := lits[1 := lits[k]][k := lits[1]])]
  }

  function ReplacedLists(watchers: map<int, seq<Watch>>, f: int, i: nat, r: int, size: nat, id: nat): map<int, seq<Watch>>
    requires i < |ListOf(watchers, f)|
  {
    var list := ListOf(watchers, f);
    var dropped := watchers[f := list[..i] + list[i + 1..]];
    dropped[r := ListOf(dropped, r) + [Watch(f, size, id)]]
  }

  lemma NoDupDrop(list: seq<Watch>, i: nat)
    requires NoDup(list) && i < |list|
    ensures NoDup(list[..i] + list[i + 1..])
    ensures !Attached(list[..i] + list[i + 1..], list[i].clause)
  {
    var list' := list[..i] + list[i + 1..];
    assert forall m :: 0 <= m < |list'| ==> list'[m] == list[if m < i then m else m + 1];
  }

  // Entries for other clauses do not notice.
  lemma OtherEntry(store: seq<CheckerClause>, id: nat, k: nat, l: int, w: Watch)
    requires id < |store| && 2 <= k < |store[id].lits| && WatchOk(store, l, w) && w.clause != id
    ensures WatchOk(ReplacedStore(store, id, k), l, w)
  {
  }

  lemma PushedEntry(store: seq<CheckerClause>, id: nat, k: nat)
    requires id < |store| && 2 <= k < |store[id].lits| && DistinctVars(store[id].lits)
    ensures WatchOk(ReplacedStore(store, id, k), store[id].lits[k], Watch(store[id].lits[1], |store[id].lits|, id))
  {
    var lits := store[id].lits;
    var lits' := lits[1 := lits[k]][k := lits[1]];
    assert lits'[1] == lits[k] && lits'[k] == lits[1];
  }

  lemma ReplacedListOk(store: seq<CheckerClause>, watchers: map<int, seq<Watch>>, f: int, i: nat, id: nat, k: nat, l: int)
    requires Replaceable(store, watchers, f, i, id, k)
    ensures var lits := store[id].lits;
      ListOk(ReplacedStore(store, id, k), l, ListOf(ReplacedLists(watchers, f, i, lits[k], |lits|, id), l))
  {
    var lits, before := store[id].lits, ListOf(watchers, l);
    var r, store' := lits[k], ReplacedStore(store, id, k);
    var after := ListOf(ReplacedLists(watchers, f, i, r, |lits|, id), l);
    assert r != f && r != lits[0] && f != lits[0];
    assert ListOk(store, l, before);
    if l == f {
      assert after == before[..i] + before[i + 1..];
      DroppedListOk(store, f, before, i, id, k);
    } else if l == r {
      assert after == before + [Watch(f, |lits|, id)];
      PushedListOk(store, before, id, k);
    } else {
      assert after == before;
      FirstEntry(store, id, k, l, before);
    }
  }

  lemma DroppedListOk(store: seq<CheckerClause>, f: int, list: seq<Watch>, i: nat, id: nat, k: nat)
    requires id < |store| && 2 <= k < |store[id].lits| && ListOk(store, f, list) && i < |list| && list[i].clause == id
    ensures ListOk(ReplacedStore(store, id, k), f, list[..i] + list[i + 1..])
  {
    var list' := list[..i] + list[i + 1..];
    NoDupDrop(list, i);
    forall m | 0 <= m < |list'|
      ensures WatchOk(ReplacedStore(store, id, k), f, list'[m])
    {
      assert list'[m] == list[if m < i then m else m + 1];
      assert list'[m].clause != id;
      OtherEntry(store, id, k, f, list'[m]);
    }
  }

  lemma PushedListOk(store: seq<CheckerClause>, list: seq<Watch>, id: nat, k: nat)
    requires id < |store| && !store[id].garbage && 2 <= k < |store[id].lits| && DistinctVars(store[id].lits)
    requires ListOk(store, store[id].lits[k], list)
    ensures ListOk(ReplacedStore(store, id, k), store[id].lits[k], list + [Watch(store[id].lits[1], |store[id].lits|, id)])
  {
    var r := store[id].lits[k];
    PushedEntry(store, id, k);
    forall m | 0 <= m < |list|
      ensures list[m].clause != id && WatchOk(ReplacedStore(store, id, k), r, list[m])
    {
      assert WatchOk(store, r, list[m]);
      OtherEntry(store, id, k, r, list[m]);
    }
  }

  // A list of neither literal mentions the clause only if it is that of its
  // first literal.
  lemma FirstEntry(store: seq<CheckerClause>, id: nat, k: nat, l: int, list: seq<Watch>)
    requires id < |store| && !store[id].garbage && 2 <= k < |store[id].lits| && DistinctVars(store[id].lits)
    requires ListOk(store, l, list) && l != store[id].lits[1]
    ensures forall m :: 0 <= m < |list| ==> WatchOk(ReplacedStore(store, id, k), l, list[m])
  {
    var lits := store[id].lits;
    SwapPermutes(lits, 1, k);
    forall m | 0 <= m < |list|
      ensures WatchOk(ReplacedStore(store, id, k), l, list[m])
    {
      assert WatchOk(store, l, list[m]);
    }
  }

  lemma ReplacedAttached(store: seq<CheckerClause>, watchers: map<int, seq<Watch>>, f: int, i: nat, id: nat, k: nat, d: nat)
    requires Replaceable(store, watchers, f, i, id, k) && d < |store|
    ensures var lits := store[id].lits;
      ClauseAttached(ReplacedStore(store, id, k), ReplacedLists(watchers, f, i, lits[k], |lits|, id), d)
  {
    var lits, list := store[id].lits, ListOf(watchers, f);
    var r := lits[k];
    var dropped := watchers[f := list[..i] + list[i + 1..]];
    var moved := ReplacedLists(watchers, f, i, r, |lits|, id);
    ListsDrop(store, watchers, f, i, id);
    assert r != f && lits[0] != f && lits[0] != r;
    assert ClauseAttached(store, watchers, d);
    if d == id {
      assert ListOf(moved, r)[|ListOf(dropped, r)|].clause == id;
      assert ListOf(moved, lits[0]) == ListOf(watchers, lits[0]);
    } else if !store[d].garbage {
      assert ClauseAttached(store, dropped, d);
      StillAttachedPush(dropped, r, Watch(f, |lits|, id), d, store[d].lits[0]);
      StillAttachedPush(dropped, r, Watch(f, |lits|, id), d, store[d].lits[1]);
    }
  }

  lemma StillAttachedPush(watchers: map<int, seq<Watch>>, r: int, w: Watch, d: nat, l: int)
    requires Attached(ListOf(watchers, l), d)
    ensures Attached(ListOf(watchers[r := ListOf(watchers, r) + [w]], l), d)
  {
    var m :| 0 <= m < |ListOf(watchers, l)| && ListOf(watchers, l)[m].clause == d;
    assert ListOf(watchers[r := ListOf(watchers, r) + [w]], l)[m] == ListOf(watchers, l)[m];
  }

  lemma ListsReplace(store: seq<CheckerClause>, watchers: map<int, seq<Watch>>, f: int, i: nat, id: nat, k: nat)
    requires Replaceable(store, watchers, f, i, id, k)
    ensures var lits := store[id].lits;
      ListsOk(ReplacedStore(store, id, k), ReplacedLists(watchers, f, i, lits[k], |lits|, id))
  {
    var lits := store[id].lits;
    var store', moved := ReplacedStore(store, id, k), ReplacedLists(watchers, f, i, lits[k], |lits|, id);
    forall l
      ensures ListOk(store', l, ListOf(moved, l))
    {
      ReplacedListOk(store, watchers, f, i, id, k, l);
    }
    forall d | 0 <= d < |store'|
      ensures ClauseAttached(store', moved, d)
    {
      ReplacedAttached(store, watchers, f, i, id, k, d);
    }
  }

  function Replaced(s: State, f: int, i: nat, id: nat, k: nat): State
    requires i < |ListOf(s.watchers, f)| && id < |s.store| && 2 <= k < |s.store[id].lits|
  {
    var lits := s.store[id].lits;
    s.(store := ReplacedStore(s.store, id, k), watchers := ReplacedLists(s.watchers, f, i, lits[k], |lits|, id))
  }

  lemma ReplaceKeeps(formula: seq<seq<int>>, assumed: seq<int>, root: seq<int>, s: State, f: int, i: nat, id: nat, k: nat)
    requires Base(formula, assumed, root, s) && Visiting(s, f, i) && i < |ListOf(s.watchers, f)| && ListOf(s.watchers, f)[i].clause == id
    requires id < |s.store| && !s.store[id].garbage && 2 <= k < |s.store[id].lits| && s.store[id].lits[1] == f
    requires -s.store[id].lits[k] !in s.trail
    ensures Base(formula, assumed, root, Replaced(s, f, i, id, k)) && Visiting(Replaced(s, f, i, id, k), f, i)
  {
    var lits, list := s.store[id].lits, ListOf(s.watchers, f);
    var lits', t := lits[1 := lits[k]][k := f], Replaced(s, f, i, id, k);
    assert ClauseOk(s.store[id]);
    SwapPermutes(lits, 1, k);
    PermutedKeeps(lits, lits');
    StoreReordered(formula, s.store, id, lits');
    ListsReplace(s.store, s.watchers, f, i, id, k);
    QuietReplaced(s.store, s.trail, root, root, id, lits');
    QuietReplaced(s.store, s.trail, s.trail, s.trail[..s.next - 1], id, lits');
    assert lits[k] != f;
    assert ListOf(t.watchers, f) == list[..i] + list[i + 1..];
    forall m | 0 <= m < i
      ensures VisitDone(t, ListOf(t.watchers, f)[m])
    {
      assert VisitDone(s, list[m]);
    }
  }

  // A clause stays quiet when its second watch becomes one that is not false.
  lemma QuietReplaced(store: seq<CheckerClause>, trail: seq<int>, part: seq<int>, seen: seq<int>, id: nat, lits: seq<int>)
    requires Quiet(store, part, seen) && id < |store| && Permuted(store[id].lits, lits) && |lits| >= 2
    requires lits[0] == store[id].lits[0] && -lits[1] !in trail && forall l :: l in seen ==> l in trail
    ensures Quiet(store[id := store[id].(lits := lits)], part, seen)
  {
    PermutedKeeps(store[id].lits, lits);
    assert QuietClause(store[id], part, seen);
    var store' := store[id := store[id].(lits := lits)];
    forall d | 0 <= d < |store'|
      ensures QuietClause(store'[d], part, seen)
    {
      assert QuietClause(store[d], part, seen);
    }
  }

  // Taking the next literal off the trail.
  lemma VisitStart(s: State)
    requires Propagated(s) && s.next < |s.trail|
    ensures Visiting(s.(next := s.next + 1), -s.trail[s.next], 0)
  {
  }

  // With its whole list visited, the literal is settled.
  lemma VisitEnd(formula: seq<seq<int>>, assumed: seq<int>, root: seq<int>, s: State, f: int)
    requires Base(formula, assumed, root, s) && Visiting(s, f, |ListOf(s.watchers, f)|)
    ensures Propagated(s)
  {
    var list := ListOf(s.watchers, f);
    var seen := s.trail[..s.next];
    assert seen == s.trail[..s.next - 1] + [-f];
    forall id | 0 <= id < |s.store|
      ensures QuietClause(s.store[id], s.trail, seen)
    {
      assert QuietClause(s.store[id], s.trail, s.trail[..s.next - 1]) && ClauseAttached(s.store, s.watchers, id);
      var c := s.store[id];
      if !c.garbage && (c.lits[0] == f || c.lits[1] == f) {
        var k :| 0 <= k < |list| && list[k].clause == id;
        assert VisitDone(s, list[k]);
      }
    }
  }

  // Two literals of the clause are unassigned, or one is true.
  ghost predicate NotUnit(lits: seq<int>, trail: seq<int>) {
    || SatBy(lits, trail)
    || exists i, j :: 0 <= i < j < |lits| && lits[i] !in trail && -lits[i] !in trail && lits[j] !in trail && -lits[j] !in trail
  }

  // Propagation is complete: at its end no live clause is false or unit.
  lemma QuietIsComplete(formula: seq<seq<int>>, assumed: seq<int>, root: seq<int>, s: State)
    requires Base(formula, assumed, root, s) && Propagated(s) && s.next == |s.trail|
    ensures forall id :: 0 <= id < |s.store| && !s.store[id].garbage ==> NotUnit(s.store[id].lits, s.trail)
  {
    assert s.trail[..s.next] == s.trail;
    forall id | 0 <= id < |s.store| && !s.store[id].garbage
      ensures NotUnit(s.store[id].lits, s.trail)
    {
      var lits := s.store[id].lits;
      assert ClauseOk(s.store[id]) && QuietClause(s.store[id], s.trail, s.trail);
      if !SatBy(lits, s.trail) {
        assert lits[0] !in s.trail && lits[1] !in s.trail;
      }
    }
  }

  // All variables are below the capacity.
  ghost predicate Sized(s: State, size: nat) {
    true == (
      && (forall id, l {:trigger l in s.store[id].lits} :: 0 <= id < |s.store| && l in s.store[id].lits ==> Abs(l) < size)
      && forall l :: l in s.trail ==> Abs(l) < size)
  }

  // So the trail is no longer than the capacity.
  lemma TrailDistinct(vals: map<int, int>, trail: seq<int>)
    requires TrailOk(vals, trail)
    ensures DistinctVars(trail)
  {
    forall i, j | 0 <= i < j < |trail|
      ensures Abs(trail[i]) != Abs(trail[j])
    {
      UnrepeatedAt(trail, j);
      assert trail[i] in trail && trail[j] in trail && trail[i] in trail[..j];
    }
  }

  lemma TrailFits(vals: map<int, int>, trail: seq<int>, size: nat)
    requires TrailOk(vals, trail) && forall l :: l in trail ==> Abs(l) < size
    ensures |trail| <= size
  {
    TrailDistinct(vals, trail);
    forall i | 0 <= i < |trail|
      ensures Abs(trail[i]) < size
    {
      assert trail[i] in trail;
    }
    Pigeons(trail, size);
  }

  lemma {:induction false} Pigeons(lits: seq<int>, n: nat)
    requires DistinctVars(lits) && forall i :: 0 <= i < |lits| ==> Abs(lits[i]) < n
    ensures |lits| <= n
  {
    var first: int := if lits == [] then 0 else Abs(lits[0]);
    if n > 0 {
      if i :| 0 <= i < |lits| && Abs(lits[i]) == n - 1 {
        var rest := lits[..i] + lits[i + 1..];
        assert forall j :: 0 <= j < |rest| ==> rest[j] == lits[if j < i then j else j + 1];
        Pigeons(rest, n - 1);
      } else {
        Pigeons(lits, n - 1);
      }
    }
  }

  // A new clause watched by two unassigned literals.
  function Inserted(s: State, lits: seq<int>): State
    requires |lits| >= 2
  {
    var id := |s.store|;
    var one := s.watchers[lits[0] := ListOf(s.watchers, lits[0]) + [Watch(lits[1], |lits|, id)]];
    s.(store := s.store + [CheckerClause(lits, false)],
       watchers := one[lits[1] := ListOf(one, lits[1]) + [Watch(lits[0], |lits|, id)]])
  }

  lemma StoreGrows(store: seq<CheckerClause>, c: CheckerClause, l: int, list: seq<Watch>)
    requires ListOk(store, l, list)
    ensures forall m :: 0 <= m < |list| ==> WatchOk(store + [c], l, list[m]) && list[m].clause != |store|
  {
    forall m | 0 <= m < |list|
      ensures WatchOk(store + [c], l, list[m]) && list[m].clause != |store|
    {
      assert WatchOk(store, l, list[m]);
    }
  }

  lemma ListGrows(store: seq<CheckerClause>, c: CheckerClause, l: int, list: seq<Watch>, w: Watch)
    requires ListOk(store, l, list) && w.clause == |store| && WatchOk(store + [c], l, w)
    ensures ListOk(store + [c], l, list + [w])
  {
    StoreGrows(store, c, l, list);
  }

  lemma InsertedListOk(s: State, lits: seq<int>, l: int)
    requires ListsOk(s.store, s.watchers) && |lits| >= 2 && lits[0] != lits[1]
    ensures ListOk(Inserted(s, lits).store, l, ListOf(Inserted(s, lits).watchers, l))
  {
    var id, t, c := |s.store|, Inserted(s, lits), CheckerClause(lits, false);
    var before, after := ListOf(s.watchers, l), ListOf(t.watchers, l);
    assert ListOk(s.store, l, before);
    if l == lits[0] {
      assert after == before + [Watch(lits[1], |lits|, id)];
      ListGrows(s.store, c, l, before, Watch(lits[1], |lits|, id));
    } else if l == lits[1] {
      assert after == before + [Watch(lits[0], |lits|, id)];
      ListGrows(s.store, c, l, before, Watch(lits[0], |lits|, id));
    } else {
      assert after == before;
      StoreGrows(s.store, c, l, before);
    }
  }

  lemma InsertedAttached(s: State, lits: seq<int>, d: nat)
    requires ListsOk(s.store, s.watchers) && |lits| >= 2 && lits[0] != lits[1] && d <= |s.store|
    ensures ClauseAttached(Inserted(s, lits).store, Inserted(s, lits).watchers, d)
  {
    var id, t := |s.store|, Inserted(s, lits);
    var one := s.watchers[lits[0] := ListOf(s.watchers, lits[0]) + [Watch(lits[1], |lits|, id)]];
    if d == id {
      assert ListOf(t.watchers, lits[0])[|ListOf(s.watchers, lits[0])|].clause == id;
      assert ListOf(t.watchers, lits[1])[|ListOf(s.watchers, lits[1])|].clause == id;
    } else {
      assert ClauseAttached(s.store, s.watchers, d);
      if !s.store[d].garbage {
        var x, y := s.store[d].lits[0], s.store[d].lits[1];
        StillAttachedPush(s.watchers, lits[0], Watch(lits[1], |lits|, id), d, x);
        StillAttachedPush(s.watchers, lits[0], Watch(lits[1], |lits|, id), d, y);
        StillAttachedPush(one, lits[1], Watch(lits[0], |lits|, id), d, x);
        StillAttachedPush(one, lits[1], Watch(lits[0], |lits|, id), d, y);
      }
    }
  }

  lemma InsertKeeps(formula: seq<seq<int>>, s: State, lits: seq<int>)
    requires Base(formula, [], [], s) && Propagated(s) && Implied(formula, lits) && ClauseOk(CheckerClause(lits, false))
    requires -lits[0] !in s.trail && -lits[1] !in s.trail
    ensures Base(formula, [], [], Inserted(s, lits)) && Propagated(Inserted(s, lits))
  {
    var t := Inserted(s, lits);
    forall l
      ensures ListOk(t.store, l, ListOf(t.watchers, l))
    {
      InsertedListOk(s, lits, l);
    }
    forall d | 0 <= d < |t.store|
      ensures ClauseAttached(t.store, t.watchers, d)
    {
      InsertedAttached(s, lits, d);
    }
    forall id | 0 <= id < |t.store|
      ensures ClauseOk(t.store[id]) && Implied(formula, t.store[id].lits)
      ensures QuietClause(t.store[id], s.trail, s.trail[..s.next]) && QuietClause(t.store[id], [], [])
    {
      if id < |s.store| {
        assert QuietClause(s.store[id], s.trail, s.trail[..s.next]) && QuietClause(s.store[id], [], []);
      }
    }
  }

  function Trashed(store: seq<CheckerClause>, id: nat): seq<CheckerClause>
    requires id < |store|
  {
    store[id := store[id].(garbage := true)]
  }

  lemma TrashedLists(store: seq<CheckerClause>, watchers: map<int, seq<Watch>>, id: nat)
    requires ListsOk(store, watchers) && id < |store|
    ensures ListsOk(Trashed(store, id), watchers)
  {
    var store' := Trashed(store, id);
    forall l
      ensures ListOk(store', l, ListOf(watchers, l))
    {
      assert ListOk(store, l, ListOf(watchers, l));
      forall k | 0 <= k < |ListOf(watchers, l)|
        ensures WatchOk(store', l, ListOf(watchers, l)[k])
      {
        assert WatchOk(store, l, ListOf(watchers, l)[k]);
      }
    }
    forall d | 0 <= d < |store'|
      ensures ClauseAttached(store', watchers, d)
    {
      assert ClauseAttached(store, watchers, d);
    }
  }

  lemma TrashedQuiet(store: seq<CheckerClause>, id: nat, trail: seq<int>, seen: seq<int>)
    requires Quiet(store, trail, seen) && id < |store|
    ensures Quiet(Trashed(store, id), trail, seen)
  {
    var store' := Trashed(store, id);
    forall d | 0 <= d < |store'|
      ensures QuietClause(store'[d], trail, seen)
    {
      assert QuietClause(store[d], trail, seen);
    }
  }

  // A deleted clause stays behind as garbage.
  lemma GarbageKeeps(formula: seq<seq<int>>, s: State, id: nat)
    requires Base(formula, [], [], s) && Propagated(s) && id < |s.store|
    ensures Base(formula, [], [], s.(store := Trashed(s.store, id))) && Propagated(s.(store := Trashed(s.store, id)))
  {
    TrashedLists(s.store, s.watchers, id);
    TrashedQuiet(s.store, id, [], []);
    TrashedQuiet(s.store, id, s.trail, s.trail[..s.next]);
    var store' := Trashed(s.store, id);
    forall d | 0 <= d < |store'|
      ensures ClauseOk(store'[d]) && Implied(formula, store'[d].lits)
    {
      assert ClauseOk(s.store[d]);
    }
  }

  // The formula may grow.
  lemma FormulaGrows(formula: seq<seq<int>>, c: seq<int>, assumed: seq<int>, root: seq<int>, s: State)
    requires Base(formula, assumed, root, s)
    ensures Base(formula + [c], assumed, root, s)
  {
    ClausesSnoc(formula, c);
    forall id | 0 <= id < |s.store|
      ensures Implied(formula + [c], s.store[id].lits)
    {
      assert Implied(formula, s.store[id].lits);
    }
  }

  // At a fixpoint the whole trail may serve as the root of assumptions.
  lemma AssumeMore(formula: seq<seq<int>>, s: State, assumed: seq<int>)
    requires Base(formula, [], [], s) && Propagated(s) && s.next == |s.trail|
    ensures Base(formula, assumed, s.trail, s)
  {
    assert s.trail[..s.next] == s.trail;
    forall a | ClausesSat(formula, a) && AllHold(assumed, a)
      ensures AllHold(s.trail, a)
    {
      assert AllHold([], a);
    }
  }

  // Sizes are kept by what propagation does.
  lemma SizedPermuted(s: State, size: nat, id: nat, lits: seq<int>)
    requires Sized(s, size) && id < |s.store| && Permuted(s.store[id].lits, lits)
    ensures Sized(WithLits(s, id, lits), size)
  {
  }

  lemma SizedAssigned(s: State, size: nat, l: int)
    requires Sized(s, size) && Abs(l) < size
    ensures Sized(WithAssigned(s, l), size)
  {
  }

  lemma ClauseAt(formula: seq<seq<int>>, assumed: seq<int>, root: seq<int>, s: State, id: nat)
    requires Base(formula, assumed, root, s) && id < |s.store|
    ensures ClauseOk(s.store[id]) && Implied(formula, s.store[id].lits)
  {
  }

  lemma WatchAt(formula: seq<seq<int>>, assumed: seq<int>, root: seq<int>, s: State, f: int, i: nat)
    requires Base(formula, assumed, root, s) && i < |ListOf(s.watchers, f)|
    ensures WatchOk(s.store, f, ListOf(s.watchers, f)[i])
  {
    assert ListOk(s.store, f, ListOf(s.watchers, f));
  }

  // The two literals of a watched binary clause, one of them false.
  lemma BinaryWatch(formula: seq<seq<int>>, assumed: seq<int>, root: seq<int>, s: State, f: int, i: nat)
    requires Base(formula, assumed, root, s) && Visiting(s, f, i) && i < |ListOf(s.watchers, f)| && ListOf(s.watchers, f)[i].size == 2
    ensures var w := ListOf(s.watchers, f)[i];
      && w.clause < |s.store| && w.blit != 0 && Implied(formula, s.store[w.clause].lits)
      && (forall k :: 0 <= k < |s.store[w.clause].lits| && s.store[w.clause].lits[k] != w.blit ==>
            s.store[w.clause].lits[k] != 0 && -s.store[w.clause].lits[k] in s.trail)
      && (Val(s.vals, w.blit) < 0 ==> -w.blit in s.trail)
      && (w.blit in s.store[w.clause].lits && forall t :: w.blit in t ==> SatBy(s.store[w.clause].lits, t))
  {
    var w := ListOf(s.watchers, f)[i];
    WatchAt(formula, assumed, root, s, f, i);
    ClauseAt(formula, assumed, root, s, w.clause);
    var lits := s.store[w.clause].lits;
    assert s.trail[s.next - 1] in s.trail;
    assert lits[0] in lits && lits[1] in lits;
    var k :| 0 <= k < |lits| && lits[k] == w.blit;
    forall t | w.blit in t
      ensures SatBy(lits, t)
    {
      assert lits[k] in t;
    }
  }

  // A longer clause that is not garbage is watched by its first two literals.
  lemma LongWatch(formula: seq<seq<int>>, assumed: seq<int>, root: seq<int>, s: State, f: int, i: nat)
    requires Base(formula, assumed, root, s) && i < |ListOf(s.watchers, f)| && ListOf(s.watchers, f)[i].size != 2
    requires ListOf(s.watchers, f)[i].clause < |s.store| && !s.store[ListOf(s.watchers, f)[i].clause].garbage
    ensures var lits := s.store[ListOf(s.watchers, f)[i].clause].lits;
      && |lits| > 2 && (lits[0] == f || lits[1] == f) && lits[0] != lits[1] && lits[0] in lits && lits[1] in lits
  {
    WatchAt(formula, assumed, root, s, f, i);
    ClauseAt(formula, assumed, root, s, ListOf(s.watchers, f)[i].clause);
  }

  lemma TrueSatisfies(formula: seq<seq<int>>, assumed: seq<int>, root: seq<int>, s: State, id: nat, l: int)
    requires Base(formula, assumed, root, s) && id < |s.store| && l in s.store[id].lits && Val(s.vals, l) > 0
    ensures SatBy(s.store[id].lits, s.trail)
  {
    assert l in s.trail;
    var k :| 0 <= k < |s.store[id].lits| && s.store[id].lits[k] == l;
  }

  lemma RestFalse(formula: seq<seq<int>>, assumed: seq<int>, root: seq<int>, s: State, f: int, i: nat, id: nat)
    requires Base(formula, assumed, root, s) && Visiting(s, f, i) && id < |s.store| && |s.store[id].lits| > 2 && s.store[id].lits[1] == f
    requires forall j :: 2 <= j < |s.store[id].lits| ==> Val(s.vals, s.store[id].lits[j]) < 0
    ensures var lits := s.store[id].lits;
      && lits[0] != 0 && (Val(s.vals, lits[0]) < 0 ==> -lits[0] in s.trail) && Implied(formula, lits)
      && forall j :: 0 <= j < |lits| && lits[j] != lits[0] ==> lits[j] != 0 && -lits[j] in s.trail
  {
    ClauseAt(formula, assumed, root, s, id);
    assert s.trail[s.next - 1] in s.trail;
  }

  // ... so it is forced, or the clause is a conflict.
  lemma RestDecides(formula: seq<seq<int>>, assumed: seq<int>, root: seq<int>, s: State, f: int, i: nat, id: nat)
    requires Base(formula, assumed, root, s) && Visiting(s, f, i) && id < |s.store| && |s.store[id].lits| > 2 && s.store[id].lits[1] == f
    requires forall j :: 2 <= j < |s.store[id].lits| ==> Val(s.vals, s.store[id].lits[j]) < 0
    ensures var other := s.store[id].lits[0];
      && other != 0 && other in s.store[id].lits && Forces(formula, assumed, [other])
      && (Val(s.vals, other) < 0 ==> Refutes(formula, assumed))
  {
    var lits := s.store[id].lits;
    RestFalse(formula, assumed, root, s, f, i, id);
    TrailForced(formula, assumed, root, s);
    UnitForced(formula, assumed, s.trail, lits, lits[0]);
    if Val(s.vals, lits[0]) < 0 {
      FalseRefutes(formula, assumed, s.trail, lits);
    }
  }

  lemma TrailForced(formula: seq<seq<int>>, assumed: seq<int>, root: seq<int>, s: State)
    requires Base(formula, assumed, root, s)
    ensures Forces(formula, assumed, s.trail)
  {
  }

  lemma NextOk(formula: seq<seq<int>>, assumed: seq<int>, root: seq<int>, s: State, size: nat)
    requires Base(formula, assumed, root, s) && Sized(s, size) && s.next < |s.trail|
    ensures Base(formula, assumed, root, s.(next := s.next + 1)) && Sized(s.(next := s.next + 1), size)
  {
  }
}
