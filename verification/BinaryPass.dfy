/** `preprocess_binary`: equivalences and fixed literals found in pairs of
    binary clauses go into a signed union-find, clauses are rewritten to roots. */
module BinaryPass {
  import opened Knf
  import opened Elimination
  import opened RecoveryLog
  import opened UnitPropagation
  import opened SignedUnionFind

  const MAXIMUM_CLAUSES := 10000000
  const MAXIMUM_TURNS := 16
  const MAXIMUM_CLAUSE_ROUNDS := 32000000

  datatype Action = Relation(first: int, second: int, value: int) | Fixed(first: int, value: int)

  function Key(x: int, y: int): (int, int) {
    if y < x then (y, x) else (x, y)
  }

  function RelationAction(x: int, y: int): Action {
    var first, second := if Abs(y) < Abs(x) then Abs(y) else Abs(x), if Abs(y) < Abs(x) then Abs(x) else Abs(y);
    Relation(first, second, -Sign(x) * Sign(y))
  }

  function FixedAction(x: int): Action {
    Fixed(Abs(x), Sign(x))
  }

  ghost predicate ActionHolds(act: Action, a: Assignment) {
    match act
    case Relation(first, second, value) => Sgn(a, first) == value * Sgn(a, second)
    case Fixed(first, value) => Sgn(a, first) == value
  }

  ghost predicate AllActions(actions: set<Action>, a: Assignment) {
    forall act :: act in actions ==> ActionHolds(act, a)
  }

  // is_safe: native cardinality variables are left alone.
  predicate IsSafe(act: Action, inCard: seq<bool>) {
    match act
    case Relation(first, second, value) =>
      1 <= first < |inCard| && 1 <= second < |inCard| && !inCard[first] && !inCard[second]
    case Fixed(first, value) => 1 <= first < |inCard| && !inCard[first]
  }

  ghost predicate ActionOk(act: Action, inCard: seq<bool>) {
    IsSafe(act, inCard) && IsSign(act.value)
  }

  predicate BinaryClause(r: Row) {
    r.degree == 1 && |r.lits| == 2
  }

  ghost predicate Covers(act: Action, r: Row) {
    forall a :: ActionHolds(act, a) ==> RowSat(r, a)
  }

  ghost predicate FollowsFrom(act: Action, x: Row, y: Row) {
    forall a :: RowSat(x, a) && RowSat(y, a) ==> ActionHolds(act, a)
  }

  lemma HoldsSgn(l: int, a: Assignment)
    requires l != 0
    ensures Holds(l, a) <==> Sgn(a, Abs(l)) == Sign(l)
  {
  }

  lemma PairSat(r: Row, a: Assignment)
    requires BinaryClause(r)
    ensures RowSat(r, a) <==> Holds(r.lits[0], a) || Holds(r.lits[1], a)
  {
    assert r.lits == [r.lits[0]] + [r.lits[1]];
    CountSnoc([r.lits[0]], r.lits[1], a);
    CountSnoc([], r.lits[0], a);
    assert [] + [r.lits[0]] == [r.lits[0]];
  }

  // Two rows whose keys say they hold the same two literals.
  ghost predicate SamePair(r: Row, x: int, y: int) {
    BinaryClause(r) && Key(r.lits[0], r.lits[1]) == Key(x, y)
  }

  lemma SamePairSat(r: Row, x: int, y: int, a: Assignment)
    requires SamePair(r, x, y)
    ensures RowSat(r, a) <==> Holds(x, a) || Holds(y, a)
  {
    PairSat(r, a);
  }

  // (x or y) and (-x or -y) together say that x and y are complementary.
  lemma RelationFound(r: Row, w: Row, x: int, y: int)
    requires x != 0 && y != 0 && SamePair(r, x, y) && SamePair(w, -x, -y)
    ensures FollowsFrom(RelationAction(x, y), r, w)
    ensures Covers(RelationAction(x, y), r) && Covers(RelationAction(x, y), w)
  {
    forall a: Assignment
      ensures RowSat(r, a) && RowSat(w, a) <==> ActionHolds(RelationAction(x, y), a)
    {
      SamePairSat(r, x, y, a);
      SamePairSat(w, -x, -y, a);
      HoldsSgn(x, a);
      HoldsSgn(y, a);
    }
  }

  // (x or y) and (x or -y) together say x.
  lemma FixedFound(r: Row, w: Row, x: int, y: int)
    requires x != 0 && y != 0 && SamePair(r, x, y) && SamePair(w, x, -y)
    ensures FollowsFrom(FixedAction(x), r, w)
    ensures Covers(FixedAction(x), r) && Covers(FixedAction(x), w)
  {
    forall a: Assignment
      ensures RowSat(r, a) && RowSat(w, a) <==> ActionHolds(FixedAction(x), a)
    {
      SamePairSat(r, x, y, a);
      SamePairSat(w, x, -y, a);
      HoldsSgn(x, a);
    }
  }

  ghost predicate RowFine(r: Row, vars: int) {
    DistinctVars(r.lits) && VarsIn(r.lits, vars) && 1 <= r.degree <= |r.lits|
  }

  ghost predicate LiveFine(rows: seq<Row>, deleted: seq<bool>, vars: int) {
    |rows| == |deleted| && forall i :: 0 <= i < |rows| && !deleted[i] ==> RowFine(rows[i], vars)
  }

  // A row whose variables are roots without a value.
  ghost predicate Rooted(r: Row, rep: seq<int>, fixed: seq<int>) {
    |rep| == |fixed| && forall j :: 0 <= j < |r.lits| ==>
      1 <= Abs(r.lits[j]) < |rep| && rep[Abs(r.lits[j])] == Abs(r.lits[j]) && fixed[Abs(r.lits[j])] == 0
  }

  ghost predicate LiveRooted(rows: seq<Row>, deleted: seq<bool>, rep: seq<int>, fixed: seq<int>)
    requires |rows| == |deleted|
  {
    forall i :: 0 <= i < |rows| && !deleted[i] ==> Rooted(rows[i], rep, fixed)
  }

  // The original rows say what the union-find and the live rows say.
  ghost predicate Meaning(original: seq<Row>, rows: seq<Row>, deleted: seq<bool>,
                          rep: seq<int>, par: seq<int>, fixed: seq<int>)
    requires |rows| == |deleted| && |rep| == |par| == |fixed|
  {
    forall a {:trigger RowsSat(original, a)} {:trigger LiveSat(rows, deleted, a)} ::
      RowsSat(original, a) <==> Represents(rep, par, fixed, a) && LiveSat(rows, deleted, a)
  }

  ghost predicate CardRows(rows: seq<Row>, deleted: seq<bool>, inCard: seq<bool>)
    requires |rows| == |deleted|
  {
    forall i, j :: 0 <= i < |rows| && !deleted[i] && rows[i].degree > 1 && 0 <= j < |rows[i].lits| ==>
      1 <= Abs(rows[i].lits[j]) < |inCard| && inCard[Abs(rows[i].lits[j])]
  }

  ghost predicate CardsUntouched(inCard: seq<bool>, rep: seq<int>, fixed: seq<int>) {
    |inCard| == |rep| == |fixed| && forall v :: 1 <= v < |inCard| && inCard[v] ==> Untouched(rep, fixed, v)
  }

  // The state of the pass between its turns.
  datatype Table = Table(rows: seq<Row>, deleted: seq<bool>, rep: seq<int>, par: seq<int>, fixed: seq<int>)

  // The next literal of a clause: a fixed one goes, another becomes its
  // signed root, once.
  function MapStep(out: seq<int>, l: int, rep: seq<int>, par: seq<int>, fixed: seq<int>): seq<int>
    requires |rep| == |par| == |fixed| && Abs(l) < |rep|
  {
    var root := rep[Abs(l)];
    var mapped := Sign(l) * par[Abs(l)] * root;
    if !(0 <= root < |fixed|) || fixed[root] != 0 || mapped in out then out else out + [mapped]
  }

  // It ends the clause: it is true, or clashes.
  ghost predicate EndsClause(out: seq<int>, l: int, rep: seq<int>, par: seq<int>, fixed: seq<int>)
    requires |rep| == |par| == |fixed| && Abs(l) < |rep|
  {
    var root, sign := rep[Abs(l)], Sign(l) * par[Abs(l)];
    0 <= root < |fixed| && if fixed[root] != 0 then fixed[root] == sign else -(sign * root) in out
  }

  function MapLits(lits: seq<int>, rep: seq<int>, par: seq<int>, fixed: seq<int>): seq<int>
    requires |rep| == |par| == |fixed| && VarsIn(lits, |rep| - 1)
  {
    if lits == [] then []
    else
      var n := |lits| - 1;
      MapStep(MapLits(lits[..n], rep, par, fixed), lits[n], rep, par, fixed)
  }

  ghost predicate EndsSome(lits: seq<int>, rep: seq<int>, par: seq<int>, fixed: seq<int>)
    requires |rep| == |par| == |fixed| && VarsIn(lits, |rep| - 1)
  {
    exists j :: 0 <= j < |lits| && EndsClause(MapLits(lits[..j], rep, par, fixed), lits[j], rep, par, fixed)
  }

  lemma EndsMore(lits: seq<int>, j: nat, rep: seq<int>, par: seq<int>, fixed: seq<int>)
    requires |rep| == |par| == |fixed| && VarsIn(lits, |rep| - 1) && j < |lits|
    ensures MapLits(lits[..j + 1], rep, par, fixed) == MapStep(MapLits(lits[..j], rep, par, fixed), lits[j], rep, par, fixed)
    ensures EndsSome(lits[..j + 1], rep, par, fixed) <==>
      EndsSome(lits[..j], rep, par, fixed) || EndsClause(MapLits(lits[..j], rep, par, fixed), lits[j], rep, par, fixed)
    ensures EndsSome(lits[..j + 1], rep, par, fixed) ==> EndsSome(lits, rep, par, fixed)
  {
    var more := lits[..j + 1];
    assert more[..j] == lits[..j];
    forall k | 0 <= k <= j
      ensures more[..k] == lits[..k] && (k < j ==> lits[..j][..k] == lits[..k])
    {
    }
  }

  // The literals have been mapped to `out`, or one of them ends the clause.
  ghost predicate Mapped(lits: seq<int>, done: bool, out: seq<int>, rep: seq<int>, par: seq<int>, fixed: seq<int>) {
    true == (
      && |rep| == |par| == |fixed| && VarsIn(lits, |rep| - 1)
      && done == EndsSome(lits, rep, par, fixed) && (!done ==> out == MapLits(lits, rep, par, fixed)))
  }

  // That keeps the clause's meaning.
  ghost predicate SameMeaning(lits: seq<int>, done: bool, out: seq<int>, rep: seq<int>, par: seq<int>, fixed: seq<int>) {
    true == (
      && |rep| == |par| == |fixed|
      && forall a :: Represents(rep, par, fixed, a) ==> (Count(lits, a) >= 1 <==> done || Count(out, a) >= 1))
  }

  lemma MappedMore(lits: seq<int>, j: nat, out: seq<int>, done: bool, next: seq<int>, rep: seq<int>, par: seq<int>, fixed: seq<int>)
    requires j < |lits| && VarsIn(lits, |rep| - 1)
    requires Mapped(lits[..j], false, out, rep, par, fixed) && SameMeaning(lits[..j], false, out, rep, par, fixed)
    requires done <==> EndsClause(out, lits[j], rep, par, fixed)
    requires !done ==> next == MapStep(out, lits[j], rep, par, fixed)
    requires !done ==> forall a :: Represents(rep, par, fixed, a) ==> (Count(next, a) >= 1 <==> Count(out, a) >= 1 || Holds(lits[j], a))
    requires done ==> forall a :: Represents(rep, par, fixed, a) ==> Count(out, a) >= 1 || Holds(lits[j], a)
    ensures if done then Mapped(lits, true, out, rep, par, fixed) && SameMeaning(lits, true, out, rep, par, fixed)
      else Mapped(lits[..j + 1], false, next, rep, par, fixed) && SameMeaning(lits[..j + 1], false, next, rep, par, fixed)
  {
    EndsMore(lits, j, rep, par, fixed);
    SomePrefix(lits, j);
  }

  lemma MappedRow(r: Row, done: bool, out: seq<int>, rep: seq<int>, par: seq<int>, fixed: seq<int>)
    requires Mapped(r.lits, done, out, rep, par, fixed)
    ensures RewrittenTo(r, if done then r else Row(out, 1), done, rep, par, fixed)
  {
  }

  // A live clause goes if it is satisfied, and else is rewritten to roots.
  ghost predicate RewrittenTo(r: Row, r': Row, gone: bool, rep: seq<int>, par: seq<int>, fixed: seq<int>) {
    true == (
      && |rep| == |par| == |fixed| && VarsIn(r.lits, |rep| - 1)
      && gone == EndsSome(r.lits, rep, par, fixed)
      && r' == if gone then r else Row(MapLits(r.lits, rep, par, fixed), 1))
  }

  ghost predicate RowTurned(r: Row, d: bool, r': Row, d': bool, rep: seq<int>, par: seq<int>, fixed: seq<int>) {
    if d || r.degree > 1 then r' == r && d' == d else RewrittenTo(r, r', d', rep, par, fixed)
  }

  // The first n rows are rewritten, the others as before.
  ghost predicate RewrittenUpTo(rows: seq<Row>, deleted: seq<bool>, rows': seq<Row>, deleted': seq<bool>,
                                rep: seq<int>, par: seq<int>, fixed: seq<int>, n: int, changed: bool) {
    true == (
      && |rows| == |deleted| == |rows'| == |deleted'|
      && (changed <==> rows' != rows || deleted' != deleted)
      && forall i :: 0 <= i < |rows| ==>
           if i < n then RowTurned(rows[i], deleted[i], rows'[i], deleted'[i], rep, par, fixed)
           else rows'[i] == rows[i] && deleted'[i] == deleted[i])
  }

  lemma RewrittenMore(rows0: seq<Row>, deleted0: seq<bool>, r: seq<Row>, d: seq<bool>, rows: seq<Row>, deleted: seq<bool>,
                      rep: seq<int>, par: seq<int>, fixed: seq<int>, id: nat, known: bool, changed: bool)
    requires RewrittenUpTo(rows0, deleted0, r, d, rep, par, fixed, id, known) && id < |r| == |rows| == |deleted|
    requires changed <==> rows != r || deleted != d
    requires rows == r[id := rows[id]] && deleted == d[id := deleted[id]]
    requires RowTurned(r[id], d[id], rows[id], deleted[id], rep, par, fixed)
    ensures RewrittenUpTo(rows0, deleted0, rows, deleted, rep, par, fixed, id + 1, known || changed)
  {
    if changed {
      assert rows[id] != r[id] || deleted[id] != d[id];
      assert r[id] == rows0[id] && d[id] == deleted0[id];
    } else {
      assert rows == r && deleted == d;
    }
    if known {
      ChangedBefore(rows0, deleted0, r, d, rep, par, fixed, id, known);
    }
  }

  // What has changed lies in the part that has been rewritten.
  lemma ChangedBefore(rows0: seq<Row>, deleted0: seq<bool>, r: seq<Row>, d: seq<bool>,
                      rep: seq<int>, par: seq<int>, fixed: seq<int>, n: int, known: bool)
    requires RewrittenUpTo(rows0, deleted0, r, d, rep, par, fixed, n, known) && known
    ensures exists i :: 0 <= i < n && i < |r| == |d| == |rows0| == |deleted0| && (r[i] != rows0[i] || d[i] != deleted0[i])
  {
  }

  // All actions of safe patterns hold.
  ghost predicate PatternsHold(rows: seq<Row>, deleted: seq<bool>, inCard: seq<bool>, a: Assignment) {
    forall i, w, act :: Pattern(rows, deleted, inCard, i, w, act) ==> ActionHolds(act, a)
  }

  ghost predicate Witness(rows: seq<Row>, deleted: seq<bool>, inCard: seq<bool>, i: int) {
    exists w, act :: Pattern(rows, deleted, inCard, i, w, act)
  }

  // The actions are those of all safe patterns, and the marked rows those that
  // take part in one.
  ghost predicate AllFound(rows: seq<Row>, deleted: seq<bool>, inCard: seq<bool>, actions: set<Action>, drop: seq<bool>) {
    true == (
      && |drop| == |rows|
      && (forall act :: act in actions ==> exists i, w :: Pattern(rows, deleted, inCard, i, w, act))
      && (forall i, w, act :: Pattern(rows, deleted, inCard, i, w, act) ==> act in actions)
      && (forall i :: 0 <= i < |rows| ==> (drop[i] <==> Witness(rows, deleted, inCard, i))))
  }

  // The actions of all patterns are added to the union-find, and the rows of
  // patterns deleted.
  ghost predicate Performed(inCard: seq<bool>, s: Table, t: Table) {
    true == (
      && |s.rep| == |s.par| == |s.fixed| && |t.rep| == |t.par| == |t.fixed| && |s.deleted| == |t.deleted| == |s.rows|
      && t.rows == s.rows
      && (forall a :: Represents(t.rep, t.par, t.fixed, a) <==>
           Represents(s.rep, s.par, s.fixed, a) && PatternsHold(s.rows, s.deleted, inCard, a))
      && forall i :: 0 <= i < |s.rows| ==> t.deleted[i] == (s.deleted[i] || Witness(s.rows, s.deleted, inCard, i)))
  }

  // One whole turn: then all clauses left are rewritten.
  ghost predicate OneTurn(inCard: seq<bool>, s: Table, t: Table) {
    exists m :: Performed(inCard, s, m) && m.rep == t.rep && m.par == t.par && m.fixed == t.fixed &&
      RewrittenUpTo(m.rows, m.deleted, t.rows, t.deleted, t.rep, t.par, t.fixed, |m.rows|, m != t)
  }

  lemma TurnDone(inCard: seq<bool>, s: Table, m: Table, t: Table, changed: bool)
    requires Performed(inCard, s, m) && m.rep == t.rep && m.par == t.par && m.fixed == t.fixed
    requires RewrittenUpTo(m.rows, m.deleted, t.rows, t.deleted, t.rep, t.par, t.fixed, |m.rows|, changed)
    ensures OneTurn(inCard, s, t)
  {
  }

  // Tables one turn apart, each of which changes something.
  ghost predicate Turned(inCard: seq<bool>, trace: seq<Table>) {
    |trace| >= 1 && forall k :: 0 <= k < |trace| - 1 ==> OneTurn(inCard, trace[k], trace[k + 1]) && trace[k] != trace[k + 1]
  }

  ghost predicate RunTrace(inCard: seq<bool>, trace: seq<Table>, first: Table, last: Table, changed: bool) {
    true == (Turned(inCard, trace) && trace[0] == first && trace[|trace| - 1] == last && (changed <==> |trace| > 1))
  }

  lemma RunTraceMore(inCard: seq<bool>, trace: seq<Table>, first: Table, last: Table, next: Table, changed: bool)
    requires RunTrace(inCard, trace, first, last, changed) && OneTurn(inCard, last, next) && last != next
    ensures RunTrace(inCard, trace + [next], first, next, true)
  {
    var more := trace + [next];
    forall k | 0 <= k < |more| - 1
      ensures OneTurn(inCard, more[k], more[k + 1]) && more[k] != more[k + 1]
    {
      if k < |trace| - 1 {
        assert more[k] == trace[k] && more[k + 1] == trace[k + 1];
      }
    }
  }

  lemma AllPerformed(inCard: seq<bool>, s: Table, t: Table, actions: set<Action>, drop: seq<bool>)
    requires |drop| == |s.rows| == |s.deleted| == |t.deleted| && t.rows == s.rows
    requires |s.rep| == |s.par| == |s.fixed| && |t.rep| == |t.par| == |t.fixed|
    requires AllFound(s.rows, s.deleted, inCard, actions, drop)
    requires forall a :: Represents(t.rep, t.par, t.fixed, a) <==> Represents(s.rep, s.par, s.fixed, a) && AllActions(actions, a)
    requires forall i :: 0 <= i < |s.rows| ==> t.deleted[i] == (s.deleted[i] || drop[i])
    ensures Performed(inCard, s, t)
    ensures s == t ==> NoPattern(s.rows, s.deleted, inCard)
  {
    forall a: Assignment
      ensures AllActions(actions, a) <==> PatternsHold(s.rows, s.deleted, inCard, a)
    {
      if PatternsHold(s.rows, s.deleted, inCard, a) {
        forall act | act in actions
          ensures ActionHolds(act, a)
        {
          var i, w :| Pattern(s.rows, s.deleted, inCard, i, w, act);
        }
      }
    }
  }

  lemma ChangedTable(s: Table, t: Table, merged: bool, dropped: bool)
    requires |s.rep| == |s.par| == |s.fixed| && |t.rep| == |t.par| == |t.fixed| && t.rows == s.rows
    requires if merged then Slack(t.rep, t.fixed) < Slack(s.rep, s.fixed) else t.(deleted := s.deleted) == s
    requires dropped <==> t.deleted != s.deleted
    ensures merged || dropped <==> t != s
  {
  }

  class Binary {
    const vars: nat
    const uf: UnionFind
    ghost const original: seq<Row>
    var rows: seq<Row>
    var deleted: seq<bool>
    var inCard: seq<bool>
    var resseen: seq<int>

    ghost predicate Valid()
      reads this, uf, uf.f, uf.val
    {
      && uf.Valid() && uf.vars == vars
      && LiveFine(rows, deleted, vars) && CardRows(rows, deleted, inCard)
      && CardsUntouched(inCard, uf.rep, uf.varval) && (forall v :: 1 <= v <= vars && inCard[v] ==> CardVariable(original, v))
      && Meaning(original, rows, deleted, uf.rep, uf.par, uf.varval)
      && MarksOf(resseen, [], vars)
    }

    constructor (rows: seq<Row>, vars: nat)
      requires forall i :: 0 <= i < |rows| ==> RowFine(rows[i], vars)
      ensures this.vars == vars && original == rows && this.rows == rows && deleted == NoneDeleted(|rows|)
      ensures fresh(uf) && fresh(uf.f) && fresh(uf.val)
      ensures Valid()
    {
      var inCard' := MarkCardinality(rows, vars);
      this.vars := vars;
      uf := new UnionFind(vars);
      original := rows;
      this.rows, deleted := rows, NoneDeleted(|rows|);
      inCard := inCard';
      resseen := Repeat(0, 2 * vars);
    }

    ghost function Now(): Table
      reads this, uf
    {
      Table(rows, deleted, uf.rep, uf.par, uf.varval)
    }

    // The hash index: the first live binary clause for each pair of literals.
    method BuildIndex() returns (index: map<(int, int), nat>)
      requires Valid()
      ensures IndexOk(index, rows, deleted) && Indexed(index, rows, deleted, |rows|)
    {
      index := map[];
      for id := 0 to |rows|
        invariant IndexOk(index, rows, deleted) && Indexed(index, rows, deleted, id)
      {
        if !deleted[id] && BinaryClause(rows[id]) {
          var key := Key(rows[id].lits[0], rows[id].lits[1]);
          if key !in index {
            index := index[key := id];
          }
        }
      }
    }

    // record_action
    method RecordAction(act: Action, id: nat, other: nat, actions: set<Action>, drop: seq<bool>)
        returns (actions': set<Action>, drop': seq<bool>)
      requires id < |drop| && other < |drop|
      ensures id == other || !IsSafe(act, inCard) ==> actions' == actions && drop' == drop
      ensures id != other && IsSafe(act, inCard) ==> actions' == actions + {act} && drop' == drop[id := true][other := true]
    {
      actions', drop' := actions, drop;
      if id != other && IsSafe(act, inCard) {
        drop' := drop'[id := true][other := true];
        actions' := actions + {act};
      }
    }

    // One lookup: if some live row holds the pair (x, y), the action is
    // recorded for it and row id.
    method LookupAndRecord(index: map<(int, int), nat>, x: int, y: int, act: Action, id: nat, ghost n: nat,
                           actions: set<Action>, drop: seq<bool>)
        returns (actions': set<Action>, drop': seq<bool>)
      requires IndexOk(index, rows, deleted) && Indexed(index, rows, deleted, |rows|)
      requires id < |rows| && !deleted[id] && RowFine(rows[id], vars)
      requires Targets(rows, id, x, y, act)
      requires FoundUpTo(rows, deleted, inCard, n, actions, drop)
      ensures FoundUpTo(rows, deleted, inCard, n, actions', drop') && actions <= actions' && |drop'| == |drop| && (drop[id] ==> drop'[id])
      ensures LookedUp(rows, deleted, inCard, x, y, act, actions', drop'[id])
    {
      actions', drop' := actions, drop;
      if Key(x, y) in index {
        var other := index[Key(x, y)];
        assert SamePair(rows[other], x, y);
        YieldsBoth(rows[id], rows[other], act);
        actions', drop' := RecordAction(act, id, other, actions, drop);
        if IsSafe(act, inCard) {
          FoundMore(rows, deleted, inCard, n, actions, drop, id, other, act);
        }
      }
    }

    // Exactly the actions of safe patterns are found, and exactly the rows of
    // such patterns are marked for deletion.
    method CollectActions(index: map<(int, int), nat>) returns (actions: set<Action>, drop: seq<bool>)
      requires Valid() && IndexOk(index, rows, deleted) && Indexed(index, rows, deleted, |rows|)
      ensures |drop| == |rows| && ActionsOk(actions, drop, rows, deleted, inCard)
      ensures AllFound(rows, deleted, inCard, actions, drop)
    {
      actions, drop := {}, NoneDeleted(|rows|);
      for id := 0 to |rows|
        invariant FoundUpTo(rows, deleted, inCard, id, actions, drop)
      {
        if !deleted[id] && BinaryClause(rows[id]) {
          assert RowFine(rows[id], vars);
          actions, drop := CollectRow(index, id, actions, drop);
        } else {
          FoundNone(rows, deleted, inCard, id, actions, drop);
        }
      }
      FoundAll(rows, deleted, inCard, actions, drop);
      FoundOk(rows, deleted, inCard, vars, actions, drop);
    }

    // The three lookups for one binary clause.
    method CollectRow(index: map<(int, int), nat>, id: nat, actions: set<Action>, drop: seq<bool>)
        returns (actions': set<Action>, drop': seq<bool>)
      requires IndexOk(index, rows, deleted) && Indexed(index, rows, deleted, |rows|)
      requires id < |rows| && !deleted[id] && BinaryClause(rows[id]) && RowFine(rows[id], vars)
      requires FoundUpTo(rows, deleted, inCard, id, actions, drop)
      ensures FoundUpTo(rows, deleted, inCard, id + 1, actions', drop')
    {
      var x, y := rows[id].lits[0], rows[id].lits[1];
      TargetsAll(rows, id);
      var actions1, drop1 := LookupAndRecord(index, -x, -y, RelationAction(x, y), id, id, actions, drop);
      var actions2, drop2 := LookupAndRecord(index, x, -y, FixedAction(x), id, id, actions1, drop1);
      actions', drop' := LookupAndRecord(index, -x, y, FixedAction(y), id, id, actions2, drop2);
      FoundRow(rows, deleted, inCard, id, actions1, drop1[id], actions2, drop2[id], actions', drop');
    }

    // Perform the actions, in whatever order they have been sorted.
    method PerformActions(actions: set<Action>) returns (ok: bool, changed: bool)
      requires uf.Valid() && uf.vars == vars && CardsUntouched(inCard, uf.rep, uf.varval)
      requires forall act :: act in actions ==> ActionOk(act, inCard)
      modifies uf, uf.f, uf.val
      ensures uf.Valid() && CardsUntouched(inCard, uf.rep, uf.varval)
      ensures ok ==> forall a :: Represents(uf.rep, uf.par, uf.varval, a) <==>
        old(Represents(uf.rep, uf.par, uf.varval, a)) && AllActions(actions, a)
      ensures !ok ==> forall a :: !(old(Represents(uf.rep, uf.par, uf.varval, a)) && AllActions(actions, a))
      ensures if changed then Slack(uf.rep, uf.varval) < old(Slack(uf.rep, uf.varval)) else Now() == old(Now())
    {
      ok, changed := true, false;
      var todo := actions;
      while todo != {} && ok
        invariant uf.Valid() && CardsUntouched(inCard, uf.rep, uf.varval)
        invariant todo <= actions
        invariant ok ==> forall a :: Represents(uf.rep, uf.par, uf.varval, a) <==>
          old(Represents(uf.rep, uf.par, uf.varval, a)) && AllActions(actions - todo, a)
        invariant !ok ==> forall a :: !(old(Represents(uf.rep, uf.par, uf.varval, a)) && AllActions(actions, a))
        invariant if changed then Slack(uf.rep, uf.varval) < old(Slack(uf.rep, uf.varval)) else Now() == old(Now())
        decreases todo
      {
        var act :| act in todo;
        ActionsStep(actions, todo, act);
        var c;
        ok, c := PerformAction(act);
        changed := changed || c;
        todo := todo - {act};
      }
      assert ok ==> actions - todo == actions;
    }

    method PerformAction(act: Action) returns (ok: bool, changed: bool)
      requires uf.Valid() && uf.vars == vars && CardsUntouched(inCard, uf.rep, uf.varval)
      requires ActionOk(act, inCard)
      modifies uf, uf.f, uf.val
      ensures uf.Valid() && CardsUntouched(inCard, uf.rep, uf.varval)
      ensures ok ==> forall a :: Represents(uf.rep, uf.par, uf.varval, a) <==>
        old(Represents(uf.rep, uf.par, uf.varval, a)) && ActionHolds(act, a)
      ensures !ok ==> forall a :: !(old(Represents(uf.rep, uf.par, uf.varval, a)) && ActionHolds(act, a))
      ensures if changed then Slack(uf.rep, uf.varval) < old(Slack(uf.rep, uf.varval)) else Now() == old(Now())
    {
      match act
      case Relation(first, second, value) =>
        ok, changed := uf.Unite(first, second, value);
      case Fixed(first, value) =>
        ok, changed := uf.AssignValue(first, value);
    }

    method DeleteWitnesses(drop: seq<bool>) returns (changed: bool)
      requires |rows| == |deleted| == |drop|
      modifies this`deleted
      ensures |deleted| == |rows|
      ensures forall i :: 0 <= i < |rows| ==> deleted[i] == (old(deleted)[i] || drop[i])
      ensures changed <==> deleted != old(deleted)
    {
      changed := false;
      for id := 0 to |rows|
        invariant |deleted| == |rows|
        invariant forall i :: 0 <= i < |rows| ==> deleted[i] == (old(deleted)[i] || (i < id && drop[i]))
        invariant if changed then exists i :: 0 <= i < |rows| && deleted[i] && !old(deleted)[i] else deleted == old(deleted)
      {
        if drop[id] && !deleted[id] {
          deleted := deleted[id := true];
          changed := true;
        }
      }
    }

    // One literal of a clause: drop it, keep its root, or end the clause.
    method MapLiteral(l: int, out: seq<int>) returns (done: bool, out': seq<int>)
      requires uf.Valid() && uf.vars == vars && 1 <= Abs(l) <= vars
      requires MarksOf(resseen, out, vars) && OutOk(out, uf.rep, uf.varval)
      modifies this`resseen, uf.f, uf.val
      ensures uf.Valid()
      ensures MarksOf(resseen, if done then out else out', vars)
      ensures !done ==> OutOk(out', uf.rep, uf.varval)
      ensures done <==> EndsClause(out, l, uf.rep, uf.par, uf.varval)
      ensures !done ==> out' == MapStep(out, l, uf.rep, uf.par, uf.varval)
      ensures !done ==> forall a :: Represents(uf.rep, uf.par, uf.varval, a) ==>
        (Count(out', a) >= 1 <==> Count(out, a) >= 1 || Holds(l, a))
      ensures done ==> forall a :: Represents(uf.rep, uf.par, uf.varval, a) ==> Count(out, a) >= 1 || Holds(l, a)
    {
      var root := uf.Find(Abs(l));
      var sign := Sign(l) * uf.val[Abs(l)];
      MappedSign(uf.rep, uf.par, uf.varval, l);
      done, out' := false, out;
      if uf.varval[root] != 0 {
        done := uf.varval[root] == sign;
      } else {
        var mapped := sign * root;
        NegativeToLit(mapped);
        MarksHave(resseen, out, vars, mapped);
        if resseen[ToLit(mapped)] != 0 {
          TrueMember(out, mapped);
        } else if resseen[Negative(ToLit(mapped))] != 0 {
          TrueMember(out, -mapped);
          done := true;
        } else {
          MarkNew(resseen, out, vars, mapped);
          resseen := resseen[ToLit(mapped) := 1];
          out' := out + [mapped];
          OutSnoc(out, mapped, uf.rep, uf.varval);
        }
      }
    }

    method ClearCodes(out: seq<int>)
      requires MarksOf(resseen, out, vars) && VarsIn(out, vars)
      modifies this`resseen
      ensures MarksOf(resseen, [], vars)
    {
      var j := 0;
      while j < |out|
        invariant 0 <= j <= |out| && |resseen| == 2 * vars
        invariant forall l {:trigger ToLit(l)} :: 1 <= Abs(l) <= vars ==>
          resseen[ToLit(l)] == ToInt(l in out && l !in out[..j])
      {
        assert out[..j + 1] == out[..j] + [out[j]];
        ToLitDistinct(vars);
        resseen := resseen[ToLit(out[j]) := 0];
        j := j + 1;
      }
      assert out[..j] == out;
    }

    // The literals of one clause, rewritten to unfixed roots.
    method RewriteLits(lits: seq<int>) returns (done: bool, out: seq<int>)
      requires uf.Valid() && uf.vars == vars && VarsIn(lits, vars) && MarksOf(resseen, [], vars)
      modifies this`resseen, uf.f, uf.val
      ensures uf.Valid() && MarksOf(resseen, [], vars)
      ensures !done ==> OutOk(out, uf.rep, uf.varval)
      ensures Mapped(lits, done, out, uf.rep, uf.par, uf.varval) && SameMeaning(lits, done, out, uf.rep, uf.par, uf.varval)
    {
      done, out := false, [];
      var j := 0;
      while j < |lits| && !done
        invariant 0 <= j <= |lits| && uf.Valid() && MarksOf(resseen, out, vars) && OutOk(out, uf.rep, uf.varval)
        invariant if done then Mapped(lits, true, out, uf.rep, uf.par, uf.varval) && SameMeaning(lits, true, out, uf.rep, uf.par, uf.varval)
          else Mapped(lits[..j], false, out, uf.rep, uf.par, uf.varval) && SameMeaning(lits[..j], false, out, uf.rep, uf.par, uf.varval)
        decreases |lits| - j
      {
        var next;
        done, next := MapLiteral(lits[j], out);
        MappedMore(lits, j, out, done, next, uf.rep, uf.par, uf.varval);
        if !done {
          out := next;
        }
        j := j + 1;
      }
      assert !done ==> lits[..j] == lits;
      ClearCodes(out);
    }

    // Rewrite one clause; false means no model exists.
    method RewriteRow(id: nat) returns (ok: bool, changed: bool)
      requires Valid() && id < |rows| && !deleted[id] && rows[id].degree == 1
      modifies this`rows, this`deleted, this`resseen, uf.f, uf.val
      ensures ok ==> Valid()
      ensures |rows| == |old(rows)| == |deleted|
      ensures ok ==> rows == old(rows)[id := rows[id]] && deleted == old(deleted)[id := deleted[id]]
      ensures ok && !deleted[id] ==> Rooted(rows[id], uf.rep, uf.varval)
      ensures ok ==> RewrittenTo(old(rows)[id], rows[id], deleted[id], uf.rep, uf.par, uf.varval)
      ensures ok ==> (changed <==> rows != old(rows) || deleted != old(deleted))
      ensures !changed ==> rows == old(rows) && deleted == old(deleted)
      ensures !ok ==> forall a :: !RowsSat(original, a)
    {
      assert RowFine(rows[id], vars);
      var done, out := RewriteLits(rows[id].lits);
      MappedRow(rows[id], done, out, uf.rep, uf.par, uf.varval);
      ok, changed := StoreRewritten(id, done, out);
    }

    method StoreRewritten(id: nat, done: bool, out: seq<int>) returns (ok: bool, changed: bool)
      requires Valid() && id < |rows| && !deleted[id] && rows[id].degree == 1
      requires !done ==> OutOk(out, uf.rep, uf.varval)
      requires SameMeaning(rows[id].lits, done, out, uf.rep, uf.par, uf.varval)
      modifies this`rows, this`deleted
      ensures ok ==> Valid()
      ensures !ok ==> !changed && rows == old(rows) && deleted == old(deleted)
      ensures ok ==> rows == old(rows)[id := if done then old(rows)[id] else Row(out, 1)] && deleted == old(deleted)[id := done]
      ensures ok && !done ==> Rooted(rows[id], uf.rep, uf.varval)
      ensures changed <==> rows != old(rows) || deleted != old(deleted)
      ensures !ok ==> forall a :: !RowsSat(original, a)
    {
      var r := rows[id];
      ok, changed := true, true;
      if done {
        RowRewritten(original, rows, deleted, uf.rep, uf.par, uf.varval, id, r, true);
        assert rows[id := r] == rows;
        deleted := deleted[id := true];
        assert deleted[id] != old(deleted)[id];
      } else if out == [] {
        ok, changed := false, false;
        RowUnsat(original, rows, deleted, uf.rep, uf.par, uf.varval, id);
      } else {
        RowRewritten(original, rows, deleted, uf.rep, uf.par, uf.varval, id, Row(out, 1), false);
        assert deleted[id := false] == deleted;
        changed := out != r.lits;
        if changed {
          rows := rows[id := Row(out, 1)];
          assert rows[id] != old(rows)[id];
        } else {
          assert rows[id := Row(out, 1)] == rows;
        }
      }
    }

    // Row id is rewritten if it is a live clause.
    method RewriteOne(id: nat) returns (ok: bool, changed: bool)
      requires Valid() && id < |rows|
      modifies this`rows, this`deleted, this`resseen, uf.f, uf.val
      ensures |rows| == |old(rows)| == |deleted| && (ok ==> Valid())
      ensures ok ==> rows == old(rows)[id := rows[id]] && deleted == old(deleted)[id := deleted[id]]
      ensures ok && !deleted[id] ==> Rooted(rows[id], uf.rep, uf.varval)
      ensures ok ==> RowTurned(old(rows)[id], old(deleted)[id], rows[id], deleted[id], uf.rep, uf.par, uf.varval)
      ensures ok ==> (changed <==> rows != old(rows) || deleted != old(deleted))
      ensures !changed ==> rows == old(rows) && deleted == old(deleted)
      ensures !ok ==> forall a :: !RowsSat(original, a)
    {
      ok, changed := true, false;
      if !deleted[id] {
        assert RowFine(rows[id], vars);
        if rows[id].degree > 1 {
          CardRowRooted(rows, deleted, inCard, uf.rep, uf.varval, id);
        } else {
          ok, changed := RewriteRow(id);
        }
      }
    }

    // Rewrite every live clause.
    method RewriteRows() returns (ok: bool, changed: bool)
      requires Valid()
      modifies this`rows, this`deleted, this`resseen, uf.f, uf.val
      ensures |rows| == |old(rows)| && (ok ==> Valid() && LiveRooted(rows, deleted, uf.rep, uf.varval))
      ensures ok ==> RewrittenUpTo(old(rows), old(deleted), rows, deleted, uf.rep, uf.par, uf.varval, |rows|, changed)
      ensures !changed ==> rows == old(rows) && deleted == old(deleted)
      ensures !ok ==> forall a :: !RowsSat(original, a)
    {
      ok, changed := true, false;
      var id := 0;
      while id < |rows| && ok
        invariant 0 <= id <= |rows| == |deleted| == |old(rows)|
        invariant ok ==> Valid() && LiveRooted(rows[..id], deleted[..id], uf.rep, uf.varval)
        invariant ok ==> RewrittenUpTo(old(rows), old(deleted), rows, deleted, uf.rep, uf.par, uf.varval, id, changed)
        invariant !changed ==> rows == old(rows) && deleted == old(deleted)
        invariant !ok ==> forall a :: !RowsSat(original, a)
        decreases |rows| - id
      {
        ghost var r, d, known := rows, deleted, changed;
        var c;
        ok, c := RewriteOne(id);
        changed := changed || c;
        if ok {
          RootedStep(r, d, rows, deleted, uf.rep, uf.varval, id);
          RewrittenMore(old(rows), old(deleted), r, d, rows, deleted, uf.rep, uf.par, uf.varval, id, known, c);
        }
        id := id + 1;
      }
      assert ok ==> rows[..id] == rows && deleted[..id] == deleted;
    }

    // Find the actions, perform them, delete their witnesses.
    method PerformTurnActions() returns (ok: bool, changed: bool)
      requires Valid()
      modifies this`deleted, uf, uf.f, uf.val
      ensures ok ==> Valid() && Performed(inCard, old(Now()), Now())
      ensures ok ==> (changed <==> Now() != old(Now()))
      ensures !changed ==> deleted == old(deleted)
      ensures ok && !changed ==> NoPattern(rows, deleted, inCard)
      ensures !ok ==> forall a :: !RowsSat(original, a)
    {
      var index := BuildIndex();
      var actions, drop := CollectActions(index);
      ghost var rep, par, fixed := uf.rep, uf.par, uf.varval;
      ok, changed := PerformActions(actions);
      if !ok {
        ActionsImpossible(original, rows, deleted, rep, par, fixed, actions, drop, inCard);
        changed := false;
      } else {
        var c := DeleteWitnesses(drop);
        WitnessesImplied(original, rows, old(deleted), rep, par, fixed, actions, drop, inCard,
                         deleted, uf.rep, uf.par, uf.varval);
        AllPerformed(inCard, old(Now()), Now(), actions, drop);
        ChangedTable(old(Now()), Now(), changed, c);
        changed := changed || c;
      }
    }

    // One turn: the actions of all patterns, then every clause rewritten.
    method Turn() returns (ok: bool, changed: bool)
      requires Valid()
      modifies this`rows, this`deleted, this`resseen, uf, uf.f, uf.val
      ensures ok ==> Valid() && LiveRooted(rows, deleted, uf.rep, uf.varval)
      ensures !changed ==> rows == old(rows) && deleted == old(deleted)
      ensures ok && !changed ==> NoPattern(rows, deleted, inCard)
      ensures ok ==> OneTurn(inCard, old(Now()), Now()) && (changed <==> Now() != old(Now()))
      ensures |rows| == |old(rows)|
      ensures !ok ==> forall a :: !RowsSat(original, a)
    {
      ok, changed := PerformTurnActions();
      if ok {
        var c;
        ghost var m := Now();
        ok, c := RewriteRows();
        if ok {
          TurnDone(inCard, old(Now()), m, Now(), c);
        }
        changed := changed || c;
      }
    }

    // preprocess_binary up to the relabelling. False means no model exists.
    // If anything changed, the original rows say exactly what the union-find
    // and the live rows say, and live rows mention only unfixed roots. The
    // pass makes one turn after the other as long as they change something;
    // it stops before that only at a limit.
    method Run() returns (ok: bool, changed: bool, ghost trace: seq<Table>)
      requires Valid()
      modifies this`rows, this`deleted, this`resseen, uf, uf.f, uf.val
      ensures ok ==> Turned(inCard, trace) && trace[0] == old(Now()) && trace[|trace| - 1] == Now()
      ensures ok ==> (changed <==> |trace| > 1) && |trace| - 1 <= MAXIMUM_TURNS
      ensures ok && |rows| > MAXIMUM_CLAUSES ==> !changed
      ensures ok && |rows| <= MAXIMUM_CLAUSES ==>
        || (OneTurn(inCard, Now(), Now()) && NoPattern(rows, deleted, inCard))
        || |trace| - 1 == MAXIMUM_TURNS || |trace| * |rows| > MAXIMUM_CLAUSE_ROUNDS
      ensures ok && changed ==> Valid() && LiveRooted(rows, deleted, uf.rep, uf.varval)
      ensures !changed ==> rows == old(rows) && deleted == old(deleted)
      ensures !ok ==> forall a :: !RowsSat(original, a)
    {
      ok, changed, trace := true, false, [Now()];
      if |rows| > MAXIMUM_CLAUSES {
        return;
      }
      var turns := 0;
      var more := true;
      while more && turns < MAXIMUM_TURNS && (turns + 1) * |rows| <= MAXIMUM_CLAUSE_ROUNDS
        invariant ok ==> Valid()
        invariant ok && turns > 0 ==> LiveRooted(rows, deleted, uf.rep, uf.varval)
        invariant 0 <= turns && (changed ==> turns > 0)
        invariant !changed ==> rows == old(rows) && deleted == old(deleted)
        invariant ok && !more ==> OneTurn(inCard, Now(), Now()) && NoPattern(rows, deleted, inCard)
        invariant ok ==> RunTrace(inCard, trace, old(Now()), Now(), changed)
        invariant turns <= MAXIMUM_TURNS && |rows| == |old(rows)| && (ok ==> |trace| == (if more then turns + 1 else turns))
        invariant !ok ==> !more && forall a :: !RowsSat(original, a)
        decreases MAXIMUM_TURNS - turns, more
      {
        turns := turns + 1;
        var c;
        ghost var before, known := Now(), changed;
        ok, c := Turn();
        changed := changed || c;
        more := ok && c;
        if more {
          RunTraceMore(inCard, trace, old(Now()), before, Now(), known);
          trace := trace + [Now()];
        }
      }
    }
  }

  // The variable occurs in a row with degree above one.
  ghost predicate CardVariable(rows: seq<Row>, v: int) {
    exists i :: 0 <= i < |rows| && rows[i].degree > 1 && Mentions(rows[i].lits, v)
  }

  // in_cardinality: exactly the variables of rows with degree above one.
  method MarkCardinality(rows: seq<Row>, vars: nat) returns (inCard: seq<bool>)
    requires forall i :: 0 <= i < |rows| ==> VarsIn(rows[i].lits, vars)
    ensures |inCard| == vars + 1 && CardRows(rows, NoneDeleted(|rows|), inCard)
    ensures forall v :: 1 <= v <= vars && inCard[v] ==> CardVariable(rows, v)
  {
    inCard := NoneDeleted(vars + 1);
    for id := 0 to |rows|
      invariant |inCard| == vars + 1 && forall v :: 1 <= v <= vars && inCard[v] ==> CardVariable(rows, v)
      invariant forall i, j :: 0 <= i < id && rows[i].degree > 1 && 0 <= j < |rows[i].lits| ==> inCard[Abs(rows[i].lits[j])]
    {
      if rows[id].degree > 1 {
        var lits := rows[id].lits;
        for j := 0 to |lits|
          invariant |inCard| == vars + 1 && forall v :: 1 <= v <= vars && inCard[v] ==> CardVariable(rows, v)
          invariant forall k :: 0 <= k < j ==> inCard[Abs(lits[k])]
          invariant forall i, k :: 0 <= i < id && rows[i].degree > 1 && 0 <= k < |rows[i].lits| ==> inCard[Abs(rows[i].lits[k])]
        {
          inCard := inCard[Abs(lits[j]) := true];
        }
      }
    }
  }

  lemma CardRowRooted(rows: seq<Row>, deleted: seq<bool>, inCard: seq<bool>, rep: seq<int>, fixed: seq<int>, id: nat)
    requires |rows| == |deleted| && id < |rows| && !deleted[id] && rows[id].degree > 1
    requires CardRows(rows, deleted, inCard) && CardsUntouched(inCard, rep, fixed)
    ensures Rooted(rows[id], rep, fixed)
  {
    forall j | 0 <= j < |rows[id].lits|
      ensures 1 <= Abs(rows[id].lits[j]) < |rep| && rep[Abs(rows[id].lits[j])] == Abs(rows[id].lits[j])
      ensures fixed[Abs(rows[id].lits[j])] == 0
    {
      assert Untouched(rep, fixed, Abs(rows[id].lits[j]));
    }
  }

  lemma RootedStep(r: seq<Row>, d: seq<bool>, rows: seq<Row>, deleted: seq<bool>, rep: seq<int>, fixed: seq<int>, id: nat)
    requires |r| == |d| == |rows| == |deleted| && id < |rows|
    requires rows == r[id := rows[id]] && deleted == d[id := deleted[id]]
    requires LiveRooted(r[..id], d[..id], rep, fixed)
    requires !deleted[id] ==> Rooted(rows[id], rep, fixed)
    ensures LiveRooted(rows[..id + 1], deleted[..id + 1], rep, fixed)
  {
    forall i | 0 <= i < id + 1 && !deleted[i]
      ensures Rooted(rows[i], rep, fixed)
    {
      if i < id {
        assert r[..id][i] == rows[i] && d[..id][i] == deleted[i];
      }
    }
  }

  lemma ActionsImpossible(original: seq<Row>, rows: seq<Row>, deleted: seq<bool>,
                          rep: seq<int>, par: seq<int>, fixed: seq<int>,
                          actions: set<Action>, drop: seq<bool>, inCard: seq<bool>)
    requires |rows| == |deleted| == |drop| && |rep| == |par| == |fixed|
    requires Meaning(original, rows, deleted, rep, par, fixed)
    requires ActionsOk(actions, drop, rows, deleted, inCard)
    requires forall a :: !(Represents(rep, par, fixed, a) && AllActions(actions, a))
    ensures forall a :: !RowsSat(original, a)
  {
    forall a | RowsSat(original, a)
      ensures AllActions(actions, a)
    {
      assert LiveSat(rows, deleted, a);
    }
  }

  // Deleting the witnesses of performed actions changes nothing.
  lemma WitnessesImplied(original: seq<Row>, rows: seq<Row>, deleted: seq<bool>,
                         rep: seq<int>, par: seq<int>, fixed: seq<int>,
                         actions: set<Action>, drop: seq<bool>, inCard: seq<bool>, deleted': seq<bool>,
                         rep': seq<int>, par': seq<int>, fixed': seq<int>)
    requires |rows| == |deleted| == |drop| == |deleted'|
    requires |rep| == |par| == |fixed| && |rep'| == |par'| == |fixed'|
    requires Meaning(original, rows, deleted, rep, par, fixed)
    requires ActionsOk(actions, drop, rows, deleted, inCard)
    requires forall a :: Represents(rep', par', fixed', a) <==> Represents(rep, par, fixed, a) && AllActions(actions, a)
    requires forall i :: 0 <= i < |rows| ==> deleted'[i] == (deleted[i] || drop[i])
    ensures Meaning(original, rows, deleted', rep', par', fixed')
  {
    forall a: Assignment
      ensures LiveSat(rows, deleted, a) <==> LiveSat(rows, deleted', a) && AllActions(actions, a)
    {
      if LiveSat(rows, deleted', a) && AllActions(actions, a) {
        forall i | 0 <= i < |rows| && !deleted[i]
          ensures RowSat(rows[i], a)
        {
          if drop[i] {
            assert Covered(actions, rows[i]);
          }
        }
      }
    }
  }

  ghost predicate MarksOf(resseen: seq<int>, out: seq<int>, vars: nat) {
    && |resseen| == 2 * vars
    && forall l {:trigger ToLit(l)} :: 1 <= Abs(l) <= vars ==> resseen[ToLit(l)] == ToInt(l in out)
  }

  ghost predicate OutOk(out: seq<int>, rep: seq<int>, fixed: seq<int>) {
    |rep| == |fixed| && DistinctVars(out) && VarsIn(out, |rep| - 1) && Rooted(Row(out, 1), rep, fixed)
  }

  lemma MarksHave(resseen: seq<int>, out: seq<int>, vars: nat, l: int)
    requires MarksOf(resseen, out, vars) && 1 <= Abs(l) <= vars
    ensures 0 <= ToLit(l) < 2 * vars && 0 <= ToLit(-l) < 2 * vars
    ensures resseen[ToLit(l)] == ToInt(l in out) && resseen[ToLit(-l)] == ToInt(-l in out)
  {
  }

  lemma ToLitDistinct(vars: nat)
    ensures forall x, y {:trigger ToLit(x), ToLit(y)} :: 1 <= Abs(x) <= vars && 1 <= Abs(y) <= vars && ToLit(x) == ToLit(y) ==> x == y
  {
  }

  lemma MarkNew(resseen: seq<int>, out: seq<int>, vars: nat, l: int)
    requires MarksOf(resseen, out, vars) && 1 <= Abs(l) <= vars
    ensures 0 <= ToLit(l) < 2 * vars
    ensures MarksOf(resseen[ToLit(l) := 1], out + [l], vars)
  {
    ToLitDistinct(vars);
  }

  lemma TrueMember(out: seq<int>, l: int)
    requires l in out
    ensures forall a :: Holds(l, a) ==> Count(out, a) >= 1
  {
    forall a | Holds(l, a)
      ensures Count(out, a) >= 1
    {
      HeldCounts(out, l, a);
    }
  }

  lemma OutSnoc(out: seq<int>, l: int, rep: seq<int>, fixed: seq<int>)
    requires OutOk(out, rep, fixed) && l !in out && -l !in out
    requires 1 <= Abs(l) < |rep| && rep[Abs(l)] == Abs(l) && fixed[Abs(l)] == 0
    ensures OutOk(out + [l], rep, fixed)
    ensures forall a :: Count(out + [l], a) >= 1 <==> Count(out, a) >= 1 || Holds(l, a)
  {
    DistinctSnoc(out, l);
    forall a: Assignment
      ensures Count(out + [l], a) >= 1 <==> Count(out, a) >= 1 || Holds(l, a)
    {
      CountSnoc(out, l, a);
    }
  }

  lemma SomePrefix(lits: seq<int>, j: nat)
    requires j < |lits|
    ensures forall a :: Count(lits[..j + 1], a) >= 1 <==> Count(lits[..j], a) >= 1 || Holds(lits[j], a)
    ensures forall a :: Count(lits[..j + 1], a) >= 1 ==> Count(lits, a) >= 1
  {
    assert lits[..j + 1] == lits[..j] + [lits[j]];
    assert lits == lits[..j + 1] + lits[j + 1..];
    forall a: Assignment
      ensures Count(lits[..j + 1], a) >= 1 <==> Count(lits[..j], a) >= 1 || Holds(lits[j], a)
      ensures Count(lits[..j + 1], a) >= 1 ==> Count(lits, a) >= 1
    {
      CountSnoc(lits[..j], lits[j], a);
      CountConcat(lits[..j + 1], lits[j + 1..], a);
    }
  }

  // A literal is true when its root has the sign of the literal.
  lemma MappedSign(rep: seq<int>, par: seq<int>, fixed: seq<int>, l: int)
    requires Classes(rep, par, fixed) && 1 <= Abs(l) < |rep|
    ensures var root, sign := rep[Abs(l)], Sign(l) * par[Abs(l)];
      && IsSign(sign) && 1 <= root < |rep| && rep[root] == root
      && Abs(sign * root) == root && sign * root != 0
      && (forall a :: Represents(rep, par, fixed, a) ==> (Holds(l, a) <==> Sgn(a, root) == sign))
      && (forall a :: Holds(sign * root, a) <==> Sgn(a, root) == sign)
      && (forall a :: Holds(-(sign * root), a) <==> Sgn(a, root) != sign)
      && (fixed[root] != 0 ==> forall a :: Represents(rep, par, fixed, a) ==> Sgn(a, root) == fixed[root])
  {
    forall a | Represents(rep, par, fixed, a)
      ensures Holds(l, a) <==> Sgn(a, rep[Abs(l)]) == Sign(l) * par[Abs(l)]
      ensures fixed[rep[Abs(l)]] != 0 ==> Sgn(a, rep[Abs(l)]) == fixed[rep[Abs(l)]]
    {
      RootSign(rep, par, fixed, Abs(l), a);
      HoldsSgn(l, a);
    }
  }

  lemma RowRewritten(original: seq<Row>, rows: seq<Row>, deleted: seq<bool>, rep: seq<int>, par: seq<int>, fixed: seq<int>,
                     id: nat, r: Row, gone: bool)
    requires |rows| == |deleted| && id < |rows| && !deleted[id] && |rep| == |par| == |fixed|
    requires Meaning(original, rows, deleted, rep, par, fixed)
    requires forall a :: Represents(rep, par, fixed, a) ==> (RowSat(rows[id], a) <==> gone || RowSat(r, a))
    ensures Meaning(original, rows[id := r], deleted[id := gone], rep, par, fixed)
  {
    var rows', deleted' := rows[id := r], deleted[id := gone];
    forall a | Represents(rep, par, fixed, a)
      ensures LiveSat(rows, deleted, a) <==> LiveSat(rows', deleted', a)
    {
      assert forall i :: 0 <= i < |rows| && i != id ==> rows'[i] == rows[i] && deleted'[i] == deleted[i];
      assert rows'[id] == r && deleted'[id] == gone;
    }
  }

  lemma RowUnsat(original: seq<Row>, rows: seq<Row>, deleted: seq<bool>, rep: seq<int>, par: seq<int>, fixed: seq<int>,
                 id: nat)
    requires |rows| == |deleted| && id < |rows| && !deleted[id] && |rep| == |par| == |fixed|
    requires Meaning(original, rows, deleted, rep, par, fixed)
    requires forall a :: Represents(rep, par, fixed, a) ==> !RowSat(rows[id], a)
    ensures forall a :: !RowsSat(original, a)
  {
  }

  ghost predicate IndexOk(index: map<(int, int), nat>, rows: seq<Row>, deleted: seq<bool>) {
    |rows| == |deleted| && forall key :: key in index ==>
      && index[key] < |rows| && !deleted[index[key]] && BinaryClause(rows[index[key]])
      && Key(rows[index[key]].lits[0], rows[index[key]].lits[1]) == key
  }

  // Every live binary clause among the first n has an entry for its pair.
  ghost predicate Indexed(index: map<(int, int), nat>, rows: seq<Row>, deleted: seq<bool>, n: int)
    requires |rows| == |deleted|
  {
    forall id {:trigger rows[id]} :: 0 <= id < n && id < |rows| && !deleted[id] && BinaryClause(rows[id]) ==>
      Key(rows[id].lits[0], rows[id].lits[1]) in index
  }

  // The three patterns: what two clauses say together.
  ghost predicate Yields(r: Row, w: Row, act: Action) {
    && BinaryClause(r)
    && var x, y := r.lits[0], r.lits[1];
      || (SamePair(w, -x, -y) && act == RelationAction(x, y))
      || (SamePair(w, x, -y) && act == FixedAction(x))
      || (SamePair(w, -x, y) && act == FixedAction(y))
  }

  // Rows i and w are alive and yield the action, which is safe.
  ghost predicate Pattern(rows: seq<Row>, deleted: seq<bool>, inCard: seq<bool>, i: int, w: int, act: Action) {
    && |rows| == |deleted| && 0 <= i < |rows| && 0 <= w < |rows| && !deleted[i] && !deleted[w]
    && Yields(rows[i], rows[w], act) && IsSafe(act, inCard)
  }

  // No two live clauses match a pattern.
  ghost predicate NoPattern(rows: seq<Row>, deleted: seq<bool>, inCard: seq<bool>) {
    forall i, w, act :: !Pattern(rows, deleted, inCard, i, w, act)
  }

  // The first n rows have been looked up.
  ghost predicate FoundUpTo(rows: seq<Row>, deleted: seq<bool>, inCard: seq<bool>, n: int, actions: set<Action>, drop: seq<bool>) {
    true == (
      && |drop| == |rows|
      && (forall i, w, act {:trigger Pattern(rows, deleted, inCard, i, w, act)} ::
            i < n && Pattern(rows, deleted, inCard, i, w, act) ==> act in actions && drop[i])
      && (forall act :: act in actions ==> exists i, w :: Pattern(rows, deleted, inCard, i, w, act))
      && (forall i :: 0 <= i < |drop| && drop[i] ==> exists w, act :: Pattern(rows, deleted, inCard, i, w, act)))
  }

  // Any row that holds the pair yields the action with row id.
  ghost predicate Targets(rows: seq<Row>, id: int, x: int, y: int, act: Action) {
    true == (0 <= id < |rows| && forall w :: 0 <= w < |rows| && SamePair(rows[w], x, y) ==> Yields(rows[id], rows[w], act))
  }

  lemma TargetsAll(rows: seq<Row>, id: nat)
    requires id < |rows| && BinaryClause(rows[id])
    ensures var x, y := rows[id].lits[0], rows[id].lits[1];
      && Targets(rows, id, -x, -y, RelationAction(x, y))
      && Targets(rows, id, x, -y, FixedAction(x))
      && Targets(rows, id, -x, y, FixedAction(y))
  {
  }

  // If a live row holds the pair, the action is recorded and the row marked.
  ghost predicate LookedUp(rows: seq<Row>, deleted: seq<bool>, inCard: seq<bool>, x: int, y: int, act: Action,
                           actions: set<Action>, marked: bool) {
    true == (
      && |rows| == |deleted|
      && (IsSafe(act, inCard) ==> forall w :: 0 <= w < |rows| && !deleted[w] && SamePair(rows[w], x, y) ==> act in actions && marked))
  }

  lemma LookedUpMore(rows: seq<Row>, deleted: seq<bool>, inCard: seq<bool>, x: int, y: int, act: Action,
                     actions: set<Action>, marked: bool, actions': set<Action>, marked': bool)
    requires LookedUp(rows, deleted, inCard, x, y, act, actions, marked) && actions <= actions' && (marked ==> marked')
    ensures LookedUp(rows, deleted, inCard, x, y, act, actions', marked')
  {
  }

  lemma FoundRow(rows: seq<Row>, deleted: seq<bool>, inCard: seq<bool>, id: nat, actions1: set<Action>, marked1: bool,
                 actions2: set<Action>, marked2: bool, actions: set<Action>, drop: seq<bool>)
    requires FoundUpTo(rows, deleted, inCard, id, actions, drop) && id < |rows| == |drop| && BinaryClause(rows[id])
    requires actions1 <= actions2 <= actions && (marked1 ==> marked2) && (marked2 ==> drop[id])
    requires LookedUp(rows, deleted, inCard, -rows[id].lits[0], -rows[id].lits[1],
                      RelationAction(rows[id].lits[0], rows[id].lits[1]), actions1, marked1)
    requires LookedUp(rows, deleted, inCard, rows[id].lits[0], -rows[id].lits[1], FixedAction(rows[id].lits[0]), actions2, marked2)
    requires LookedUp(rows, deleted, inCard, -rows[id].lits[0], rows[id].lits[1], FixedAction(rows[id].lits[1]), actions, drop[id])
    ensures FoundUpTo(rows, deleted, inCard, id + 1, actions, drop)
  {
    var x, y := rows[id].lits[0], rows[id].lits[1];
    LookedUpMore(rows, deleted, inCard, -x, -y, RelationAction(x, y), actions1, marked1, actions, drop[id]);
    LookedUpMore(rows, deleted, inCard, x, -y, FixedAction(x), actions2, marked2, actions, drop[id]);
    forall w, act | Pattern(rows, deleted, inCard, id, w, act)
      ensures act in actions && drop[id]
    {
    }
  }

  lemma FoundNone(rows: seq<Row>, deleted: seq<bool>, inCard: seq<bool>, id: nat, actions: set<Action>, drop: seq<bool>)
    requires FoundUpTo(rows, deleted, inCard, id, actions, drop)
    requires id < |rows| == |deleted| && (deleted[id] || !BinaryClause(rows[id]))
    ensures FoundUpTo(rows, deleted, inCard, id + 1, actions, drop)
  {
  }

  // An action of rows i and w joins.
  lemma FoundMore(rows: seq<Row>, deleted: seq<bool>, inCard: seq<bool>, n: nat, actions: set<Action>, drop: seq<bool>,
                  i: nat, w: nat, act: Action)
    requires FoundUpTo(rows, deleted, inCard, n, actions, drop)
    requires Pattern(rows, deleted, inCard, i, w, act) && Pattern(rows, deleted, inCard, w, i, act)
    ensures FoundUpTo(rows, deleted, inCard, n, actions + {act}, drop[i := true][w := true])
  {
    var more, drop' := actions + {act}, drop[i := true][w := true];
    forall k | 0 <= k < |drop'| && drop'[k]
      ensures exists v, b :: Pattern(rows, deleted, inCard, k, v, b)
    {
      if k == i {
        assert Pattern(rows, deleted, inCard, k, w, act);
      } else if k == w {
        assert Pattern(rows, deleted, inCard, k, i, act);
      } else {
        assert drop[k];
      }
    }
  }

  // The second row yields the same action with the first.
  lemma YieldsBoth(r: Row, w: Row, act: Action)
    requires DistinctVars(r.lits) && Yields(r, w, act) && (forall j :: 0 <= j < |r.lits| ==> r.lits[j] != 0)
    ensures Yields(w, r, act) && r != w
  {
  }

  // Recorded actions follow from the live rows, and every row marked for
  // deletion follows from a recorded action.
  ghost predicate ActionsOk(actions: set<Action>, drop: seq<bool>, rows: seq<Row>, deleted: seq<bool>,
                            inCard: seq<bool>)
    requires |drop| == |rows| == |deleted|
  {
    && (forall act :: act in actions ==> ActionOk(act, inCard) && FromRows(act, rows, deleted))
    && forall id :: 0 <= id < |rows| && drop[id] ==> Covered(actions, rows[id])
  }

  ghost predicate FromRows(act: Action, rows: seq<Row>, deleted: seq<bool>)
    requires |rows| == |deleted|
  {
    forall a :: LiveSat(rows, deleted, a) ==> ActionHolds(act, a)
  }

  ghost predicate Covered(actions: set<Action>, r: Row) {
    exists act :: act in actions && Covers(act, r)
  }

  lemma FoundAll(rows: seq<Row>, deleted: seq<bool>, inCard: seq<bool>, actions: set<Action>, drop: seq<bool>)
    requires FoundUpTo(rows, deleted, inCard, |rows|, actions, drop)
    ensures AllFound(rows, deleted, inCard, actions, drop)
  {
    forall act, i, w | Pattern(rows, deleted, inCard, i, w, act)
      ensures act in actions && drop[i]
    {
    }
  }

  // What patterns yield follows from the rows, and implies them.
  lemma YieldsMeans(r: Row, w: Row, act: Action, vars: int)
    requires Yields(r, w, act) && RowFine(r, vars)
    ensures FollowsFrom(act, r, w) && Covers(act, r) && IsSign(act.value)
  {
    var x, y := r.lits[0], r.lits[1];
    if SamePair(w, -x, -y) {
      RelationFound(r, w, x, y);
    }
    if SamePair(w, x, -y) {
      FixedFound(r, w, x, y);
    }
    if SamePair(w, -x, y) {
      FixedFound(r, w, y, x);
    }
  }

  lemma FoundOk(rows: seq<Row>, deleted: seq<bool>, inCard: seq<bool>, vars: int, actions: set<Action>, drop: seq<bool>)
    requires LiveFine(rows, deleted, vars) && FoundUpTo(rows, deleted, inCard, |rows|, actions, drop)
    ensures |drop| == |rows| && ActionsOk(actions, drop, rows, deleted, inCard)
  {
    forall act | act in actions
      ensures ActionOk(act, inCard) && FromRows(act, rows, deleted)
    {
      var i, w :| Pattern(rows, deleted, inCard, i, w, act);
      YieldsMeans(rows[i], rows[w], act, vars);
    }
    forall i | 0 <= i < |rows| && drop[i]
      ensures Covered(actions, rows[i])
    {
      var w, act :| Pattern(rows, deleted, inCard, i, w, act);
      YieldsMeans(rows[i], rows[w], act, vars);
    }
  }

  lemma ActionsStep(actions: set<Action>, todo: set<Action>, act: Action)
    requires act in todo && todo <= actions
    ensures forall a :: AllActions(actions - (todo - {act}), a) <==> AllActions(actions - todo, a) && ActionHolds(act, a)
    ensures forall a :: AllActions(actions, a) ==> AllActions(actions - todo, a) && ActionHolds(act, a)
  {
  }
}
