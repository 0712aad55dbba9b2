/** `preprocess_up`: rows are normalised, then propagated until no surviving
    row mentions an assigned variable. */
module UnitPropagation {
  import opened Knf
  import opened Elimination
  import opened RecoveryLog
  import opened RowTable
  import opened UnitRows

  // tolit and negative
  function ToLit(x: int): int {
    if x > 0 then 2 * (x - 1) else 2 * (-x - 1) + 1
  }

  function Negative(c: int): int {
    if c % 2 == 0 then c + 1 else c - 1
  }

  lemma NegativeToLit(x: int)
    requires x != 0
    ensures Negative(ToLit(x)) == ToLit(-x)
  {
  }

  // The number of unassigned entries.
  function Zeros(varval: seq<int>): nat {
    if varval == [] then 0 else Zeros(varval[..|varval| - 1]) + ToInt(varval[|varval| - 1] == 0)
  }

  lemma {:induction false} ZerosUpdate(varval: seq<int>, v: nat, x: int)
    requires v < |varval|
    ensures Zeros(varval[v := x]) + ToInt(varval[v] == 0) == Zeros(varval) + ToInt(x == 0)
  {
    var n := |varval| - 1;
    if v == n {
      assert varval[v := x][..n] == varval[..n];
    } else {
      assert varval[v := x][..n] == varval[..n][v := x];
      ZerosUpdate(varval[..n], v, x);
    }
  }

  // The queue holds each assigned variable exactly once; with the unassigned
  // ones it accounts for every entry, so it never outgrows its buffer.
  ghost predicate QueueOk(q: seq<int>, varval: seq<int>) {
    && ValuesOk(varval)
    && (forall i, j :: 0 <= i < j < |q| ==> q[i] != q[j])
    && (forall v :: v in q <==> 1 <= v < |varval| && varval[v] != 0)
    && |q| + Zeros(varval) == |varval|
  }

  // What one row says together with the assignment, before and after.
  ghost predicate RowStep(varval: seq<int>, r: Row, varval': seq<int>, gone: bool, r': Row) {
    forall a {:trigger Agrees(varval, a)} {:trigger Agrees(varval', a)} ::
      Agrees(varval, a) && RowSat(r, a) <==> Agrees(varval', a) && (gone || RowSat(r', a))
  }

  ghost predicate RowImpossible(varval: seq<int>, r: Row) {
    forall a :: Agrees(varval, a) ==> !RowSat(r, a)
  }

  // A surviving row: no assigned variable, and neither satisfied nor forced.
  ghost predicate Settled(r: Row, varval: seq<int>) {
    && RowShape(r, |varval| - 1) && r.degree < |r.lits|
    && forall j :: 0 <= j < |r.lits| ==> varval[Abs(r.lits[j])] == 0
  }

  ghost predicate RowShape(r: Row, vars: int) {
    DistinctVars(r.lits) && VarsIn(r.lits, vars) && r.degree >= 1
  }

  class Propagator {
    const vars: nat
    ghost const input: seq<Row>
    var rows: seq<Row>
    var deleted: seq<bool>
    var varval: seq<int>
    var q: seq<int>
    var head: nat
    var occurp: seq<seq<int>>
    var occurn: seq<seq<int>>
    var seen: seq<int>
    var resseen: seq<int>
    var nxtc: seq<int>

    ghost predicate Queued()
      reads this
    {
      |varval| == vars + 1 && QueueOk(q, varval) && head <= |q|
    }

    method AssignLit(l: int) returns (ok: bool)
      requires Queued() && 1 <= Abs(l) <= vars
      modifies this`varval, this`q
      ensures Queued() && old(q) <= q
      ensures forall a :: Agrees(old(varval), a) && Holds(l, a) <==> ok && Agrees(varval, a)
      ensures ValuesGrow(old(varval), varval)
    {
      var v := Abs(l);
      if varval[v] != 0 {
        return varval[v] == Sign(l);
      }
      ZerosUpdate(varval, v, Sign(l));
      AgreesUpdate(varval, l);
      varval := varval[v := Sign(l)];
      q := q + [v];
      ok := true;
    }

    // force_remaining, after the deletion mark
    method ForceRemaining(lits: seq<int>) returns (ok: bool)
      requires Queued() && VarsIn(lits, vars)
      modifies this`varval, this`q
      ensures Queued() && old(q) <= q
      ensures forall a :: Agrees(old(varval), a) && LitsHold(lits, a) <==> ok && Agrees(varval, a)
      ensures ValuesGrow(old(varval), varval)
    {
      ok := true;
      var j := 0;
      while j < |lits| && ok
        invariant 0 <= j <= |lits| && Queued() && old(q) <= q
        invariant ok ==> forall a :: Agrees(old(varval), a) && LitsHold(lits[..j], a) <==> Agrees(varval, a)
        invariant !ok ==> forall a :: !(Agrees(old(varval), a) && LitsHold(lits, a))
        invariant ValuesGrow(old(varval), varval)
        decreases |lits| - j
      {
        ghost var before := varval;
        ok := AssignLit(lits[j]);
        ForceStep(old(varval), before, varval, lits, j, ok);
        j := j + 1;
      }
      assert ok ==> lits[..j] == lits;
    }

    // The compaction loop of `simplify_clause`.
    method Compact(r: Row) returns (satisfied: bool, kept: seq<int>, degree: int)
      requires |varval| == vars + 1 && RowShape(r, vars)
      ensures satisfied ==> Trues(r.lits, varval) >= r.degree
      ensures !satisfied ==>
        kept == Keep(r.lits, Assigned(varval)) && degree == r.degree - Trues(r.lits, varval) && degree >= 1
    {
      satisfied, kept, degree := false, [], r.degree;
      var lits := r.lits;
      var j := 0;
      while j < |lits|
        invariant 0 <= j <= |lits| && !satisfied
        invariant kept == Keep(lits[..j], Assigned(varval))
        invariant degree == r.degree - Trues(lits[..j], varval) && degree >= 1
      {
        var l := lits[j];
        assert lits[..j + 1] == lits[..j] + [l];
        KeepSnoc(lits[..j], l, Assigned(varval));
        TruesSnoc(lits[..j], l, varval);
        if varval[Abs(l)] == 0 {
          kept := kept + [l];
        } else if varval[Abs(l)] == Sign(l) {
          degree := degree - 1;
          if degree == 0 {
            TruesPrefix(lits, j + 1, varval);
            return true, [], 0;
          }
        }
        j := j + 1;
      }
      assert lits[..j] == lits;
    }

    method SimplifyClause(id: nat) returns (ok: bool)
      requires Queued() && |rows| == |deleted| && id < |rows|
      requires !deleted[id] ==> RowShape(rows[id], vars)
      modifies this`rows, this`deleted, this`varval, this`q
      ensures Queued() && old(q) <= q && ValuesGrow(old(varval), varval)
      ensures |rows| == |deleted| && id < |rows|
      ensures rows == old(rows)[id := rows[id]] && deleted == old(deleted)[id := deleted[id]]
      ensures old(deleted)[id] ==> ok && rows == old(rows) && deleted == old(deleted) && varval == old(varval)
      ensures !old(deleted)[id] && ok ==> RowStep(old(varval), old(rows)[id], varval, deleted[id], rows[id])
      ensures !old(deleted)[id] && !ok ==> RowImpossible(old(varval), old(rows)[id])
      ensures ok && !deleted[id] ==>
        Settled(rows[id], varval) && varval == old(varval) && forall l :: l in rows[id].lits ==> l in old(rows)[id].lits
    {
      if deleted[id] {
        return true;
      }
      var r := rows[id];
      var satisfied, kept, degree := Compact(r);
      CompactMeaning(r, varval, satisfied, kept, degree);
      if satisfied {
        deleted := deleted[id := true];
        rows := rows[id := Row([], 0)];
        return true;
      }
      rows := rows[id := Row(kept, degree)];
      if degree > |kept| {
        return false;
      }
      if degree == |kept| {
        deleted := deleted[id := true];
        ok := ForceRemaining(kept);
        ForcedMeaning(r, old(varval), varval, kept, degree, ok);
        return;
      }
      return true;
    }

    // One literal of the first pass: skip a repeat, count a complement.
    method MarkLiteral(l: int, stamp: int, out: seq<int>, degree: int) returns (out': seq<int>, degree': int)
      requires StampsBelow(resseen, seen, vars, stamp) && StampsAre(resseen, seen, vars, stamp, out)
      requires 1 <= Abs(l) <= vars
      modifies this`resseen, this`seen
      ensures StampsBelow(resseen, seen, vars, stamp) && StampsAre(resseen, seen, vars, stamp, out')
      ensures out' == if l in out then out else out + [l]
      ensures degree' + |Paired(out')| == degree + |Paired(out)|
    {
      out', degree' := out, degree;
      PairedCount(out, l);
      NegativeToLit(l);
      StampStep(resseen, seen, vars, stamp, out, l);
      if resseen[ToLit(l)] != stamp {
        if resseen[Negative(ToLit(l))] == stamp && seen[Abs(l)] != stamp {
          seen := seen[Abs(l) := stamp];
          degree' := degree - 1;
        }
        resseen := resseen[ToLit(l) := stamp];
        out' := out + [l];
      }
    }

    // The second loop of the first pass.
    method DropPaired(out: seq<int>, stamp: int) returns (kept: seq<int>)
      requires |resseen| == 2 * vars && |seen| == vars + 1
      requires VarsIn(out, vars) && StampsAre(resseen, seen, vars, stamp, out)
      ensures kept == Keep(out, Paired(out))
    {
      kept := [];
      var t := 0;
      while t < |out|
        invariant 0 <= t <= |out| && kept == Keep(out[..t], Paired(out))
      {
        assert out[..t + 1] == out[..t] + [out[t]];
        KeepSnoc(out[..t], out[t], Paired(out));
        PairedHas(out, out[t]);
        SeenMark(out, out[t], vars, resseen, seen, stamp);
        if seen[Abs(out[t])] != stamp {
          kept := kept + [out[t]];
        }
        t := t + 1;
      }
      assert out[..t] == out;
    }

    // The repeat and complement checks of the first pass.
    method NormaliseRow(i: nat) returns (satisfied: bool, kept: seq<int>, degree: int)
      requires i < |rows| && VarsIn(rows[i].lits, vars) && rows[i].degree >= 1
      requires StampsBelow(resseen, seen, vars, i)
      modifies this`resseen, this`seen
      ensures StampsBelow(resseen, seen, vars, i + 1)
      ensures Normalised(rows[i], satisfied, kept, degree)
    {
      var out;
      out, degree := StampRow(rows[i], i + 1);
      satisfied := degree == 0;
      kept := [];
      if !satisfied {
        kept := DropPaired(out, i + 1);
      }
    }

    // The first loop: it stops early when the pairs pay for the degree.
    method StampRow(r: Row, stamp: nat) returns (out: seq<int>, degree: int)
      requires VarsIn(r.lits, vars) && r.degree >= 1 && stamp >= 1 && StampsBelow(resseen, seen, vars, stamp - 1)
      modifies this`resseen, this`seen
      ensures StampsBelow(resseen, seen, vars, stamp) && StampsAre(resseen, seen, vars, stamp, out) && VarsIn(out, vars)
      ensures degree >= 0
      ensures if degree == 0 then |Paired(Dedup(r.lits))| >= r.degree
              else out == Dedup(r.lits) && degree == r.degree - |Paired(out)|
    {
      out, degree := [], r.degree;
      var j := 0;
      while j < |r.lits| && degree > 0
        invariant 0 <= j <= |r.lits| && StampsBelow(resseen, seen, vars, stamp)
        invariant out == Dedup(r.lits[..j]) && StampsAre(resseen, seen, vars, stamp, out)
        invariant degree == r.degree - |Paired(out)| && degree >= 0
        decreases |r.lits| - j
      {
        DedupPrefix(r.lits, j);
        PairedCount(out, r.lits[j]);
        out, degree := MarkLiteral(r.lits[j], stamp, out, degree);
        j := j + 1;
      }
      StampedRow(r.lits, j, vars);
    }

    method PushOccurrences(lits: seq<int>, id: nat)
      requires |occurp| == |occurn| == vars + 1 && VarsIn(lits, vars) && DistinctVars(lits)
      modifies this`occurp, this`occurn
      ensures Listed(old(occurp), old(occurn), occurp, occurn, lits, id)
    {
      var j := 0;
      while j < |lits|
        invariant 0 <= j <= |lits|
        invariant Listed(old(occurp), old(occurn), occurp, occurn, lits[..j], id)
      {
        ghost var p, n := occurp, occurn;
        var l := lits[j];
        if l > 0 {
          occurp := occurp[l := occurp[l] + [id]];
        } else {
          occurn := occurn[-l := occurn[-l] + [id]];
        }
        ListedStep(old(occurp), old(occurn), p, n, occurp, occurn, lits, j, id);
        j := j + 1;
      }
      assert lits[..j] == lits;
    }

    // What holds when rows before k have been visited, the variables of
    // q[head..] have not been looked at yet, and the rows of `todo` are waiting.
    ghost predicate Progress(k: int, todo: seq<int>)
      reads this
    {
      && Queued() && 0 <= k <= |rows| && |rows| == |deleted| == |input|
      && (forall i :: k <= i < |rows| ==> !deleted[i] && rows[i] == input[i])
      && TableMeaning(input, rows, deleted, varval, k)
      && Tracked(rows, deleted, k, varval, occurp, occurn, q[head..], todo)
    }

    // Simplify a visited row and take it off the waiting list.
    method SimplifyVisited(id: nat, ghost k: nat, ghost todo: seq<int>) returns (ok: bool)
      requires Progress(k, [id] + todo) && id < k
      modifies this`rows, this`deleted, this`varval, this`q
      ensures ok ==> Progress(k, todo)
      ensures !ok ==> forall a :: !InputSat(input, a)
      ensures old(q) <= q && Queued() && |rows| == |deleted| == |input|
    {
      ghost var pend := q[head..];
      ok := SimplifyClause(id);
      if !old(deleted)[id] {
        TableStep(input, old(rows), old(deleted), old(varval), k, id, rows[id], deleted[id], varval, ok);
      }
      if ok {
        TrackedStep(old(rows), old(deleted), k, old(varval), old(q), occurp, occurn, head, id, todo,
                    rows, deleted, varval, q);
      }
    }

    // One row of the first pass.
    method VisitRow(i: nat) returns (ok: bool)
      requires Progress(i, []) && i < |rows| && head == 0 && VarsIn(rows[i].lits, vars) && rows[i].degree >= 1
      requires StampsBelow(resseen, seen, vars, i)
      modifies this`rows, this`deleted, this`varval, this`q, this`occurp, this`occurn, this`resseen, this`seen
      ensures ok ==> Progress(i + 1, [])
      ensures !ok ==> forall a :: !InputSat(input, a)
      ensures StampsBelow(resseen, seen, vars, i + 1) && Queued() && |rows| == |deleted| == |input|
    {
      var satisfied, kept, degree := NormaliseRow(i);
      NormalisedMeaning(rows[i], vars, satisfied, kept, degree);
      if satisfied {
        TableVisit(input, rows, deleted, varval, i, rows[i], true);
        deleted := deleted[i := true];
        assert rows == old(rows)[i := rows[i]];
        return true;
      }
      TableVisit(input, rows, deleted, varval, i, Row(kept, degree), false);
      rows := rows[i := Row(kept, degree)];
      PushOccurrences(kept, i);
      TrackedVisit(old(rows), deleted, i, varval, old(occurp), old(occurn), occurp, occurn, q[head..], rows);
      assert deleted == deleted[i := false];
      assert [i] + [] == [i];
      ok := SimplifyVisited(i, i + 1, []);
    }

    constructor (vars: nat, rows: seq<Row>)
      ensures this.vars == vars && input == rows && this.rows == rows && head == 0
      ensures Progress(0, []) && StampsBelow(resseen, seen, vars, 0) && nxtc == Repeat(0, |rows|)
    {
      this.vars := vars;
      input := rows;
      this.rows, deleted := rows, NoneDeleted(|rows|);
      varval, q, head := Repeat(0, vars + 1), [], 0;
      occurp, occurn := seq(vars + 1, i => []), seq(vars + 1, i => []);
      seen, resseen, nxtc := Repeat(0, vars + 1), Repeat(0, 2 * vars), Repeat(0, |rows|);
      new;
      ZerosAll(vars + 1);
      NothingVisited(rows, vars);
    }

    method FirstPass() returns (ok: bool)
      requires Progress(0, []) && head == 0 && StampsBelow(resseen, seen, vars, 0)
      requires forall i :: 0 <= i < |input| ==> VarsIn(input[i].lits, vars) && input[i].degree >= 1
      modifies this`rows, this`deleted, this`varval, this`q, this`occurp, this`occurn, this`resseen, this`seen
      ensures ok ==> Progress(|rows|, [])
      ensures !ok ==> forall a :: !InputSat(input, a)
      ensures |rows| == |deleted| == |input|
    {
      ok := true;
      var i := 0;
      while i < |rows| && ok
        invariant 0 <= i <= |rows| == |deleted| == |input|
        invariant ok ==> Progress(i, []) && StampsBelow(resseen, seen, vars, i)
        invariant !ok ==> forall a :: !InputSat(input, a)
        decreases |rows| - i
      {
        ok := VisitRow(i);
        i := i + 1;
      }
    }

    // Rows stamped in this round are already collected.
    ghost predicate Stamped(stamp: int, touched: seq<int>)
      reads this
    {
      |nxtc| == |rows| && forall o :: 0 <= o < |nxtc| ==> nxtc[o] <= stamp && (nxtc[o] == stamp ==> o in touched)
    }

    // Collect the live rows of one occurrence list.
    method Collect(list: seq<int>, stamp: int, touched: seq<int>) returns (touched': seq<int>)
      requires |rows| == |deleted| && Stamped(stamp, touched)
      requires Ids(list, |rows|) && Ids(touched, |rows|)
      modifies this`nxtc
      ensures Stamped(stamp, touched') && Ids(touched', |rows|)
      ensures forall o :: o in touched ==> o in touched'
      ensures forall j :: 0 <= j < |list| && !deleted[list[j]] ==> list[j] in touched'
    {
      touched' := touched;
      var j := 0;
      while j < |list|
        invariant 0 <= j <= |list| && Stamped(stamp, touched') && Ids(touched', |rows|)
        invariant forall o :: o in touched ==> o in touched'
        invariant forall k :: 0 <= k < j && !deleted[list[k]] ==> list[k] in touched'
      {
        var o := list[j];
        if !deleted[o] && nxtc[o] != stamp {
          nxtc := nxtc[o := stamp];
          touched' := touched' + [o];
        }
        j := j + 1;
      }
    }

    // One pass over the new part of the queue.
    method Gather(stamp: int) returns (touched: seq<int>)
      requires Progress(|rows|, []) && |nxtc| == |rows| && forall o :: 0 <= o < |nxtc| ==> nxtc[o] < stamp
      modifies this`head, this`nxtc
      ensures Progress(|rows|, touched) && head == |q|
      ensures |nxtc| == |rows| && forall o :: 0 <= o < |nxtc| ==> nxtc[o] <= stamp
    {
      touched := [];
      while head < |q|
        invariant Progress(|rows|, touched) && Stamped(stamp, touched) && Ids(touched, |rows|)
      {
        var x := q[head];
        ghost var pend, before := q[head..], touched;
        assert x in q;
        assert Ids(At(occurp, occurn, x), |rows|) && Ids(At(occurp, occurn, -x), |rows|);
        touched := Collect(occurp[x], stamp, touched);
        touched := Collect(occurn[x], stamp, touched);
        head := head + 1;
        assert pend == [x] + q[head..];
        TrackedPop(rows, deleted, varval, occurp, occurn, x, q[head..], before, touched);
      }
    }

    method SimplifyTouched(touched: seq<int>) returns (ok: bool)
      requires Progress(|rows|, touched)
      modifies this`rows, this`deleted, this`varval, this`q
      ensures ok ==> Progress(|rows|, [])
      ensures !ok ==> forall a :: !InputSat(input, a)
      ensures old(q) <= q && Queued() && |rows| == |deleted| == |input|
    {
      ok := true;
      ghost var n := |rows|;
      var i := 0;
      assert touched[0..] == touched;
      while i < |touched| && ok
        invariant 0 <= i <= |touched| && |rows| == |deleted| == |input| == n && old(q) <= q && Queued()
        invariant ok ==> Progress(n, touched[i..])
        invariant !ok ==> forall a :: !InputSat(input, a)
        decreases |touched| - i
      {
        assert touched[i..] == [touched[i]] + touched[i + 1..];
        assert touched[i] in touched[i..];
        ok := SimplifyVisited(touched[i], n, touched[i + 1..]);
        i := i + 1;
      }
    }

    // preprocess_up up to the relabelling. On success the input formula says
    // exactly what the assignment and the surviving rows say, and no
    // surviving row mentions an assigned variable.
    method Run() returns (ok: bool)
      requires Progress(0, []) && head == 0 && StampsBelow(resseen, seen, vars, 0)
      requires |nxtc| == |rows| && forall o :: 0 <= o < |nxtc| ==> nxtc[o] == 0
      requires forall i :: 0 <= i < |input| ==> VarsIn(input[i].lits, vars) && input[i].degree >= 1
      modifies this
      ensures |rows| == |deleted|
      ensures ok ==> forall a :: InputSat(input, a) <==> Agrees(varval, a) && LiveSat(rows, deleted, a)
      ensures ok ==> forall i :: 0 <= i < |rows| && !deleted[i] ==> Settled(rows[i], varval)
      ensures ok ==> |varval| == vars + 1 && QueueOk(q, varval)
      ensures !ok ==> forall a :: !InputSat(input, a)
    {
      ok := FirstPass();
      var stamp := 0;
      while ok && head < |q|
        invariant |rows| == |deleted| == |input|
        invariant ok ==> Progress(|rows|, [])
        invariant ok ==> |nxtc| == |rows| && forall o :: 0 <= o < |nxtc| ==> nxtc[o] <= stamp
        invariant !ok ==> forall a :: !InputSat(input, a)
        decreases ok, vars + 1 - head
      {
        stamp := stamp + 1;
        var touched := Gather(stamp);
        ok := SimplifyTouched(touched);
      }
      if ok {
        FixpointReached(input, rows, deleted, varval, occurp, occurn);
      }
    }
  }

  lemma {:induction false} ZerosAll(n: nat)
    ensures Zeros(Repeat(0, n)) == n
  {
    if n > 0 {
      ZerosAll(n - 1);
      assert Repeat(0, n)[..n - 1] == Repeat(0, n - 1);
    }
  }

  lemma NothingVisited(rows: seq<Row>, vars: nat)
    ensures TableMeaning(rows, rows, NoneDeleted(|rows|), Repeat(0, vars + 1), 0)
  {
    forall a: Assignment
      ensures InputSat(rows, a) <==> ViewSat(rows, NoneDeleted(|rows|), 0, a)
    {
      assert forall i :: 0 <= i < |rows| ==> DedupRows(rows)[i] == Row(Dedup(rows[i].lits), rows[i].degree);
      if ViewSat(rows, NoneDeleted(|rows|), 0, a) {
        forall i | 0 <= i < |rows|
          ensures RowSat(DedupRows(rows)[i], a)
        {
          assert !NoneDeleted(|rows|)[i];
        }
      }
    }
  }

  // A variable leaves the queue once its rows are waiting.
  lemma TrackedPop(rows: seq<Row>, deleted: seq<bool>, varval: seq<int>, occurp: seq<seq<int>>, occurn: seq<seq<int>>,
                   x: int, rest: seq<int>, todo: seq<int>, todo': seq<int>)
    requires |rows| == |deleted| && 1 <= x < |varval|
    requires Tracked(rows, deleted, |rows|, varval, occurp, occurn, [x] + rest, todo)
    requires Ids(todo', |rows|) && forall o :: o in todo ==> o in todo'
    requires forall j :: 0 <= j < |occurp[x]| && 0 <= occurp[x][j] < |rows| && !deleted[occurp[x][j]] ==> occurp[x][j] in todo'
    requires forall j :: 0 <= j < |occurn[x]| && 0 <= occurn[x][j] < |rows| && !deleted[occurn[x][j]] ==> occurn[x][j] in todo'
    ensures Tracked(rows, deleted, |rows|, varval, occurp, occurn, rest, todo')
  {
    forall o | 0 <= o < |rows| && !deleted[o]
      ensures RowTracked(rows[o], o, varval, occurp, occurn, rest, todo')
    {
      assert RowTracked(rows[o], o, varval, occurp, occurn, [x] + rest, todo);
      forall l | l in rows[o].lits && varval[Abs(l)] != 0
        ensures Abs(l) in rest || o in todo'
      {
        if Abs(l) == x {
          assert l == x || l == -x;
          assert o in At(occurp, occurn, l);
        }
      }
    }
  }

  lemma FixpointReached(input: seq<Row>, rows: seq<Row>, deleted: seq<bool>, varval: seq<int>,
                        occurp: seq<seq<int>>, occurn: seq<seq<int>>)
    requires |rows| == |deleted| && TableMeaning(input, rows, deleted, varval, |rows|)
    requires Tracked(rows, deleted, |rows|, varval, occurp, occurn, [], [])
    ensures forall a :: InputSat(input, a) <==> Agrees(varval, a) && LiveSat(rows, deleted, a)
    ensures forall i :: 0 <= i < |rows| && !deleted[i] ==> Settled(rows[i], varval)
  {
    forall a: Assignment
      ensures ViewSat(rows, deleted, |rows|, a) <==> LiveSat(rows, deleted, a)
    {
    }
    forall i | 0 <= i < |rows| && !deleted[i]
      ensures Settled(rows[i], varval)
    {
      assert RowTracked(rows[i], i, varval, occurp, occurn, [], []);
      assert forall j :: 0 <= j < |rows[i].lits| ==> rows[i].lits[j] in rows[i].lits;
    }
  }

  // The input formula, the assignment so far, and the rows: visited ones as
  // they are, the others as they will be read.
  ghost predicate TableMeaning(input: seq<Row>, rows: seq<Row>, deleted: seq<bool>, varval: seq<int>, k: int)
    requires |rows| == |deleted| && 0 <= k <= |rows|
  {
    forall a {:trigger InputSat(input, a)} {:trigger Agrees(varval, a)} ::
      InputSat(input, a) <==> Agrees(varval, a) && ViewSat(rows, deleted, k, a)
  }

  ghost predicate ViewSat(rows: seq<Row>, deleted: seq<bool>, k: int, a: Assignment)
    requires |rows| == |deleted| && 0 <= k <= |rows|
  {
    forall i :: 0 <= i < |rows| && !deleted[i] ==>
      RowSat(if i < k then rows[i] else Row(Dedup(rows[i].lits), rows[i].degree), a)
  }

  lemma TableStep(input: seq<Row>, rows: seq<Row>, deleted: seq<bool>, varval: seq<int>, k: int, id: nat,
                  r': Row, gone: bool, varval': seq<int>, ok: bool)
    requires |rows| == |deleted| && 0 <= k <= |rows| && id < k && !deleted[id]
    requires TableMeaning(input, rows, deleted, varval, k)
    requires ok ==> RowStep(varval, rows[id], varval', gone, r')
    requires !ok ==> RowImpossible(varval, rows[id])
    ensures ok ==> TableMeaning(input, rows[id := r'], deleted[id := gone], varval', k)
    ensures !ok ==> forall a :: !InputSat(input, a)
  {
    var rows', deleted' := rows[id := r'], deleted[id := gone];
    forall a: Assignment
      ensures ViewSat(rows, deleted, k, a) <==> ViewBut(rows, deleted, k, id, a) && RowSat(rows[id], a)
      ensures ViewSat(rows', deleted', k, a) <==> ViewBut(rows, deleted, k, id, a) && (gone || RowSat(r', a))
    {
      ViewSplit(rows, deleted, k, id, rows[id], false, a);
      ViewSplit(rows, deleted, k, id, r', gone, a);
      assert rows[id := rows[id]] == rows && deleted[id := false] == deleted;
    }
  }

  ghost predicate ViewBut(rows: seq<Row>, deleted: seq<bool>, k: int, id: int, a: Assignment)
    requires |rows| == |deleted| && 0 <= k <= |rows|
  {
    forall i :: 0 <= i < |rows| && !deleted[i] && i != id ==>
      RowSat(if i < k then rows[i] else Row(Dedup(rows[i].lits), rows[i].degree), a)
  }

  lemma ViewSplit(rows: seq<Row>, deleted: seq<bool>, k: int, id: nat, r: Row, gone: bool, a: Assignment)
    requires |rows| == |deleted| && 0 <= k <= |rows| && id < k
    ensures ViewSat(rows[id := r], deleted[id := gone], k, a) <==> ViewBut(rows, deleted, k, id, a) && (gone || RowSat(r, a))
  {
    var rows', deleted' := rows[id := r], deleted[id := gone];
    assert forall i :: 0 <= i < |rows| && i != id ==> rows'[i] == rows[i] && deleted'[i] == deleted[i];
    assert rows'[id] == r && deleted'[id] == gone;
  }

  // Row i moves from the unvisited to the visited ones.
  lemma TableVisit(input: seq<Row>, rows: seq<Row>, deleted: seq<bool>, varval: seq<int>, i: nat, r': Row, gone: bool)
    requires |rows| == |deleted| && i < |rows| && !deleted[i]
    requires TableMeaning(input, rows, deleted, varval, i)
    requires forall a :: RowSat(Row(Dedup(rows[i].lits), rows[i].degree), a) <==> gone || RowSat(r', a)
    ensures TableMeaning(input, rows[i := r'], deleted[i := gone], varval, i + 1)
  {
    forall a: Assignment
      ensures ViewSat(rows, deleted, i, a) <==> ViewSat(rows[i := r'], deleted[i := gone], i + 1, a)
    {
      var raw := Row(Dedup(rows[i].lits), rows[i].degree);
      ViewSplit(rows, deleted, i + 1, i, r', gone, a);
      assert ViewBut(rows, deleted, i + 1, i, a) <==> ViewBut(rows, deleted, i, i, a);
      assert ViewSat(rows, deleted, i, a) <==> ViewBut(rows, deleted, i, i, a) && RowSat(raw, a);
    }
  }

  // Every visited live row has its shape, is listed under its literals, and
  // an assigned variable in it is still pending or the row is waiting.
  ghost predicate Tracked(rows: seq<Row>, deleted: seq<bool>, k: int, varval: seq<int>,
                          occurp: seq<seq<int>>, occurn: seq<seq<int>>, pend: seq<int>, todo: seq<int>)
    requires |rows| == |deleted| && 0 <= k <= |rows|
  {
    && |occurp| == |occurn| == |varval|
    && (forall o :: o in todo ==> 0 <= o < k)
    && (forall l, j :: 1 <= Abs(l) < |varval| && 0 <= j < |At(occurp, occurn, l)| ==> 0 <= At(occurp, occurn, l)[j] < k)
    && forall o :: 0 <= o < k && !deleted[o] ==> RowTracked(rows[o], o, varval, occurp, occurn, pend, todo)
  }

  ghost predicate RowTracked(r: Row, o: int, varval: seq<int>, occurp: seq<seq<int>>, occurn: seq<seq<int>>,
                             pend: seq<int>, todo: seq<int>)
    requires |occurp| == |occurn| == |varval|
  {
    && RowShape(r, |varval| - 1) && (o in todo || r.degree < |r.lits|)
    && (forall l :: l in r.lits ==> 1 <= Abs(l) < |varval| && o in At(occurp, occurn, l))
    && (forall l :: l in r.lits && varval[Abs(l)] != 0 ==> Abs(l) in pend || o in todo)
  }

  lemma TrackedStep(rows: seq<Row>, deleted: seq<bool>, k: int, varval: seq<int>, q: seq<int>,
                    occurp: seq<seq<int>>, occurn: seq<seq<int>>, head: nat, id: nat, todo: seq<int>,
                    rows': seq<Row>, deleted': seq<bool>, varval': seq<int>, q': seq<int>)
    requires |rows| == |deleted| && 0 <= k <= |rows| && id < k && head <= |q|
    requires Tracked(rows, deleted, k, varval, occurp, occurn, q[head..], [id] + todo)
    requires |rows'| == |deleted'| == |rows| && |varval'| == |varval|
    requires rows' == rows[id := rows'[id]] && deleted' == deleted[id := deleted'[id]]
    requires deleted[id] ==> deleted'[id]
    requires !deleted'[id] ==> Settled(rows'[id], varval') && forall l :: l in rows'[id].lits ==> l in rows[id].lits
    requires QueueOk(q, varval) && QueueOk(q', varval') && q <= q' && ValuesGrow(varval, varval')
    ensures Tracked(rows', deleted', k, varval', occurp, occurn, q'[head..], todo)
  {
    var pend, pend' := q[head..], q'[head..];
    PendGrows(q, q', varval, varval', head);
    forall o | 0 <= o < k && !deleted'[o]
      ensures RowTracked(rows'[o], o, varval', occurp, occurn, pend', todo)
    {
      if o == id {
        SettledTracked(rows[o], rows'[o], o, varval, varval', occurp, occurn, pend, [id] + todo, pend', todo);
      } else {
        OtherTracked(rows[o], o, varval, varval', occurp, occurn, pend, [id] + todo, pend', todo);
      }
    }
    forall o | o in todo
      ensures 0 <= o < k
    {
      assert o in [id] + todo;
    }
  }

  // Newly assigned variables are pending.
  lemma PendGrows(q: seq<int>, q': seq<int>, varval: seq<int>, varval': seq<int>, head: nat)
    requires QueueOk(q, varval) && QueueOk(q', varval') && q <= q' && head <= |q| && |varval'| == |varval|
    ensures forall v :: v in q[head..] ==> v in q'[head..]
    ensures forall v :: 1 <= v < |varval| && varval[v] == 0 && varval'[v] != 0 ==> v in q'[head..]
  {
    forall v | 1 <= v < |varval| && varval[v] == 0 && varval'[v] != 0
      ensures v in q'[head..]
    {
      assert v in q' && v !in q;
      var i :| 0 <= i < |q'| && q'[i] == v;
      assert i >= |q|;
      assert q'[head..][i - head] == v;
    }
    forall v | v in q[head..]
      ensures v in q'[head..]
    {
      var i :| 0 <= i < |q[head..]| && q[head..][i] == v;
      assert q'[head..][i] == q'[head + i] == q[head + i];
    }
  }

  lemma SettledTracked(r: Row, r': Row, o: int, varval: seq<int>, varval': seq<int>,
                       occurp: seq<seq<int>>, occurn: seq<seq<int>>,
                       pend: seq<int>, todo: seq<int>, pend': seq<int>, todo': seq<int>)
    requires |occurp| == |occurn| == |varval| == |varval'|
    requires RowTracked(r, o, varval, occurp, occurn, pend, todo)
    requires Settled(r', varval') && forall l :: l in r'.lits ==> l in r.lits
    ensures RowTracked(r', o, varval', occurp, occurn, pend', todo')
  {
    forall l | l in r'.lits
      ensures varval'[Abs(l)] == 0
    {
      var j :| 0 <= j < |r'.lits| && r'.lits[j] == l;
    }
  }

  lemma OtherTracked(r: Row, o: int, varval: seq<int>, varval': seq<int>,
                     occurp: seq<seq<int>>, occurn: seq<seq<int>>,
                     pend: seq<int>, todo: seq<int>, pend': seq<int>, todo': seq<int>)
    requires |occurp| == |occurn| == |varval| == |varval'|
    requires RowTracked(r, o, varval, occurp, occurn, pend, todo)
    requires o in todo ==> o in todo'
    requires forall v :: v in pend ==> v in pend'
    requires forall v :: 1 <= v < |varval| && varval[v] == 0 && varval'[v] != 0 ==> v in pend'
    ensures RowTracked(r, o, varval', occurp, occurn, pend', todo')
  {
  }

  lemma TrackedVisit(rows: seq<Row>, deleted: seq<bool>, i: nat, varval: seq<int>,
                     occurp: seq<seq<int>>, occurn: seq<seq<int>>, occurp': seq<seq<int>>, occurn': seq<seq<int>>,
                     pend: seq<int>, rows': seq<Row>)
    requires |rows| == |deleted| && i < |rows| && |rows'| == |rows|
    requires Tracked(rows, deleted, i, varval, occurp, occurn, pend, [])
    requires rows' == rows[i := rows'[i]] && RowShape(rows'[i], |varval| - 1)
    requires Listed(occurp, occurn, occurp', occurn', rows'[i].lits, i)
    ensures Tracked(rows', deleted, i + 1, varval, occurp', occurn', pend, [i])
  {
    forall o | 0 <= o < i + 1 && !deleted[o]
      ensures RowTracked(rows'[o], o, varval, occurp', occurn', pend, [i])
    {
      if o < i {
        assert RowTracked(rows[o], o, varval, occurp, occurn, pend, []);
      }
    }
  }

  // Stamps of rows before `stamp` only.
  ghost predicate StampsBelow(resseen: seq<int>, seen: seq<int>, vars: nat, stamp: int) {
    && |resseen| == 2 * vars && |seen| == vars + 1
    && (forall c :: 0 <= c < |resseen| ==> resseen[c] <= stamp)
    && (forall v :: 0 <= v < |seen| ==> seen[v] <= stamp)
  }

  // The current stamp marks the literals of `out` and its paired variables.
  ghost predicate StampsAre(resseen: seq<int>, seen: seq<int>, vars: nat, stamp: int, out: seq<int>)
    requires |resseen| == 2 * vars && |seen| == vars + 1
  {
    && (forall l {:trigger ToLit(l)} :: 1 <= Abs(l) <= vars ==> (resseen[ToLit(l)] == stamp <==> l in out))
    && (forall v :: 1 <= v <= vars ==> (seen[v] == stamp <==> v in out && -v in out))
  }

  // The result of normalising one row.
  ghost predicate Normalised(r: Row, satisfied: bool, kept: seq<int>, degree: int) {
    var d := Dedup(r.lits);
    if satisfied then |Paired(d)| >= r.degree
    else kept == Keep(d, Paired(d)) && degree == r.degree - |Paired(d)| && degree >= 1
  }

  lemma DedupPrefix(lits: seq<int>, j: nat)
    requires j < |lits|
    ensures Dedup(lits[..j + 1]) ==
      if lits[j] in Dedup(lits[..j]) then Dedup(lits[..j]) else Dedup(lits[..j]) + [lits[j]]
    ensures forall l :: l in Dedup(lits[..j]) || l == lits[j] ==> l in Dedup(lits)
  {
    assert lits[..j + 1] == lits[..j] + [lits[j]];
    DedupSnoc(lits[..j], lits[j]);
    forall l | l in Dedup(lits[..j]) || l == lits[j]
      ensures l in Dedup(lits)
    {
      DedupMember(lits[..j], l);
      DedupMember(lits, l);
    }
  }

  // What has been seen of a row.
  lemma StampedRow(lits: seq<int>, j: nat, vars: nat)
    requires j <= |lits| && VarsIn(lits, vars)
    ensures VarsIn(Dedup(lits[..j]), vars) && (j == |lits| ==> lits[..j] == lits)
    ensures |Paired(Dedup(lits[..j]))| <= |Paired(Dedup(lits))|
  {
    DedupMembers(lits[..j]);
    DedupMembers(lits);
    PairedMonotone(Dedup(lits[..j]), Dedup(lits));
    DedupVarsIn(lits[..j], vars);
  }

  lemma DedupMember(lits: seq<int>, l: int)
    ensures l in Dedup(lits) <==> l in lits
  {
    DedupMembers(lits);
  }

  lemma SeenMark(out: seq<int>, l: int, vars: nat, resseen: seq<int>, seen: seq<int>, stamp: int)
    requires |resseen| == 2 * vars && |seen| == vars + 1 && 1 <= Abs(l) <= vars
    requires StampsAre(resseen, seen, vars, stamp, out)
    ensures seen[Abs(l)] == stamp <==> l in out && -l in out
    ensures 0 <= ToLit(l) < 2 * vars && 0 <= ToLit(-l) < 2 * vars
    ensures resseen[ToLit(l)] == stamp <==> l in out
    ensures resseen[ToLit(-l)] == stamp <==> -l in out
  {
    var v: int := Abs(l);
    assert seen[v] == stamp <==> v in out && -v in out;
    assert l == v || l == -v;
  }

  lemma ToLitInjective(x: int, y: int)
    requires x != 0 && y != 0
    ensures ToLit(x) == ToLit(y) <==> x == y
  {
  }

  // Marking a new literal and, if its complement is there, its variable.
  lemma StampStep(resseen: seq<int>, seen: seq<int>, vars: nat, stamp: int, out: seq<int>, l: int)
    requires |resseen| == 2 * vars && |seen| == vars + 1 && 1 <= Abs(l) <= vars
    requires StampsAre(resseen, seen, vars, stamp, out)
    ensures 0 <= ToLit(l) < 2 * vars && 0 <= ToLit(-l) < 2 * vars
    ensures resseen[ToLit(l)] == stamp <==> l in out
    ensures resseen[ToLit(-l)] == stamp <==> -l in out
    ensures l !in out && -l in out ==> seen[Abs(l)] != stamp
    ensures l !in out ==> StampsAre(resseen[ToLit(l) := stamp],
      if -l in out then seen[Abs(l) := stamp] else seen, vars, stamp, out + [l])
  {
    SeenMark(out, l, vars, resseen, seen, stamp);
    if l !in out {
      var marks, flags := resseen[ToLit(l) := stamp], if -l in out then seen[Abs(l) := stamp] else seen;
      forall x {:trigger ToLit(x)} | 1 <= Abs(x) <= vars
        ensures marks[ToLit(x)] == stamp <==> x in out + [l]
      {
        ToLitInjective(x, l);
        SeenMark(out, x, vars, resseen, seen, stamp);
      }
      forall v | 1 <= v <= vars
        ensures flags[v] == stamp <==> v in out + [l] && -v in out + [l]
      {
        SeenMark(out, v, vars, resseen, seen, stamp);
      }
      assert StampsAre(marks, flags, vars, stamp, out + [l]);
    }
  }

  lemma PairedCount(out: seq<int>, l: int)
    requires l != 0
    ensures l !in out ==> |Paired(out + [l])| == |Paired(out)| + ToInt(-l in out)
  {
    PairedSnoc(out, l);
    PairedHas(out, l);
    if l !in out && -l in out {
      assert |Paired(out) + {Abs(l) as int}| == |Paired(out)| + 1;
    }
  }

  lemma DedupVarsIn(lits: seq<int>, vars: nat)
    requires VarsIn(lits, vars)
    ensures VarsIn(Dedup(lits), vars)
  {
    DedupMembers(lits);
    var d := Dedup(lits);
    forall j | 0 <= j < |d|
      ensures 1 <= Abs(d[j]) <= vars
    {
      assert d[j] in d;
    }
  }

  lemma PairedMonotone(x: seq<int>, y: seq<int>)
    requires forall l :: l in x ==> l in y
    ensures |Paired(x)| <= |Paired(y)|
  {
    SubsetSize(Paired(x), Paired(y));
  }

  // Normalising keeps the meaning of an input row.
  lemma NormalisedMeaning(r: Row, vars: nat, satisfied: bool, kept: seq<int>, degree: int)
    requires VarsIn(r.lits, vars) && Normalised(r, satisfied, kept, degree)
    ensures satisfied ==> forall a :: RowSat(Row(Dedup(r.lits), r.degree), a)
    ensures !satisfied ==> forall a :: RowSat(Row(Dedup(r.lits), r.degree), a) <==> RowSat(Row(kept, degree), a)
    ensures !satisfied ==> RowShape(Row(kept, degree), vars)
  {
    forall a: Assignment
      ensures satisfied ==> RowSat(Row(Dedup(r.lits), r.degree), a)
      ensures !satisfied ==> (RowSat(Row(Dedup(r.lits), r.degree), a) <==> RowSat(Row(kept, degree), a))
    {
      PairsCountOne(r.lits, a);
    }
    if !satisfied {
      NormalisedShape(r.lits, vars);
    }
  }

  lemma NormalisedShape(lits: seq<int>, vars: nat)
    requires VarsIn(lits, vars)
    ensures var k := Keep(Dedup(lits), Paired(Dedup(lits)));
      DistinctVars(k) && VarsIn(k, vars)
  {
    var d := Dedup(lits);
    var k := Keep(d, Paired(d));
    PairsCountOne(lits, x => true);
    DedupVarsIn(lits, vars);
    forall j | 0 <= j < |k|
      ensures 1 <= Abs(k[j]) <= vars
    {
      var l := k[j];
      assert l in k;
      KeepMember(d, Paired(d), l);
      var i :| 0 <= i < |d| && d[i] == l;
    }
  }

  ghost predicate ValuesGrow(varval: seq<int>, varval': seq<int>) {
    && |varval'| == |varval|
    && forall v :: 1 <= v < |varval| && varval[v] != 0 ==> varval'[v] == varval[v]
  }

  ghost predicate LitsHold(lits: seq<int>, a: Assignment) {
    forall j :: 0 <= j < |lits| ==> Holds(lits[j], a)
  }

  lemma AgreesUpdate(varval: seq<int>, l: int)
    requires 1 <= Abs(l) < |varval| && varval[Abs(l)] == 0
    ensures forall a :: Agrees(varval, a) && Holds(l, a) <==> Agrees(varval[Abs(l) := Sign(l)], a)
  {
    var varval' := varval[Abs(l) := Sign(l)];
    forall a: Assignment
      ensures Agrees(varval, a) && Holds(l, a) <==> Agrees(varval', a)
    {
      if Agrees(varval', a) {
        assert a(Abs(l)) == (varval'[Abs(l)] == 1);
        assert forall v :: 1 <= v < |varval| && varval[v] != 0 ==> varval'[v] == varval[v];
      }
    }
  }

  lemma ForceStep(first: seq<int>, before: seq<int>, after: seq<int>, lits: seq<int>, j: nat, ok: bool)
    requires j < |lits|
    requires forall a :: Agrees(first, a) && LitsHold(lits[..j], a) <==> Agrees(before, a)
    requires forall a :: Agrees(before, a) && Holds(lits[j], a) <==> ok && Agrees(after, a)
    ensures ok ==> forall a :: Agrees(first, a) && LitsHold(lits[..j + 1], a) <==> Agrees(after, a)
    ensures !ok ==> forall a :: !(Agrees(first, a) && LitsHold(lits, a))
  {
    forall a: Assignment
      ensures LitsHold(lits[..j + 1], a) <==> LitsHold(lits[..j], a) && Holds(lits[j], a)
      ensures LitsHold(lits, a) ==> LitsHold(lits[..j + 1], a)
    {
      assert lits[..j + 1] == lits[..j] + [lits[j]];
      assert forall k :: 0 <= k < j ==> lits[..j + 1][k] == lits[..j][k];
      assert lits[..j + 1][j] == lits[j];
    }
  }

  lemma CompactMeaning(r: Row, varval: seq<int>, satisfied: bool, kept: seq<int>, degree: int)
    requires ValuesOk(varval) && RowShape(r, |varval| - 1)
    requires satisfied ==> Trues(r.lits, varval) >= r.degree
    requires !satisfied ==>
      kept == Keep(r.lits, Assigned(varval)) && degree == r.degree - Trues(r.lits, varval) && degree >= 1
    ensures satisfied ==> forall a :: Agrees(varval, a) ==> RowSat(r, a)
    ensures !satisfied ==> forall a :: Agrees(varval, a) ==> (RowSat(r, a) <==> Count(kept, a) >= degree)
    ensures !satisfied && degree > |kept| ==> RowImpossible(varval, r)
    ensures !satisfied ==> VarsIn(kept, |varval| - 1) && forall l :: l in kept ==> l in r.lits
    ensures !satisfied && degree < |kept| ==> Settled(Row(kept, degree), varval)
  {
    var k, t := Keep(r.lits, Assigned(varval)), Trues(r.lits, varval);
    forall a | Agrees(varval, a)
      ensures Count(r.lits, a) == Count(k, a) + t && Count(k, a) <= |k|
    {
      CountAssigned(r.lits, varval, a);
      CountBound(k, a);
    }
    KeptShape(r.lits, varval);
  }

  // What survives compaction has distinct unassigned variables.
  lemma KeptShape(lits: seq<int>, varval: seq<int>)
    requires DistinctVars(lits) && VarsIn(lits, |varval| - 1)
    ensures var k := Keep(lits, Assigned(varval));
      && DistinctVars(k) && VarsIn(k, |varval| - 1) && (forall l :: l in k ==> l in lits)
      && forall j :: 0 <= j < |k| ==> varval[Abs(k[j])] == 0
  {
    KeepMembers(lits, Assigned(varval));
    KeepDistinct(lits, Assigned(varval));
    var k := Keep(lits, Assigned(varval));
    forall j | 0 <= j < |k|
      ensures 1 <= Abs(k[j]) < |varval| && varval[Abs(k[j])] == 0
    {
      assert k[j] in k;
    }
  }

  lemma ForcedMeaning(r: Row, varval: seq<int>, varval': seq<int>, kept: seq<int>, degree: int, ok: bool)
    requires degree == |kept|
    requires forall a :: Agrees(varval, a) ==> (RowSat(r, a) <==> Count(kept, a) >= degree)
    requires forall a :: Agrees(varval, a) && LitsHold(kept, a) <==> ok && Agrees(varval', a)
    ensures ok ==> forall r' :: RowStep(varval, r, varval', true, r')
    ensures !ok ==> RowImpossible(varval, r)
  {
    forall a: Assignment
      ensures LitsHold(kept, a) <==> Count(kept, a) >= degree
    {
      CountFull(kept, a);
      CountBound(kept, a);
    }
  }
}
