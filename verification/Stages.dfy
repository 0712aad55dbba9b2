/** The state between preprocessing passes: how a model of the current rows
    becomes a model of the input rows, pass by pass. */
module Stages {
  import opened Knf
  import opened Elimination
  import opened RecoveryLog
  import opened Relabel
  import opened Recovery
  import opened UnitRows
  import opened UnitPropagation
  import opened ResolutionPass
  import opened SignedUnionFind
  import opened BinaryPass

  function ValueOf(b: bool): int {
    if b then 1 else -1
  }

  // The values that `build_model` starts from: mapped variables take the
  // value of their image, the others the one stored in mapval.
  function Filled(mapto: seq<int>, mapval: seq<int>, a: Assignment): seq<int>
    requires |mapto| == |mapval|
  {
    seq(|mapto|, i requires 0 <= i < |mapto| =>
      if mapto[i] != 0 then ValueOf(Holds(mapto[i], a)) else mapval[i])
  }

  // The first loop of `get_complete_model` resets eliminated variables.
  function Cleared(m: seq<int>): seq<int> {
    seq(|m|, i requires 0 <= i < |m| => if m[i] == 1 || m[i] == -1 then m[i] else 0)
  }

  function Values(m: seq<int>): Assignment {
    x => 0 <= x < |m| && m[x] == 1
  }

  ghost predicate FullModel(input: seq<Row>, m: seq<int>) {
    (forall i :: 1 <= i < |m| ==> m[i] == 1 || m[i] == -1) && InputSat(input, Values(m))
  }

  ghost predicate RecoversModel(input: seq<Row>, log: seq<Group>, names: seq<int>, m: seq<int>) {
    var r := NamedReplay(log, names, m);
    r.Some? && |r.value| == |m| && FullModel(input, r.value)
  }

  ghost predicate MapsOk(mapto: seq<int>, mapval: seq<int>, vars: int) {
    && |mapto| == |mapval| >= 1 && mapto[0] == 0
    && (forall i :: 1 <= i < |mapto| ==> Abs(mapto[i]) <= vars)
    && forall i :: 1 <= i < |mapto| && mapto[i] == 0 ==> mapval[i] == 1 || mapval[i] == -1 || mapval[i] == -10
  }

  // Every model of the current rows recovers a full model of the input, and
  // if the input has a model then so have the current rows.
  ghost predicate Stage(input: seq<Row>, rows: seq<Row>, vars: int, mapto: seq<int>, mapval: seq<int>,
                        log: seq<Group>, names: seq<int>) {
    && MapsOk(mapto, mapval, vars)
    && (forall a :: RowsSat(rows, a) ==> RecoversModel(input, log, names, Cleared(Filled(mapto, mapval, a))))
    && ((exists m :: InputSat(input, m)) ==> exists a :: RowsSat(rows, a))
  }

  // The state after unit propagation: names are plain, nothing is logged.
  ghost predicate UpMaps(mapto: seq<int>, mapval: seq<int>, names: seq<int>) {
    && |mapto| == |mapval| >= 1 && |names| >= 1 && mapto[0] == 0 && mapval[0] == 0
    && Inverse(mapto, names)
    && forall i :: 1 <= i < |mapto| ==> if mapto[i] == 0 then mapval[i] == 1 || mapval[i] == -1 else mapval[i] == 0
  }

  ghost predicate UpStage(input: seq<Row>, rows: seq<Row>, mapto: seq<int>, mapval: seq<int>, names: seq<int>) {
    && UpMaps(mapto, mapval, names)
    && (forall a :: RowsSat(rows, a) ==> InputSat(input, Values(Filled(mapto, mapval, a))))
    && (forall m {:trigger RowsSat(rows, Through(names, m))} :: InputSat(input, m) ==> RowsSat(rows, Through(names, m)))
  }

  lemma LiveAgree(rows: seq<Row>, deleted: seq<bool>, a: Assignment, b: Assignment)
    requires |rows| == |deleted|
    requires forall x :: LiveMention(rows, deleted, x) ==> a(x) == b(x)
    ensures LiveSat(rows, deleted, a) <==> LiveSat(rows, deleted, b)
  {
    forall i | 0 <= i < |rows| && !deleted[i]
      ensures RowSat(rows[i], a) <==> RowSat(rows[i], b)
    {
      forall j | 0 <= j < |rows[i].lits|
        ensures a(Abs(rows[i].lits[j])) == b(Abs(rows[i].lits[j]))
      {
        assert Mentions(rows[i].lits, Abs(rows[i].lits[j]));
      }
      CountAgree(rows[i].lits, a, b);
    }
  }

  // Unit propagation followed by relabelling.
  lemma UpRecovers(input: seq<Row>, rows: seq<Row>, deleted: seq<bool>, varval: seq<int>,
                   color: seq<int>, from: seq<int>, mapto: seq<int>, mapval: seq<int>)
    requires |rows| == |deleted| && |varval| == |color| == |mapto|
    requires forall a :: InputSat(input, a) <==> Agrees(varval, a) && LiveSat(rows, deleted, a)
    requires forall i :: 0 <= i < |rows| && !deleted[i] ==> Settled(rows[i], varval)
    requires Inverse(color, from) && RowsNamed(LiveRows(rows, deleted), color)
    requires forall v :: 1 <= v < |color| ==> (color[v] != 0 <==> LiveMention(rows, deleted, v))
    requires UpMaps(mapto, mapval, from)
    requires forall v :: 1 <= v < |color| ==> mapto[v] == color[v]
    requires forall v :: 1 <= v < |color| && varval[v] != 0 ==> mapval[v] == varval[v]
    ensures UpStage(input, RenameRows(LiveRows(rows, deleted), color), mapto, mapval, from)
  {
    RelabelledModels(rows, deleted, color, from);
    var rows' := RenameRows(LiveRows(rows, deleted), color);
    forall a | RowsSat(rows', a)
      ensures InputSat(input, Values(Filled(mapto, mapval, a)))
    {
      var b := Values(Filled(mapto, mapval, a));
      forall x | LiveMention(rows, deleted, x)
        ensures Through(color, a)(x) == b(x)
      {
        LiveMentionSettled(rows, deleted, varval, x);
      }
      LiveAgree(rows, deleted, Through(color, a), b);
      forall v | 1 <= v < |varval| && varval[v] != 0
        ensures b(v) == (varval[v] == 1)
      {
        if color[v] != 0 {
          LiveMentionSettled(rows, deleted, varval, v);
        }
      }
    }
  }

  lemma LiveMentionSettled(rows: seq<Row>, deleted: seq<bool>, varval: seq<int>, x: int)
    requires |rows| == |deleted| && LiveMention(rows, deleted, x)
    requires forall i :: 0 <= i < |rows| && !deleted[i] ==> Settled(rows[i], varval)
    ensures 1 <= x < |varval| && varval[x] == 0
  {
    var i :| 0 <= i < |rows| && !deleted[i] && Mentions(rows[i].lits, x);
    assert Settled(rows[i], varval);
    var j :| 0 <= j < |rows[i].lits| && Abs(rows[i].lits[j]) == x;
  }

  // With nothing eliminated the stage is the one after unit propagation.
  lemma UpIsStage(input: seq<Row>, rows: seq<Row>, mapto: seq<int>, mapval: seq<int>, names: seq<int>)
    requires UpStage(input, rows, mapto, mapval, names)
    ensures Stage(input, rows, |names| - 1, mapto, mapval, [], names)
  {
    forall a | RowsSat(rows, a)
      ensures RecoversModel(input, [], names, Cleared(Filled(mapto, mapval, a)))
    {
      var m := Filled(mapto, mapval, a);
      assert Cleared(m) == m;
    }
    if m :| InputSat(input, m) {
      assert RowsSat(rows, Through(names, m));
    }
  }

  // The maps after resolution, entry by entry.
  ghost predicate ResolvedMaps(mapto: seq<int>, mapval: seq<int>, names: seq<int>, log: seq<Group>, pures: seq<Pure>,
                               color: seq<int>, mapto': seq<int>, mapval': seq<int>) {
    && |mapto'| == |mapval'| == |mapto| == |mapval| >= 1 && |color| == |names| >= 1
    && mapto'[0] == 0 && mapval'[0] == mapval[0]
    && (forall i :: 1 <= i < |mapto| && mapto[i] == 0 ==> mapto'[i] == 0 && mapval'[i] == mapval[i])
    && forall i :: 1 <= i < |mapto| && 1 <= mapto[i] < |names| ==>
         NewEntry(mapto[i], log, pures, color, mapto'[i], mapval'[i])
  }

  ghost predicate PureValue(pures: seq<Pure>, x: int, value: int) {
    exists k :: 0 <= k < |pures| && pures[k] == Pure(x, value)
  }

  ghost predicate IsPure(pures: seq<Pure>, x: int) {
    exists k :: 0 <= k < |pures| && pures[k].v == x
  }

  ghost predicate NewEntry(x: int, log: seq<Group>, pures: seq<Pure>, color: seq<int>, to: int, value: int)
    requires 1 <= x < |color|
  {
    if IsPivot(log, x) then to == 0 && value == -10
    else if IsPure(pures, x) then to == 0 && PureValue(pures, x, value)
    else to == color[x] && (to == 0 ==> value == 1)
  }

  // Setting pure variables to values they already have changes nothing.
  lemma {:induction false} PuresAlreadySet(pures: seq<Pure>, a: Assignment)
    requires forall k :: 0 <= k < |pures| ==> a(pures[k].v) == (pures[k].value > 0)
    ensures forall x :: ApplyPures(pures, a)(x) == a(x)
  {
    if pures != [] {
      var n := |pures| - 1;
      var p := pures[n];
      var b := Set(a, p.v, p.value > 0);
      assert forall x :: b(x) == a(x);
      forall k | 0 <= k < n
        ensures b(pures[..n][k].v) == (pures[..n][k].value > 0)
      {
        assert pures[..n][k] == pures[k];
      }
      PuresAlreadySet(pures[..n], b);
    }
  }

  // The retired variables, and what holds of the rows left.
  ghost predicate Retired(log: seq<Group>, pures: seq<Pure>, clean: seq<bool>, rows: seq<Row>, deleted: seq<bool>) {
    && |clean| >= 1 && LogOk(log, |clean| - 1) && PuresOk(pures, log, clean) && LiveRowsOk(rows, deleted, clean)
    && forall k :: 0 <= k < |log| ==> clean[log[k].pivot]
  }

  lemma RetiredNotMentioned(log: seq<Group>, pures: seq<Pure>, clean: seq<bool>, rows: seq<Row>, deleted: seq<bool>, x: int)
    requires Retired(log, pures, clean, rows, deleted) && LiveMention(rows, deleted, x)
    ensures 1 <= x < |clean| && !IsPivot(log, x) && !IsPure(pures, x)
  {
    var i :| 0 <= i < |rows| && !deleted[i] && Mentions(rows[i].lits, x);
    assert RowOk(rows[i], clean);
    var j :| 0 <= j < |rows[i].lits| && Abs(rows[i].lits[j]) == x;
    assert !clean[x];
    PuresClean(pures, log, clean);
    assert forall k :: 0 <= k < |pures| ==> PureOk(pures[k], clean);
  }

  lemma {:induction false} PuresUnique(pures: seq<Pure>, log: seq<Group>, clean: seq<bool>, i: nat, j: nat)
    requires PuresOk(pures, log, clean) && i < |pures| && j < |pures| && pures[i].v == pures[j].v
    ensures i == j
  {
    var n := |pures| - 1;
    assert forall k :: 0 <= k < n ==> pures[..n][k] == pures[k];
    if i < n && j < n {
      PuresUnique(pures[..n], log, clean, i, j);
    }
  }

  lemma {:induction false} PuresNotPivots(pures: seq<Pure>, log: seq<Group>, clean: seq<bool>, i: nat)
    requires PuresOk(pures, log, clean) && i < |pures|
    ensures PureOk(pures[i], clean) && !IsPivot(log, pures[i].v)
  {
    var n := |pures| - 1;
    if i < n {
      assert pures[..n][i] == pures[i];
      PuresNotPivots(pures[..n], log, clean, i);
    }
  }

  // The value that the recovered vector starts with for a variable of the
  // rows after unit propagation.
  lemma StartValue(mapto: seq<int>, mapval: seq<int>, names: seq<int>, log: seq<Group>, pures: seq<Pure>, clean: seq<bool>,
                   color: seq<int>, mapto': seq<int>, mapval': seq<int>, a: Assignment, x: int)
    requires UpMaps(mapto, mapval, names) && PuresOk(pures, log, clean)
    requires ResolvedMaps(mapto, mapval, names, log, pures, color, mapto', mapval') && 1 <= x < |names|
    ensures 1 <= names[x] < |mapto|
    ensures var v := Cleared(Filled(mapto', mapval', a))[names[x]];
      && (!IsPivot(log, x) ==> v == 1 || v == -1)
      && (forall k :: 0 <= k < |pures| && pures[k].v == x ==> v == pures[k].value)
      && (!IsPivot(log, x) && !IsPure(pures, x) && color[x] != 0 ==> v == ValueOf(Holds(color[x], a)))
  {
    assert mapto[names[x]] == x;
    assert NewEntry(x, log, pures, color, mapto'[names[x]], mapval'[names[x]]);
    forall k | 0 <= k < |pures| && pures[k].v == x
      ensures Cleared(Filled(mapto', mapval', a))[names[x]] == pures[k].value
    {
      PuresNotPivots(pures, log, clean, k);
      assert IsPure(pures, x);
      var k' :| 0 <= k' < |pures| && pures[k'] == Pure(x, mapval'[names[x]]);
      PuresUnique(pures, log, clean, k, k');
    }
    if IsPure(pures, x) {
      var k :| 0 <= k < |pures| && pures[k].v == x;
      PuresNotPivots(pures, log, clean, k);
    }
  }

  // The assignment to the rows after unit propagation that the start vector
  // stands for.
  function Started(names: seq<int>, m: seq<int>): Assignment {
    x => 1 <= x < |names| && 0 <= names[x] < |m| && m[names[x]] == 1
  }

  lemma StartMatches(mapto: seq<int>, mapval: seq<int>, names: seq<int>, log: seq<Group>, pures: seq<Pure>, clean: seq<bool>,
                     color: seq<int>, mapto': seq<int>, mapval': seq<int>, a: Assignment)
    requires UpMaps(mapto, mapval, names) && PuresOk(pures, log, clean)
    requires ResolvedMaps(mapto, mapval, names, log, pures, color, mapto', mapval') && |clean| == |names|
    ensures var m := Cleared(Filled(mapto', mapval', a));
      Matches(log, names, m, ApplyPures(pures, Started(names, m)))
  {
    var m := Cleared(Filled(mapto', mapval', a));
    var b := Started(names, m);
    forall k | 0 <= k < |pures|
      ensures b(pures[k].v) == (pures[k].value > 0)
    {
      PuresNotPivots(pures, log, clean, k);
      StartValue(mapto, mapval, names, log, pures, clean, color, mapto', mapval', a, pures[k].v);
    }
    PuresAlreadySet(pures, b);
    NamesDistinct(mapto, names);
    forall x | 1 <= x < |names| && !IsPivot(log, x)
      ensures m[names[x]] == if ApplyPures(pures, b)(x) then 1 else -1
    {
      StartValue(mapto, mapval, names, log, pures, clean, color, mapto', mapval', a, x);
    }
  }

  lemma NamesDistinct(mapto: seq<int>, names: seq<int>)
    requires Inverse(mapto, names)
    ensures NamesOk(names, |mapto|)
  {
    forall x, y | 1 <= x < y < |names|
      ensures names[x] != names[y]
    {
      assert mapto[names[x]] == x && mapto[names[y]] == y;
    }
  }

  lemma StartSatisfies(mapto: seq<int>, mapval: seq<int>, names: seq<int>, log: seq<Group>, pures: seq<Pure>, clean: seq<bool>,
                       color: seq<int>, mapto': seq<int>, mapval': seq<int>, a: Assignment,
                       rows: seq<Row>, deleted: seq<bool>)
    requires UpMaps(mapto, mapval, names)
    requires ResolvedMaps(mapto, mapval, names, log, pures, color, mapto', mapval') && |clean| == |names|
    requires Retired(log, pures, clean, rows, deleted) && LiveSat(rows, deleted, Through(color, a))
    requires forall v :: 1 <= v < |color| ==> (color[v] != 0 <==> LiveMention(rows, deleted, v))
    ensures LiveSat(rows, deleted, Started(names, Cleared(Filled(mapto', mapval', a))))
  {
    var b := Started(names, Cleared(Filled(mapto', mapval', a)));
    forall x | LiveMention(rows, deleted, x)
      ensures b(x) == Through(color, a)(x)
    {
      RetiredNotMentioned(log, pures, clean, rows, deleted, x);
      StartValue(mapto, mapval, names, log, pures, clean, color, mapto', mapval', a, x);
    }
    LiveAgree(rows, deleted, b, Through(color, a));
  }

  // What replay ends with is what unit propagation fills in for a model of
  // its rows.
  lemma ReplayFills(mapto: seq<int>, mapval: seq<int>, names: seq<int>, m: seq<int>, m': seq<int>, v: Assignment)
    requires UpMaps(mapto, mapval, names) && |m| == |m'| == |mapto|
    requires Matches([], names, m', v)
    requires forall i :: 0 <= i < |m| && (forall x :: 1 <= x < |names| ==> names[x] != i) ==> m'[i] == m[i]
    requires forall i :: 0 <= i < |m| && mapto[i] == 0 ==> m[i] == mapval[i]
    ensures m' == Filled(mapto, mapval, v)
    ensures forall i :: 1 <= i < |m'| ==> m'[i] == 1 || m'[i] == -1
  {
    assert forall x :: !IsPivot([], x);
    forall i | 0 <= i < |m'|
      ensures m'[i] == Filled(mapto, mapval, v)[i]
    {
      if mapto[i] != 0 {
        assert names[mapto[i]] == i;
      } else {
        forall x | 1 <= x < |names|
          ensures names[x] != i
        {
          assert mapto[names[x]] == x;
        }
      }
    }
  }

  // Elimination and pure literals followed by relabelling.
  lemma ResolutionRecovers(input: seq<Row>, original: seq<Row>, mapto: seq<int>, mapval: seq<int>, names: seq<int>,
                           log: seq<Group>, pures: seq<Pure>, clean: seq<bool>, rows: seq<Row>, deleted: seq<bool>,
                           color: seq<int>, from: seq<int>, mapto': seq<int>, mapval': seq<int>)
    requires UpStage(input, original, mapto, mapval, names) && |clean| == |names|
    requires Retired(log, pures, clean, rows, deleted) && RecoversAll(original, log, pures, rows, deleted)
    requires Inverse(color, from) && |from| >= 1 && RowsNamed(LiveRows(rows, deleted), color)
    requires forall v :: 1 <= v < |color| ==> (color[v] != 0 <==> LiveMention(rows, deleted, v))
    requires ResolvedMaps(mapto, mapval, names, log, pures, color, mapto', mapval')
    ensures Stage(input, RenameRows(LiveRows(rows, deleted), color), |from| - 1, mapto', mapval', log, names)
  {
    RelabelledModels(rows, deleted, color, from);
    var rows' := RenameRows(LiveRows(rows, deleted), color);
    ResolvedMapsOk(mapto, mapval, names, log, pures, clean, color, from, mapto', mapval');
    forall a | RowsSat(rows', a)
      ensures RecoversModel(input, log, names, Cleared(Filled(mapto', mapval', a)))
    {
      ModelRecovers(input, original, mapto, mapval, names, log, pures, clean, rows, deleted, color, mapto', mapval', a);
    }
    if m :| InputSat(input, m) {
      assert RowsSat(original, Through(names, m));
      assert LiveSat(rows, deleted, Through(names, m));
      assert RowsSat(rows', Through(from, Through(names, m)));
    }
  }

  lemma ModelRecovers(input: seq<Row>, original: seq<Row>, mapto: seq<int>, mapval: seq<int>, names: seq<int>,
                      log: seq<Group>, pures: seq<Pure>, clean: seq<bool>, rows: seq<Row>, deleted: seq<bool>,
                      color: seq<int>, mapto': seq<int>, mapval': seq<int>, a: Assignment)
    requires UpStage(input, original, mapto, mapval, names) && |clean| == |names|
    requires Retired(log, pures, clean, rows, deleted) && RecoversAll(original, log, pures, rows, deleted)
    requires forall v :: 1 <= v < |color| ==> (color[v] != 0 <==> LiveMention(rows, deleted, v))
    requires ResolvedMaps(mapto, mapval, names, log, pures, color, mapto', mapval')
    requires LiveSat(rows, deleted, Through(color, a))
    ensures RecoversModel(input, log, names, Cleared(Filled(mapto', mapval', a)))
  {
    var m := Cleared(Filled(mapto', mapval', a));
    StartSatisfies(mapto, mapval, names, log, pures, clean, color, mapto', mapval', a, rows, deleted);
    StartMatches(mapto, mapval, names, log, pures, clean, color, mapto', mapval', a);
    var b := Started(names, m);
    assert Rebuild(log, pures, b).Some?;
    NamedReplayAgrees(log, names, m, ApplyPures(pures, b));
    ReplayFills(mapto, mapval, names, m, NamedReplay(log, names, m).value, Rebuild(log, pures, b).value);
  }

  lemma ResolvedMapsOk(mapto: seq<int>, mapval: seq<int>, names: seq<int>, log: seq<Group>, pures: seq<Pure>,
                       clean: seq<bool>, color: seq<int>, from: seq<int>, mapto': seq<int>, mapval': seq<int>)
    requires UpMaps(mapto, mapval, names) && PuresOk(pures, log, clean) && Inverse(color, from) && |from| >= 1
    requires ResolvedMaps(mapto, mapval, names, log, pures, color, mapto', mapval')
    ensures MapsOk(mapto', mapval', |from| - 1)
  {
    forall i | 1 <= i < |mapto'|
      ensures Abs(mapto'[i]) < |from|
      ensures mapto'[i] == 0 ==> mapval'[i] == 1 || mapval'[i] == -1 || mapval'[i] == -10
    {
      if mapto[i] != 0 {
        var x := mapto[i];
        assert NewEntry(x, log, pures, color, mapto'[i], mapval'[i]);
        if !IsPivot(log, x) && IsPure(pures, x) {
          var k :| 0 <= k < |pures| && pures[k] == Pure(x, mapval'[i]);
          PuresNotPivots(pures, log, clean, k);
        }
      }
    }
  }

  // The maps after the binary pass, entry by entry.
  ghost predicate BinaryMaps(mapto: seq<int>, mapval: seq<int>, rep: seq<int>, par: seq<int>, fixed: seq<int>,
                             color: seq<int>, mapto': seq<int>, mapval': seq<int>) {
    && |mapto'| == |mapval'| == |mapto| == |mapval| && |rep| == |par| == |fixed| == |color|
    && forall i :: 0 <= i < |mapto| ==>
         if 1 <= Abs(mapto[i]) < |rep| then BinaryEntry(mapto[i], rep, par, fixed, color, mapto'[i], mapval'[i])
         else mapto'[i] == mapto[i] && mapval'[i] == mapval[i]
  }

  ghost predicate BinaryEntry(before: int, rep: seq<int>, par: seq<int>, fixed: seq<int>, color: seq<int>, to: int, value: int)
    requires |rep| == |par| == |fixed| == |color| && 1 <= Abs(before) < |rep|
  {
    var root, orientation := rep[Abs(before)], Sign(before) * par[Abs(before)];
    && 1 <= root < |rep|
    && if fixed[root] != 0 then to == 0 && value == orientation * fixed[root]
       else if color[root] != 0 then to == orientation * color[root] && value == 0
       else to == 0 && value == orientation
  }

  function RootValue(fixed: seq<int>, color: seq<int>, a: Assignment, r: int): int
    requires |fixed| == |color|
  {
    if !(0 <= r < |fixed|) then 1
    else if fixed[r] != 0 then fixed[r]
    else if color[r] != 0 then ValueOf(a(color[r]))
    else 1
  }

  // The assignment to the variables before the pass.
  function Unmerged(rep: seq<int>, par: seq<int>, fixed: seq<int>, color: seq<int>, a: Assignment): Assignment
    requires |rep| == |par| == |fixed| == |color|
  {
    x => 0 <= x < |rep| && par[x] * RootValue(fixed, color, a, rep[x]) == 1
  }

  lemma UnmergedSign(rep: seq<int>, par: seq<int>, fixed: seq<int>, color: seq<int>, a: Assignment, x: int)
    requires Classes(rep, par, fixed) && |color| == |rep| && 1 <= x < |rep|
    ensures Sgn(Unmerged(rep, par, fixed, color, a), x) == par[x] * RootValue(fixed, color, a, rep[x])
    ensures IsSign(RootValue(fixed, color, a, rep[x]))
  {
    assert 1 <= rep[x] < |rep| && IsSign(par[x]);
    assert -1 <= fixed[rep[x]] <= 1;
  }

  lemma UnmergedRepresented(rep: seq<int>, par: seq<int>, fixed: seq<int>, color: seq<int>, a: Assignment)
    requires Classes(rep, par, fixed) && |color| == |rep|
    ensures Represents(rep, par, fixed, Unmerged(rep, par, fixed, color, a))
  {
    forall x | 1 <= x < |rep|
      ensures Sgn(Unmerged(rep, par, fixed, color, a), x) == par[x] * Sgn(Unmerged(rep, par, fixed, color, a), rep[x])
      ensures fixed[x] != 0 ==> Sgn(Unmerged(rep, par, fixed, color, a), x) == fixed[x]
    {
      UnmergedSign(rep, par, fixed, color, a, x);
      UnmergedSign(rep, par, fixed, color, a, rep[x]);
      assert rep[rep[x]] == rep[x] && par[rep[x]] == 1;
    }
  }

  lemma UnmergedLive(rep: seq<int>, par: seq<int>, fixed: seq<int>, color: seq<int>, a: Assignment,
                     rows: seq<Row>, deleted: seq<bool>, from: seq<int>)
    requires Classes(rep, par, fixed) && |color| == |rep| && |rows| == |deleted| && LiveRooted(rows, deleted, rep, fixed)
    requires Inverse(color, from)
    requires forall v :: 1 <= v < |color| ==> (color[v] != 0 <==> LiveMention(rows, deleted, v))
    requires LiveSat(rows, deleted, Through(color, a))
    ensures LiveSat(rows, deleted, Unmerged(rep, par, fixed, color, a))
  {
    forall x | LiveMention(rows, deleted, x)
      ensures Unmerged(rep, par, fixed, color, a)(x) == Through(color, a)(x)
    {
      var i :| 0 <= i < |rows| && !deleted[i] && Mentions(rows[i].lits, x);
      assert Rooted(rows[i], rep, fixed);
      var j :| 0 <= j < |rows[i].lits| && Abs(rows[i].lits[j]) == x;
      assert rep[x] == x && fixed[x] == 0 && par[x] == 1 && color[x] > 0;
    }
    LiveAgree(rows, deleted, Unmerged(rep, par, fixed, color, a), Through(color, a));
  }

  lemma UnmergedFilled(mapto: seq<int>, mapval: seq<int>, rep: seq<int>, par: seq<int>, fixed: seq<int>, color: seq<int>,
                       from: seq<int>, mapto': seq<int>, mapval': seq<int>, a: Assignment)
    requires Classes(rep, par, fixed) && |rep| == |color| >= 1 && MapsOk(mapto, mapval, |rep| - 1) && Inverse(color, from)
    requires BinaryMaps(mapto, mapval, rep, par, fixed, color, mapto', mapval')
    ensures Filled(mapto', mapval', a) == Filled(mapto, mapval, Unmerged(rep, par, fixed, color, a))
  {
    var c := Unmerged(rep, par, fixed, color, a);
    forall i | 0 <= i < |mapto|
      ensures Filled(mapto', mapval', a)[i] == Filled(mapto, mapval, c)[i]
    {
      if mapto[i] != 0 {
        var x := Abs(mapto[i]);
        assert BinaryEntry(mapto[i], rep, par, fixed, color, mapto'[i], mapval'[i]);
        UnmergedSign(rep, par, fixed, color, a, x);
        HoldsSgn(mapto[i], c);
        EntrySign(Sign(mapto[i]), par[x], RootValue(fixed, color, a, rep[x]));
        SignsCompose(Sign(mapto[i]), par[x], RootValue(fixed, color, a, rep[x]));
        if color[rep[x]] != 0 {
          assert color[rep[x]] > 0;
        }
      }
    }
  }

  lemma EntrySign(s: int, p: int, v: int)
    requires IsSign(s) && IsSign(p) && IsSign(v)
    ensures ValueOf(p * v == s) == s * (p * v)
  {
  }

  lemma BinaryMapsOk(mapto: seq<int>, mapval: seq<int>, rep: seq<int>, par: seq<int>, fixed: seq<int>, color: seq<int>,
                     from: seq<int>, mapto': seq<int>, mapval': seq<int>)
    requires Classes(rep, par, fixed) && |rep| == |color| >= 1 && MapsOk(mapto, mapval, |rep| - 1)
    requires Inverse(color, from) && |from| >= 1
    requires BinaryMaps(mapto, mapval, rep, par, fixed, color, mapto', mapval')
    ensures MapsOk(mapto', mapval', |from| - 1)
  {
    forall i | 1 <= i < |mapto'|
      ensures Abs(mapto'[i]) < |from|
      ensures mapto'[i] == 0 ==> mapval'[i] == 1 || mapval'[i] == -1 || mapval'[i] == -10
    {
      if mapto[i] != 0 {
        var x := Abs(mapto[i]);
        assert BinaryEntry(mapto[i], rep, par, fixed, color, mapto'[i], mapval'[i]);
        SignsCancel(Sign(mapto[i]), par[x]);
        assert -1 <= fixed[rep[x]] <= 1;
        if fixed[rep[x]] != 0 {
          SignsCancel(Sign(mapto[i]) * par[x], fixed[rep[x]]);
        }
      }
    }
  }

  // The binary pass followed by relabelling.
  lemma BinaryRecovers(input: seq<Row>, original: seq<Row>, mapto: seq<int>, mapval: seq<int>, log: seq<Group>, names: seq<int>,
                       rows: seq<Row>, deleted: seq<bool>, rep: seq<int>, par: seq<int>, fixed: seq<int>,
                       color: seq<int>, from: seq<int>, mapto': seq<int>, mapval': seq<int>)
    requires |rows| == |deleted| && Classes(rep, par, fixed) && |rep| == |color| >= 1 && |from| >= 1
    requires Stage(input, original, |rep| - 1, mapto, mapval, log, names)
    requires Meaning(original, rows, deleted, rep, par, fixed) && LiveRooted(rows, deleted, rep, fixed)
    requires Inverse(color, from) && RowsNamed(LiveRows(rows, deleted), color)
    requires forall v :: 1 <= v < |color| ==> (color[v] != 0 <==> LiveMention(rows, deleted, v))
    requires BinaryMaps(mapto, mapval, rep, par, fixed, color, mapto', mapval')
    ensures Stage(input, RenameRows(LiveRows(rows, deleted), color), |from| - 1, mapto', mapval', log, names)
  {
    RelabelledModels(rows, deleted, color, from);
    var rows' := RenameRows(LiveRows(rows, deleted), color);
    BinaryMapsOk(mapto, mapval, rep, par, fixed, color, from, mapto', mapval');
    forall a | RowsSat(rows', a)
      ensures RecoversModel(input, log, names, Cleared(Filled(mapto', mapval', a)))
    {
      var c := Unmerged(rep, par, fixed, color, a);
      UnmergedRepresented(rep, par, fixed, color, a);
      UnmergedLive(rep, par, fixed, color, a, rows, deleted, from);
      assert RowsSat(original, c);
      UnmergedFilled(mapto, mapval, rep, par, fixed, color, from, mapto', mapval', a);
    }
    if m :| InputSat(input, m) {
      var b :| RowsSat(original, b);
      assert LiveSat(rows, deleted, b);
      assert RowsSat(rows', Through(from, b));
    }
  }
}
