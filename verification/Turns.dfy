/** What one step of the search loop may do: which variable it may pick, what
    it flips, and which runs of such steps the loop makes. */
module Turns {
  import opened Knf
  import opened IndexedStack
  import opened Scores
  import opened Tally
  import opened SearchState
  import opened Moves
  import opened Swap

  datatype Game = Game(inst: Instance, neighbors: seq<seq<int>>, materialized: bool)

  datatype Limits = Limits(maxFlips: nat, maxNonImprove: nat, swapNonImprove: nat, enableSwap: bool, hdCountThreshold: int, cap: int)

  // The state of the search with the time stamps.
  datatype Snapshot = Snapshot(state: State, time: seq<int>)

  // A variable off the good stack; a variable of violated row c after the
  // weights have grown, to those of `grown`; or an exchange in row c, of the
  // best literals probed from `start` on, 0 where there was none.
  datatype Turn =
    | GoodTurn(v: int, walk: bool)
    | RepairTurn(v: int, c: int, walk: bool, grown: State)
    | SwapTurn(c: int, start: int, stride: int, first: int, second: int)

  ghost predicate Beats(score: seq<int>, time: seq<int>, u: int, v: int) {
    0 <= u < |score| == |time| && 0 <= v < |score| && Better(score, time, u, v)
  }

  // The variable may be picked in state s, and is flipped in state m.
  ghost predicate Picked(game: Game, threshold: int, s: Snapshot, turn: Turn, m: State) {
    match turn
    case GoodTurn(v, walk) =>
      && m == s.state && Has(s.state.good, v)
      && (!walk && |s.state.good.items| < threshold ==> forall u :: Has(s.state.good, u) ==> !Beats(s.state.score, s.time, u, v))
    case RepairTurn(v, c, walk, grown) =>
      && m == grown && |s.state.good.items| == 0 && Reweighed(game.inst, s.state, grown)
      && 0 <= c < |game.inst.rows| == |s.state.tally.counts| && s.state.tally.counts[c] < game.inst.rows[c].degree
      && Pickable(game.inst.rows[c], s.state.soln, v)
      && (!walk || Candidate(game.inst.rows[c], s.state.soln, v, true) ==>
            forall u :: Pickable(game.inst.rows[c], s.state.soln, u) ==> !Beats(grown.score, s.time, u, v))
    case SwapTurn(_, _, _, _, _) => false
  }

  function ProbedVar(r: Row, start: int, stride: int, i: int): int
    requires |r.lits| >= 1
  {
    Abs(r.lits[Probe(start, stride, i, |r.lits|)])
  }

  // Of the first n probes, the best that is true or false as asked.
  ghost predicate Probed(r: Row, s: Snapshot, start: int, stride: int, n: int, isTrue: bool, best: int) {
    true == (
      && |r.lits| >= 1
      && (best != 0 ==> Candidate(r, s.state.soln, best, isTrue) && exists i :: 0 <= i < n && ProbedVar(r, start, stride, i) == best)
      && forall i :: 0 <= i < n && Candidate(r, s.state.soln, ProbedVar(r, start, stride, i), isTrue) ==>
           best != 0 && !Beats(s.state.score, s.time, ProbedVar(r, start, stride, i), best))
  }

  ghost predicate ProbedSwap(game: Game, cap: int, s: Snapshot, turn: Turn) {
    match turn
    case SwapTurn(c, start, stride, first, second) =>
      && 0 <= c < |game.inst.rows| && Has(s.state.tally.card, c) && |game.inst.rows[c].lits| >= 1
      && var n := |game.inst.rows[c].lits|;
      && 0 <= start < n && (stride == 1 || (n > 1 && stride == n - 1))
      && Probed(game.inst.rows[c], s, start, stride, SampleCount(n, cap), true, first)
      && Probed(game.inst.rows[c], s, start, stride, SampleCount(n, cap), false, second)
    case _ => false
  }

  ghost predicate FlipMade(game: Game, limits: Limits, s: Snapshot, turn: Turn, v: int, m: State, step: int, t: Snapshot) {
    true == (
      && Picked(game, limits.hdCountThreshold, s, turn, m)
      && FlippedTo(game.inst, game.neighbors, game.materialized, m, v, t.state)
      && 0 <= v < |s.time| && t.time == s.time[v := step])
  }

  ghost predicate PairMade(game: Game, s: Snapshot, first: int, second: int, step: int, t: Snapshot) {
    true == (
      && BothFlipped(game.inst, game.neighbors, game.materialized, s.state, first, second, t.state)
      && 0 <= first < |s.time| && 0 <= second < |s.time| && t.time == s.time[first := step][second := step])
  }

  // One turn: the pick, the flip or flips, and the time stamps.
  ghost predicate TurnMade(game: Game, limits: Limits, s: Snapshot, turn: Turn, step: int, t: Snapshot) {
    true == (
      |s.time| == game.inst.vars + 1 &&
      match turn
      case GoodTurn(v, _) => FlipMade(game, limits, s, turn, v, s.state, step, t)
      case RepairTurn(v, _, _, grown) => FlipMade(game, limits, s, turn, v, grown, step, t)
      case SwapTurn(_, _, _, first, second) =>
        && limits.enableSwap && ProbedSwap(game, limits.cap, s, turn)
        && if first == 0 || second == 0 then t == s else PairMade(game, s, first, second, step, t))
  }

  lemma TurnFlipped(game: Game, limits: Limits, s: Snapshot, turn: Turn, m: State, v: int, step: int, t: Snapshot)
    requires |s.time| == game.inst.vars + 1 && !turn.SwapTurn? && turn.v == v && Picked(game, limits.hdCountThreshold, s, turn, m)
    requires FlippedTo(game.inst, game.neighbors, game.materialized, m, v, t.state)
    requires 0 <= v < |s.time| && t.time == s.time[v := step]
    ensures TurnMade(game, limits, s, turn, step, t)
  {
    assert FlipMade(game, limits, s, turn, v, m, step, t);
  }

  // The fewest violated rows so far.
  ghost function Fewest(trace: seq<Snapshot>): int
    requires trace != []
  {
    var n := |trace| - 1;
    var unsat := trace[n].state.tally.hardUnsatNb;
    if n == 0 || unsat < Fewest(trace[..n]) then unsat else Fewest(trace[..n])
  }

  // For how many turns that number has not gone down.
  ghost function Stale(trace: seq<Snapshot>): nat
    requires trace != []
  {
    var n := |trace| - 1;
    if n == 0 || trace[n].state.tally.hardUnsatNb < Fewest(trace[..n]) then 0 else Stale(trace[..n]) + 1
  }

  // The loop goes on: some row is violated, and the search is not stale; it
  // swaps only when it has been stale for a while.
  ghost predicate GoesOn(limits: Limits, trace: seq<Snapshot>, turn: Turn)
    requires trace != []
  {
    && trace[|trace| - 1].state.tally.hardUnsatNb > 0 && Stale(trace) < limits.maxNonImprove
    && |trace| < limits.maxFlips
    && (turn.SwapTurn? ==> Stale(trace) >= limits.swapNonImprove)
  }

  // The snapshots between the turns of a run.
  ghost predicate SearchRun(game: Game, limits: Limits, trace: seq<Snapshot>, turns: seq<Turn>)
    decreases |turns|
  {
    && |trace| == |turns| + 1
    && (turns == [] ||
        var n := |turns| - 1;
        && SearchRun(game, limits, trace[..n + 1], turns[..n]) && GoesOn(limits, trace[..n + 1], turns[n])
        && TurnMade(game, limits, trace[n], turns[n], n + 1, trace[n + 1]))
  }

  lemma RunMore(game: Game, limits: Limits, trace: seq<Snapshot>, turns: seq<Turn>, turn: Turn, t: Snapshot)
    requires SearchRun(game, limits, trace, turns) && GoesOn(limits, trace, turn)
    requires TurnMade(game, limits, trace[|trace| - 1], turn, |trace|, t)
    ensures SearchRun(game, limits, trace + [t], turns + [turn])
    ensures Fewest(trace + [t]) == (if t.state.tally.hardUnsatNb < Fewest(trace) then t.state.tally.hardUnsatNb else Fewest(trace))
    ensures Stale(trace + [t]) == (if t.state.tally.hardUnsatNb < Fewest(trace) then 0 else Stale(trace) + 1)
  {
    assert (trace + [t])[..|trace|] == trace && (turns + [turn])[..|turns|] == turns;
  }

  // Why a run has ended.
  ghost predicate Ended(limits: Limits, trace: seq<Snapshot>, code: int) {
    && trace != []
    && var unsat := trace[|trace| - 1].state.tally.hardUnsatNb;
    && code == (if |trace| < limits.maxFlips && unsat == 0 then 10 else 0)
    && (|trace| < limits.maxFlips ==> unsat == 0 || Stale(trace) >= limits.maxNonImprove)
  }

  // The value that a variable starts a try with.
  ghost predicate StartsAs(initMode: int, backbone: int, tries: int, before: bool, time: int, after: bool) {
    if initMode == 0 then true
    else if initMode == 4 then after
    else if initMode == 3 || tries == 1 then !after
    else after == (before && time <= backbone)
  }

  ghost predicate StartOfTry(initMode: int, backbone: int, tries: int, soln: seq<bool>, time: seq<int>, soln': seq<bool>, time': seq<int>) {
    && |soln'| == |soln| == |time| == |time'|
    && forall x :: 1 <= x < |soln| ==> time'[x] == 0 && StartsAs(initMode, backbone, tries, soln[x], time[x], soln'[x])
  }

  // One try: its turns, the snapshots between them, and its result.
  datatype Attempt = Attempt(trace: seq<Snapshot>, turns: seq<Turn>, res: int)

  // A try starts with all weights 1 and all good variables on the stack, and
  // goes on to its end.
  ghost predicate Tried(game: Game, limits: Limits, initMode: int, backbone: int, tries: int, soln: seq<bool>, time: seq<int>,
                        attempt: Attempt) {
    && SearchRun(game, limits, attempt.trace, attempt.turns) && Ended(limits, attempt.trace, attempt.res)
    && var s := attempt.trace[0];
    && StartOfTry(initMode, backbone, tries, soln, time, s.state.soln, s.time)
    && StateOk(game.inst, s.state) && (forall x :: !Absent(s.state.good, s.state.score, x))
    && forall c :: 0 <= c < |s.state.weight| ==> s.state.weight[c] == 1
  }

  // Assignment and time stamps after the tries.
  ghost function LastSnap(soln: seq<bool>, time: seq<int>, attempts: seq<Attempt>): (seq<bool>, seq<int>) {
    if attempts == [] then (soln, time)
    else
      var last := attempts[|attempts| - 1];
      if last.trace == [] then (soln, time)
      else (last.trace[|last.trace| - 1].state.soln, last.trace[|last.trace| - 1].time)
  }

  // Each try starts where the one before has ended, and all but the last
  // have ended at a limit.
  ghost predicate AllTried(game: Game, limits: Limits, initMode: int, backbone: int, soln: seq<bool>, time: seq<int>, attempts: seq<Attempt>)
    decreases |attempts|
  {
    attempts == [] ||
    var n := |attempts| - 1;
    && AllTried(game, limits, initMode, backbone, soln, time, attempts[..n])
    && (forall i :: 0 <= i < n ==> attempts[i].res == 0)
    && var (soln', time') := LastSnap(soln, time, attempts[..n]);
    Tried(game, limits, initMode, backbone, n + 1, soln', time', attempts[n])
  }

  lemma AttemptMore(game: Game, limits: Limits, initMode: int, backbone: int, soln: seq<bool>, time: seq<int>,
                  attempts: seq<Attempt>, attempt: Attempt)
    requires AllTried(game, limits, initMode, backbone, soln, time, attempts)
    requires forall i :: 0 <= i < |attempts| ==> attempts[i].res == 0
    requires var (soln', time') := LastSnap(soln, time, attempts);
      Tried(game, limits, initMode, backbone, |attempts| + 1, soln', time', attempt)
    ensures AllTried(game, limits, initMode, backbone, soln, time, attempts + [attempt])
  {
    assert (attempts + [attempt])[..|attempts|] == attempts;
  }

  // The moves that a turn makes.
  ghost function MovesOf(turn: Turn): seq<Move> {
    match turn
    case GoodTurn(v, _) => [FlipMove(v)]
    case RepairTurn(v, _, _, _) => [BumpMove, FlipMove(v)]
    case SwapTurn(_, _, _, first, second) => if first == 0 || second == 0 then [] else [FlipMove(first), FlipMove(second)]
  }

  ghost function AllMoves(turns: seq<Turn>): seq<Move> {
    if turns == [] then [] else AllMoves(turns[..|turns| - 1]) + MovesOf(turns[|turns| - 1])
  }

  lemma PlayedRepair(game: Game, s0: State, moves: seq<Move>, s: State, grown: State, v: int, t: State)
    requires Played(game.inst, game.neighbors, game.materialized, s0, moves, s)
    requires Reweighed(game.inst, s, grown) && FlippedTo(game.inst, game.neighbors, game.materialized, grown, v, t)
    ensures Played(game.inst, game.neighbors, game.materialized, s0, moves + [BumpMove] + [FlipMove(v)], t)
  {
    PlayedBump(game.inst, game.neighbors, game.materialized, s0, moves, s, grown);
    PlayedFlip(game.inst, game.neighbors, game.materialized, s0, moves + [BumpMove], grown, v, t);
  }

  lemma MovesJoin(moves: seq<Move>, x: Move, y: Move)
    ensures moves + [] == moves && moves + [x, y] == moves + [x] + [y]
  {
  }

  lemma TurnPlayed(game: Game, limits: Limits, s0: State, moves: seq<Move>, s: Snapshot, turn: Turn, step: int, t: Snapshot)
    requires Played(game.inst, game.neighbors, game.materialized, s0, moves, s.state)
    requires TurnMade(game, limits, s, turn, step, t)
    ensures Played(game.inst, game.neighbors, game.materialized, s0, moves + MovesOf(turn), t.state)
  {
    match turn
    case GoodTurn(v, _) =>
      PlayedFlip(game.inst, game.neighbors, game.materialized, s0, moves, s.state, v, t.state);
    case RepairTurn(v, _, _, grown) =>
      MovesJoin(moves, BumpMove, FlipMove(v));
      PlayedRepair(game, s0, moves, s.state, grown, v, t.state);
    case SwapTurn(_, _, _, first, second) =>
      MovesJoin(moves, FlipMove(first), FlipMove(second));
      if first != 0 && second != 0 {
        PlayedSwap(game.inst, game.neighbors, game.materialized, s0, moves, s.state, first, second, t.state);
      }
  }

  // A run of turns is a run of moves.
  lemma {:induction false} RunPlayed(game: Game, limits: Limits, trace: seq<Snapshot>, turns: seq<Turn>)
    requires SearchRun(game, limits, trace, turns)
    requires Played(game.inst, game.neighbors, game.materialized, trace[0].state, [], trace[0].state)
    ensures Played(game.inst, game.neighbors, game.materialized, trace[0].state, AllMoves(turns), trace[|turns|].state)
    decreases |turns|
  {
    if turns != [] {
      var n := |turns| - 1;
      RunPlayed(game, limits, trace[..n + 1], turns[..n]);
      TurnPlayed(game, limits, trace[0].state, AllMoves(turns[..n]), trace[n], turns[n], n + 1, trace[n + 1]);
    }
  }

  // A turn with good variables lowers the violation at equal weights.
  lemma GoodTurnLowers(game: Game, limits: Limits, s: Snapshot, turn: Turn, step: int, t: Snapshot)
    requires StateOk(game.inst, s.state) && TurnMade(game, limits, s, turn, step, t) && turn.GoodTurn?
    ensures 0 <= turn.v < |s.state.score| && s.state.score[turn.v] > 0 && Lowered(game.inst, s.state, s.state.score[turn.v], t.state)
  {
    FlipLowers(game.inst, game.neighbors, game.materialized, s.state, turn.v, t.state);
  }

  // One more probe.
  lemma ProbedMore(r: Row, s: Snapshot, start: int, stride: int, n: nat, isTrue: bool, best: int, best': int)
    requires Probed(r, s, start, stride, n, isTrue, best) && |s.time| == |s.state.score| == |s.state.soln|
    requires var v := ProbedVar(r, start, stride, n);
      if Candidate(r, s.state.soln, v, isTrue) then 0 <= best < |s.state.score| && 0 < v < |s.state.score| && Improved(s.state.score, s.time, best, v, best')
      else best' == best
    ensures Probed(r, s, start, stride, n + 1, isTrue, best')
  {
    var v := ProbedVar(r, start, stride, n);
    if Candidate(r, s.state.soln, v, isTrue) {
      assert best' == v || best' == best;
    }
  }
}
