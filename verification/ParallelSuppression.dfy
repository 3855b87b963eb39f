/**
 * The worker threads of the parallel suppression loop, as a state machine over their statements.
 *
 * Each worker owns a queue of iterations and private copies of neighbor_q, neighbor_r, angle and central. The
 * scheduler picks any worker at each step. The magnitude and direction matrices are only read.
 */
module ParallelSuppression {
  import opened Images
  import opened Suppression

  /** The next statement of the loop body. */
  datatype Statement = PresetQ | PresetR | SetAngle | FoldAngle | LoadQ | LoadR | LoadCentral | Store

  /** One worker: iterations left (the first one in progress), next statement, private variables. */
  datatype Worker = Worker(todo: seq<Pixel>, next: Statement, q: real, r: real, angle: real, central: real)

  datatype Team = Team(edges: Grid<Byte>, workers: seq<Worker>)

  /** What the loop reads. */
  datatype Inputs = Inputs(mag: Grid<real>, dir: Grid<real>, toByte: real -> Byte)

  /** The effect of a worker's next statement on its private variables. */
  function AdvanceLocally(env: Inputs, w: Worker): Worker
    requires w.todo != []
  {
    var p := w.todo[0];
    match w.next
    case PresetQ => w.(q := 255.0, next := PresetR)
    case PresetR => w.(r := 255.0, next := SetAngle)
    case SetAngle => w.(angle := RawAngle(Level(env.dir, p.row, p.col)), next := FoldAngle)
    case FoldAngle => w.(angle := Folded(w.angle), next := LoadQ)
    case LoadQ =>
      w.(q := if SectorOf(w.angle) == Unmatched then w.q else NeighbourQ(env.mag, w.angle, p), next := LoadR)
    case LoadR =>
      w.(r := if SectorOf(w.angle) == Unmatched then w.r else NeighbourR(env.mag, w.angle, p), next := LoadCentral)
    case LoadCentral => w.(central := Level(env.mag, p.row, p.col), next := Store)
    case Store => w.(todo := w.todo[1..], next := PresetQ)
  }

  /** The level a worker is about to store. */
  function Outcome(env: Inputs, w: Worker): Byte {
    if w.central >= w.q && w.central >= w.r then env.toByte(w.central) else 0
  }

  predicate Enabled(s: Team, t: nat) {
    t < |s.workers| && s.workers[t].todo != []
  }

  /** Worker t executes one statement; a worker that is not there or has finished does nothing. */
  function Step(env: Inputs, s: Team, t: nat): Team {
    if !Enabled(s, t) then s
    else
      var w := s.workers[t];
      Team(if w.next == Store then s.edges[w.todo[0] := Outcome(env, w)] else s.edges,
           s.workers[t := AdvanceLocally(env, w)])
  }

  /** Runs a schedule: the worker chosen at each step. */
  function Run(env: Inputs, s: Team, schedule: seq<nat>): Team {
    if schedule == [] then s
    else Step(env, Run(env, s, schedule[..|schedule| - 1]), schedule[|schedule| - 1])
  }

  /** The iteration of p has not been completed. */
  ghost predicate Pending(workers: seq<Worker>, p: Pixel) {
    exists t :: 0 <= t < |workers| && p in workers[t].todo
  }

  /** No iteration is queued twice. */
  ghost predicate EachQueuedOnce(workers: seq<Worker>) {
    && (forall t, i, j :: 0 <= t < |workers| && 0 <= i < j < |workers[t].todo| ==>
                            workers[t].todo[i] != workers[t].todo[j])
    && (forall t, u, p :: 0 <= t < u < |workers| && p in workers[t].todo ==> p !in workers[u].todo)
  }

  /** The private variables hold what the statements executed so far in this iteration put there. */
  ghost predicate Consistent(env: Inputs, w: Worker) {
    if w.todo == [] then w.next == PresetQ
    else
      var p := w.todo[0];
      var raw := RawAngle(Level(env.dir, p.row, p.col));
      match w.next
      case PresetQ => true
      case PresetR => w.q == 255.0
      case SetAngle => w.q == 255.0 && w.r == 255.0
      case FoldAngle => w.q == 255.0 && w.r == 255.0 && w.angle == raw
      case LoadQ => w.q == 255.0 && w.r == 255.0 && w.angle == Folded(raw)
      case LoadR => w.q == NeighbourQ(env.mag, w.angle, p) && w.r == 255.0 && w.angle == Folded(raw)
      case LoadCentral =>
        w.q == NeighbourQ(env.mag, w.angle, p) && w.r == NeighbourR(env.mag, w.angle, p) && w.angle == Folded(raw)
      case Store =>
        && w.q == NeighbourQ(env.mag, w.angle, p) && w.r == NeighbourR(env.mag, w.angle, p)
        && w.angle == Folded(raw) && w.central == Level(env.mag, p.row, p.col)
  }

  /** Completed iterations have stored their level; every other cell is as it was at the start. */
  ghost predicate Progress(env: Inputs, start: Team, s: Team) {
    && s.edges.Keys == start.edges.Keys
    && |s.workers| == |start.workers|
    && EachQueuedOnce(s.workers)
    && (forall t :: 0 <= t < |s.workers| ==> Consistent(env, s.workers[t]))
    && (forall p :: Pending(s.workers, p) ==> Pending(start.workers, p))
    && (forall p :: p in s.edges ==>
                      s.edges[p] == if Pending(start.workers, p) && !Pending(s.workers, p)
                                    then Kept(env.mag, env.dir, env.toByte, p) else start.edges[p])
  }

  /** A team about to enter the loop. Its private variables are uninitialised, so nothing is said of them. */
  ghost predicate Ready(s: Team) {
    && EachQueuedOnce(s.workers)
    && (forall t :: 0 <= t < |s.workers| ==> s.workers[t].next == PresetQ)
    && (forall p :: Pending(s.workers, p) ==> p in s.edges)
  }

  /** Which iterations are pending after one statement. */
  lemma PendingAfter(env: Inputs, s: Team, t: nat, p: Pixel)
    requires Enabled(s, t) && EachQueuedOnce(s.workers)
    ensures Pending(Step(env, s, t).workers, p) <==>
            Pending(s.workers, p) && !(s.workers[t].next == Store && p == s.workers[t].todo[0])
  {
    var w, after := s.workers[t], Step(env, s, t).workers;
    assert after == s.workers[t := AdvanceLocally(env, w)];
    assert w.todo == [w.todo[0]] + w.todo[1..];
    if Pending(after, p) {
      var u :| 0 <= u < |after| && p in after[u].todo;
      assert p in s.workers[u].todo;
    }
    if Pending(s.workers, p) && !(w.next == Store && p == w.todo[0]) {
      var u :| 0 <= u < |s.workers| && p in s.workers[u].todo;
      assert p in after[u].todo;
    }
  }

  lemma QueuesStayDisjoint(env: Inputs, s: Team, t: nat)
    requires EachQueuedOnce(s.workers)
    ensures EachQueuedOnce(Step(env, s, t).workers)
  {
    if Enabled(s, t) {
      var w, after := s.workers[t], Step(env, s, t).workers;
      var rest := AdvanceLocally(env, w).todo;
      assert forall p :: p in rest ==> p in w.todo;
      forall u | 0 <= u < |after|
        ensures forall p :: p in after[u].todo ==> p in s.workers[u].todo
      {
      }
      forall u, i, j | 0 <= u < |after| && 0 <= i < j < |after[u].todo|
        ensures after[u].todo[i] != after[u].todo[j]
      {
        if u == t && w.next == Store {
          assert rest[i] == w.todo[i + 1] && rest[j] == w.todo[j + 1];
        }
      }
    }
  }

  lemma ConsistencyKept(env: Inputs, w: Worker)
    requires w.todo != [] && Consistent(env, w)
    ensures Consistent(env, AdvanceLocally(env, w))
    ensures w.next == Store ==> Outcome(env, w) == Kept(env.mag, env.dir, env.toByte, w.todo[0])
  {
  }

  lemma ProgressKept(env: Inputs, start: Team, s: Team, t: nat)
    requires Ready(start) && Progress(env, start, s)
    ensures Progress(env, start, Step(env, s, t))
  {
    if Enabled(s, t) {
      var w, after := s.workers[t], Step(env, s, t);
      QueuesStayDisjoint(env, s, t);
      ConsistencyKept(env, w);
      assert Pending(s.workers, w.todo[0]);
      forall p
        ensures Pending(after.workers, p) <==> Pending(s.workers, p) && !(w.next == Store && p == w.todo[0])
      {
        PendingAfter(env, s, t, p);
      }
    }
  }

  lemma {:induction false} ProgressAlways(env: Inputs, start: Team, schedule: seq<nat>)
    requires Ready(start)
    ensures Progress(env, start, Run(env, start, schedule))
  {
    if schedule != [] {
      ProgressAlways(env, start, schedule[..|schedule| - 1]);
      ProgressKept(env, start, Run(env, start, schedule[..|schedule| - 1]), schedule[|schedule| - 1]);
    }
  }

  ghost predicate Finished(s: Team) {
    forall t :: 0 <= t < |s.workers| ==> s.workers[t].todo == []
  }

  /** The static or dynamic distribution of the collapsed loop: each interior pixel is one iteration of one worker. */
  ghost predicate Distributed(rows: nat, cols: nat, s: Team) {
    Ready(s) && forall p :: Pending(s.workers, p) <==> Interior(rows, cols, p)
  }

  /**
   * However the iterations are distributed, whatever the private variables held before, and however the workers'
   * statements interleave: when all have finished, the edge matrix is the one the sequential loop computes.
   */
  lemma EveryInterleavingSuppresses(rows: nat, cols: nat, env: Inputs, start: Team, schedule: seq<nat>)
    requires Distributed(rows, cols, start)
    requires Finished(Run(env, start, schedule))
    ensures Run(env, start, schedule).edges ==
            SuppressedInside(rows, cols, env.mag, env.dir, env.toByte, start.edges)
  {
    ProgressAlways(env, start, schedule);
    var s := Run(env, start, schedule);
    forall p
      ensures !Pending(s.workers, p)
    {
    }
  }

  /** The shared cell the next statement of worker t writes, if any. */
  function Writes(s: Team, t: nat): set<Pixel> {
    if Enabled(s, t) && s.workers[t].next == Store then {s.workers[t].todo[0]} else {}
  }

  /**
   * The parallel loop has no data race: a step changes no edge cell but those it writes, two workers write different
   * cells, no step reads an edge cell (what it does is the same whatever the edges hold), and the private variables
   * of the other workers are neither read nor changed.
   */
  lemma StepsAreDisjoint(env: Inputs, s: Team, other: Team, t: nat, u: nat)
    requires t != u && t < |s.workers| && t < |other.workers| && EachQueuedOnce(s.workers)
    requires other.workers[t] == s.workers[t]
    ensures Writes(s, t) !! Writes(s, u)
    ensures forall p :: p in s.edges && p !in Writes(s, t) ==> Step(env, s, t).edges[p] == s.edges[p]
    ensures Step(env, other, t).workers[t] == Step(env, s, t).workers[t]
    ensures Writes(other, t) == Writes(s, t)
    ensures forall p :: p in Writes(s, t) ==> Step(env, other, t).edges[p] == Step(env, s, t).edges[p]
    ensures u < |s.workers| ==> Step(env, s, t).workers[u] == s.workers[u]
  {
    if Enabled(s, t) && Enabled(s, u) {
      assert s.workers[t].todo[0] in s.workers[t].todo && s.workers[u].todo[0] in s.workers[u].todo;
    }
  }

  /** Statements of different workers commute. */
  lemma StatementsCommute(env: Inputs, s: Team, t: nat, u: nat)
    requires t != u && EachQueuedOnce(s.workers)
    ensures Step(env, Step(env, s, t), u) == Step(env, Step(env, s, u), t)
  {
    if Enabled(s, t) && Enabled(s, u) {
      var w, v := s.workers[t], s.workers[u];
      assert w.todo[0] in w.todo && v.todo[0] in v.todo;
      assert w.todo[0] != v.todo[0];
      var a, b := Step(env, Step(env, s, t), u), Step(env, Step(env, s, u), t);
      assert a.workers == b.workers;
      assert a.edges == b.edges;
    }
  }

  /** Statements executed in the current iteration. */
  function Position(next: Statement): nat {
    match next
    case PresetQ => 0
    case PresetR => 1
    case SetAngle => 2
    case FoldAngle => 3
    case LoadQ => 4
    case LoadR => 5
    case LoadCentral => 6
    case Store => 7
  }

  /** Statements a worker still has to execute. */
  function Left(w: Worker): nat {
    if w.todo == [] then 0 else 8 * |w.todo| - Position(w.next)
  }

  function TotalLeft(workers: seq<Worker>): nat {
    if workers == [] then 0 else TotalLeft(workers[..|workers| - 1]) + Left(workers[|workers| - 1])
  }

  /** How many steps of a schedule found their worker with work to do. */
  function Executed(env: Inputs, s: Team, schedule: seq<nat>): nat {
    if schedule == [] then 0
    else
      var before := schedule[..|schedule| - 1];
      Executed(env, s, before) + if Enabled(Run(env, s, before), schedule[|schedule| - 1]) then 1 else 0
  }

  lemma {:induction false} TotalLeftAfterUpdate(workers: seq<Worker>, t: nat, w: Worker)
    requires t < |workers|
    ensures TotalLeft(workers[t := w]) == TotalLeft(workers) - Left(workers[t]) + Left(w)
  {
    var n := |workers| - 1;
    if t == n {
      assert workers[t := w][..n] == workers[..n];
    } else {
      assert workers[t := w][..n] == workers[..n][t := w];
      TotalLeftAfterUpdate(workers[..n], t, w);
    }
  }

  lemma {:induction false} NothingLeftIffFinished(workers: seq<Worker>)
    ensures TotalLeft(workers) == 0 <==> forall t :: 0 <= t < |workers| ==> workers[t].todo == []
  {
    if workers != [] {
      var n := |workers| - 1;
      NothingLeftIffFinished(workers[..n]);
      assert forall t :: 0 <= t < n ==> workers[..n][t] == workers[t];
    }
  }

  lemma OneStatementLess(env: Inputs, s: Team, t: nat)
    ensures TotalLeft(Step(env, s, t).workers) + (if Enabled(s, t) then 1 else 0) == TotalLeft(s.workers)
  {
    if Enabled(s, t) {
      TotalLeftAfterUpdate(s.workers, t, AdvanceLocally(env, s.workers[t]));
    }
  }

  /**
   * The loop neither deadlocks nor runs forever: each executed statement uses up one of the statements left, and
   * a schedule finishes the loop exactly when it executes all of them.
   */
  lemma {:induction false} FinishedWhenAllExecuted(env: Inputs, start: Team, schedule: seq<nat>)
    ensures Executed(env, start, schedule) + TotalLeft(Run(env, start, schedule).workers) == TotalLeft(start.workers)
    ensures Finished(Run(env, start, schedule)) <==> Executed(env, start, schedule) == TotalLeft(start.workers)
  {
    if schedule != [] {
      var before, t := schedule[..|schedule| - 1], schedule[|schedule| - 1];
      FinishedWhenAllExecuted(env, start, before);
      OneStatementLess(env, Run(env, start, before), t);
    }
    NothingLeftIffFinished(Run(env, start, schedule).workers);
  }
}
