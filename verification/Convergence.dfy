/**
 Store, queue, worker and registry as one system. While Work runs it may leave the registry
 anywhere; it reports success only with the registry in step with the list it was given;
 nothing else touches the registry's prefixed projects. Users become known to the registry
 at any time.
 */
module Convergence {
  import opened MapStore
  import opened StoreRuns
  import opened IdCodec
  import opened Projection
  import opened QueueProtocol
  import opened HarborSdk
  import opened RunSpec
  import opened EndToEnd

  datatype World = World(
    queue: State, projects: map<string, Project>,
    known: set<string>,   // users the registry knows
    met: set<string>)     // those it knew when Work was last given a list

  /** An action of the queue, with the registry it leaves if it is a step of a run; or a user's first login. */
  datatype Move = Step(a: Action, after: map<string, Project>) | Login(user: string)

  /** Work reports success only with the registry in step. */
  ghost predicate Possible(c: Permutation, w: World, m: Move) {
    m.Step? && m.a == Finish(true) && w.queue.phase.Working? ==> Mirrors(m.after, WishesFrom(Given(c, w.queue)), w.met)
  }

  ghost function Moved(c: Permutation, w: World, m: Move): World {
    if !Possible(c, w, m) then w
    else if m.Login? then w.(known := w.known + {m.user})
    else
      var t := Do(w.queue, m.a);
      if w.queue.phase.Working? then w.(queue := t, projects := m.after)
      else w.(queue := t, met := if t.phase.Working? then w.known else w.met)
  }

  ghost function Boot(ops: seq<Op>, projects: map<string, Project>, known: set<string>): World {
    World(QueueProtocol.Start(ops), projects, known, known)
  }

  ghost function WorldAfter(c: Permutation, start: World, moves: seq<Move>): World {
    if moves == [] then start
    else Moved(c, WorldAfter(c, start, moves[..|moves| - 1]), moves[|moves| - 1])
  }

  // ---- The queue within -----------------------------------------------------------------------

  /** The queue's part of a history. */
  ghost function Actions(c: Permutation, start: World, moves: seq<Move>): seq<Action> {
    if moves == [] then []
    else
      var before, m := moves[..|moves| - 1], moves[|moves| - 1];
      if m.Step? && Possible(c, WorldAfter(c, start, before), m) then Actions(c, start, before) + [m.a]
      else Actions(c, start, before)
  }

  lemma MovedQueue(c: Permutation, w: World, m: Move)
    ensures Moved(c, w, m).queue == if m.Step? && Possible(c, w, m) then Do(w.queue, m.a) else w.queue
  {
  }

  lemma {:induction false} QueueWithin(
    c: Permutation, ops: seq<Op>, projects: map<string, Project>, known: set<string>, moves: seq<Move>)
    ensures WorldAfter(c, Boot(ops, projects, known), moves).queue
         == After(ops, Actions(c, Boot(ops, projects, known), moves))
  {
    if moves != [] {
      var start, before, m := Boot(ops, projects, known), moves[..|moves| - 1], moves[|moves| - 1];
      QueueWithin(c, ops, projects, known, before);
      MovedQueue(c, WorldAfter(c, start, before), m);
      if m.Step? {
        AfterSnoc(ops, Actions(c, start, before), m.a);
      }
    }
  }

  // ---- The registry stays in step ---------------------------------------------------------------

  /** Between runs the last of which succeeded, the registry is in step with the list last given. */
  ghost predicate InStep(c: Permutation, w: World) {
    w.queue.phase.Idle? && w.queue.lastOk ==> Mirrors(w.projects, WishesFrom(Given(c, w.queue)), w.met)
  }

  lemma OnlySuccessIsOk(s: State, a: Action)
    requires Do(s, a).phase.Idle? && Do(s, a).lastOk
    ensures Do(s, a).last == s.last
    ensures (s.phase.Idle? && s.lastOk) || (s.phase.Working? && a == Finish(true))
  {
    match a
    case Commit(op) => assert CommitOp(s, op).phase == s.phase && CommitOp(s, op).lastOk == s.lastOk;
    case _ =>
  }

  lemma SameGiven(c: Permutation, s: State, t: State)
    requires s.last == t.last
    ensures Given(c, s) == Given(c, t)
  {
  }

  lemma MoveStaysInStep(c: Permutation, w: World, m: Move)
    requires InStep(c, w)
    ensures InStep(c, Moved(c, w, m))
  {
    var v := Moved(c, w, m);
    if m.Step? && Possible(c, w, m) && v.queue.phase.Idle? && v.queue.lastOk {
      OnlySuccessIsOk(w.queue, m.a);
      SameGiven(c, w.queue, v.queue);
    }
  }

  /** In every reachable state of the whole system. */
  lemma {:induction false} AlwaysInStep(
    c: Permutation, ops: seq<Op>, projects: map<string, Project>, known: set<string>, moves: seq<Move>)
    ensures InStep(c, WorldAfter(c, Boot(ops, projects, known), moves))
  {
    if moves != [] {
      AlwaysInStep(c, ops, projects, known, moves[..|moves| - 1]);
      MoveStaysInStep(c, WorldAfter(c, Boot(ops, projects, known), moves[..|moves| - 1]), moves[|moves| - 1]);
    }
  }

  lemma WorldIsGood(
    c: Permutation, ops: seq<Op>, projects: map<string, Project>, known: set<string>, moves: seq<Move>)
    ensures Good(WorldAfter(c, Boot(ops, projects, known), moves).queue.db)
  {
    QueueWithin(c, ops, projects, known, moves);
    AlwaysInvariant(ops, Actions(c, Boot(ops, projects, known), moves));
  }

  /**
   What administrators commit is what the registry converges to: in every reachable state of
   store, queue, worker and registry, whatever runs failed or were cut off on the way, once
   the queue is at rest the registry follows the store.
   */
  lemma AtRestRegistryFollows(
    c: Permutation, ops: seq<Op>, projects: map<string, Project>, known: set<string>, moves: seq<Move>)
    ensures var w := WorldAfter(c, Boot(ops, projects, known), moves);
            Quiescent(w.queue) ==>
              && Follows(c, w.queue.db, w.queue.declined, w.projects, w.met)
              && ShowsWorkspaces(c, w.queue.db, w.queue.declined, w.projects, w.met)
  {
    var start := Boot(ops, projects, known);
    var w := WorldAfter(c, start, moves);
    if Quiescent(w.queue) {
      QueueWithin(c, ops, projects, known, moves);
      AlwaysInStep(c, ops, projects, known, moves);
      RegistryFollowsStore(c, ops, Actions(c, start, moves), w.projects, w.met);
      WorldIsGood(c, ops, projects, known, moves);
      FollowsByName(c, w.queue.db, w.queue.declined, w.projects, w.met);
    }
  }

  lemma {:induction false} MetIsKnown(
    c: Permutation, ops: seq<Op>, projects: map<string, Project>, known: set<string>, moves: seq<Move>)
    ensures var w := WorldAfter(c, Boot(ops, projects, known), moves);
            known <= w.known && w.met <= w.known
  {
    if moves != [] {
      MetIsKnown(c, ops, projects, known, moves[..|moves| - 1]);
    }
  }

  /** The worker command does what the system assumes of it: success means in step, on any registry. */
  method FinishWork(c: Permutation, h: Harbor, vwss: seq<ValueWorkspace>, ghost w: World) returns (ok: bool)
    requires h.Valid() && w.queue.phase.Working? && vwss == Given(c, w.queue)
    requires h.projects == w.projects && h.known == w.met
    modifies h`failures, h`changes, h`attempts, h`deletions, h`removals, h`creations, h`robots, h`projects, h`nextID
    ensures h.Valid() && Possible(c, w, Step(Finish(ok), h.projects))
    ensures SameUnprefixed(w.projects, h.projects)
  {
    ghost var templated;
    ok, templated := Work(h, vwss, true);
  }

  /** On a reliable registry it succeeds on whatever list a reachable state hands it. */
  method FinishReliably(
      c: Permutation, h: Harbor, vwss: seq<ValueWorkspace>, ghost ops: seq<Op>, ghost actions: seq<Action>)
    returns (ok: bool)
    requires h.Valid() && After(ops, actions).phase.Working? && vwss == Given(c, After(ops, actions))
    modifies h`failures, h`changes, h`attempts, h`deletions, h`removals, h`creations, h`robots, h`projects, h`nextID
    ensures h.Valid() && (h.reliable ==> ok)
    ensures ok ==> Mirrors(h.projects, WishesFrom(vwss), h.known)
  {
    GivenNamesDistinct(c, ops, actions);
    ghost var templated;
    ok, templated := Work(h, vwss, true);
  }
}
