/** From every reachable state the system can come to rest, and then the registry follows the store. */
module Settling {
  import opened Basics
  import opened MapStore
  import opened StoreRuns
  import opened IdCodec
  import opened Projection
  import opened QueueProtocol
  import opened HarborSdk
  import opened RunSpec
  import opened EndToEnd
  import opened Convergence

  // ---- The queue ------------------------------------------------------------------------------

  /** Ends the run under way, if there is one. */
  ghost function Stop(s: State): seq<Action> {
    match s.phase
    case Idle => []
    case Listing(_) => [Abort]
    case Working => [Finish(false)]
  }

  /** Handlers that have committed enqueue. */
  function Owed(n: nat): seq<Action> {
    if n == 0 then [] else Owed(n - 1) + [Enqueue]
  }

  /** What is under way ends, what is owed is enqueued, and the ticker fires. */
  ghost function Windup(s: State): seq<Action> {
    Stop(s) + Owed(s.owing) + [Tick]
  }

  lemma AfterStop(ops: seq<Op>, actions: seq<Action>)
    ensures var s := After(ops, actions);
            var t := After(ops, actions + Stop(s));
            t.phase.Idle? && t.owing == s.owing && t.db == s.db && t.takes == s.takes
  {
    var s := After(ops, actions);
    if s.phase.Idle? {
      assert actions + Stop(s) == actions;
    } else {
      AfterSnoc(ops, actions, if s.phase.Listing? then Abort else Finish(false));
    }
  }

  lemma {:induction false} AfterOwed(ops: seq<Op>, actions: seq<Action>, n: nat)
    requires After(ops, actions).phase.Idle? && n <= After(ops, actions).owing
    ensures var s, t := After(ops, actions), After(ops, actions + Owed(n));
            t.phase.Idle? && t.owing == s.owing - n && t.db == s.db && t.takes == s.takes
  {
    if n == 0 {
      assert actions + Owed(n) == actions;
    } else {
      AfterOwed(ops, actions, n - 1);
      AfterMore(ops, actions, Owed(n - 1), Enqueue);
    }
  }

  lemma AfterWindup(ops: seq<Op>, actions: seq<Action>)
    ensures var s := After(ops, actions);
            var t := After(ops, actions + Windup(s));
            t.phase.Idle? && t.token && t.owing == 0 && t.db == s.db && t.takes == s.takes
  {
    var s := After(ops, actions);
    AfterStop(ops, actions);
    AfterOwed(ops, actions + Stop(s), s.owing);
    Regroup(actions, Stop(s), Owed(s.owing));
    AfterMore(ops, actions, Stop(s) + Owed(s.owing), Tick);
  }

  lemma {:induction false} OnlyEnqueues(n: nat)
    ensures forall a | a in Owed(n) :: a == Enqueue
  {
    if n > 0 {
      OnlyEnqueues(n - 1);
    }
  }

  /** No commit is needed, and no run of the worker but the last succeeds. */
  lemma WindupIsQuiet(s: State)
    ensures forall a | a in Windup(s) + LISTING :: !a.Commit? && a != Finish(true)
  {
    OnlyEnqueues(s.owing);
  }

  /** From every reachable state of the queue, without another commit, to rest with the present list. */
  lemma QueueSettles(c: Permutation, ops: seq<Op>, actions: seq<Action>)
    ensures var s := After(ops, actions);
            var t := After(ops, actions + Windup(s) + ONE_RUN);
            && (forall a | a in Windup(s) + ONE_RUN :: !a.Commit?)
            && Quiescent(t) && t.db == s.db && t.declined == {} && Given(c, t) == Present(c, s.db)
  {
    AfterWindup(ops, actions);
    WindupIsQuiet(After(ops, actions));
    OneRunRests(c, ops, actions + Windup(After(ops, actions)));
  }

  // ---- The whole system ---------------------------------------------------------------------------

  /** The queue acts, and the registry's projects stay as they are. */
  function Lifted(actions: seq<Action>, projects: map<string, Project>): seq<Move> {
    if actions == [] then []
    else Lifted(actions[..|actions| - 1], projects) + [Step(actions[|actions| - 1], projects)]
  }

  lemma WorldSnoc(c: Permutation, start: World, moves: seq<Move>, m: Move)
    ensures WorldAfter(c, start, moves + [m]) == Moved(c, WorldAfter(c, start, moves), m)
  {
    assert (moves + [m])[..|moves|] == moves;
  }

  lemma ActionsSnoc(c: Permutation, start: World, moves: seq<Move>, m: Move)
    requires m.Step? && Possible(c, WorldAfter(c, start, moves), m)
    ensures Actions(c, start, moves + [m]) == Actions(c, start, moves) + [m.a]
  {
    assert (moves + [m])[..|moves|] == moves;
  }

  /** The users known when Work was given its list are those known now. */
  ghost predicate Met(w: World) {
    w.queue.phase.Working? ==> w.met == w.known
  }

  /** Since `w` the registry has not changed, and a run begun since has met all users. */
  ghost predicate Unmoved(v: World, w: World) {
    && v.projects == w.projects && v.known == w.known
    && v.queue.takes >= w.queue.takes
    && (Met(w) || v.queue.takes > w.queue.takes ==> Met(v))
  }

  lemma QuietMove(c: Permutation, w: World, v: World, a: Action)
    requires a != Finish(true) && Unmoved(v, w)
    ensures Possible(c, v, Step(a, w.projects)) && Unmoved(Moved(c, v, Step(a, w.projects)), w)
  {
  }

  /** From `moves`, these actions go by without the registry changing. */
  ghost predicate GoBy(c: Permutation, start: World, moves: seq<Move>, more: seq<Move>, actions: seq<Action>) {
    && Unmoved(WorldAfter(c, start, moves + more), WorldAfter(c, start, moves))
    && Actions(c, start, moves + more) == Actions(c, start, moves) + actions
  }

  lemma OneMoreGoesBy(
    c: Permutation, start: World, moves: seq<Move>, more: seq<Move>, actions: seq<Action>, a: Action,
    projects: map<string, Project>)
    requires GoBy(c, start, moves, more, actions) && a != Finish(true)
    requires projects == WorldAfter(c, start, moves).projects
    ensures GoBy(c, start, moves, more + [Step(a, projects)], actions + [a])
  {
    QuietMove(c, WorldAfter(c, start, moves), WorldAfter(c, start, moves + more), a);
    Regroup(moves, more, [Step(a, projects)]);
    WorldSnoc(c, start, moves + more, Step(a, projects));
    ActionsSnoc(c, start, moves + more, Step(a, projects));
    Regroup(Actions(c, start, moves), actions, [a]);
  }

  /** Any actions of the queue but a successful end of a run. */
  lemma {:induction false} AllGoBy(c: Permutation, start: World, moves: seq<Move>, actions: seq<Action>)
    requires forall i | 0 <= i < |actions| :: actions[i] != Finish(true)
    ensures GoBy(c, start, moves, Lifted(actions, WorldAfter(c, start, moves).projects), actions)
  {
    if actions == [] {
      assert moves + [] == moves;
      assert Actions(c, start, moves) + [] == Actions(c, start, moves);
    } else {
      var before, a, projects := actions[..|actions| - 1], actions[|actions| - 1], WorldAfter(c, start, moves).projects;
      FrontAndLast(actions);
      AllGoBy(c, start, moves, before);
      OneMoreGoesBy(c, start, moves, Lifted(before, projects), before, a, projects);
    }
  }

  lemma FrontAndLast<T>(s: seq<T>)
    requires s != []
    ensures s == s[..|s| - 1] + [s[|s| - 1]]
  {
  }

  lemma Regroup<T>(a: seq<T>, b: seq<T>, c: seq<T>)
    ensures (a + b) + c == a + (b + c)
  {
  }

  // ---- To rest --------------------------------------------------------------------------------------

  /** The queue winds up and lists while the registry stays put, and one run of Work leaves `after`. */
  ghost function WayToRest(w: World, after: map<string, Project>): seq<Move> {
    Lifted(Windup(w.queue) + LISTING, w.projects) + [Step(Finish(true), after)]
  }

  /** The store is as it was, and the registry follows it. */
  ghost predicate Rested(c: Permutation, w: World, v: World) {
    && Quiescent(v.queue) && v.queue.db == w.queue.db && v.queue.declined == {} && v.known == w.known
    && Given(c, v.queue) == Present(c, w.queue.db)
    && Follows(c, w.queue.db, {}, v.projects, v.known)
    && ShowsWorkspaces(c, w.queue.db, {}, v.projects, v.known)
  }

  /** Work is about to be handed the present. */
  ghost predicate Handed(w: World, v: World) {
    && v.queue.phase.Working? && !v.queue.token && v.queue.owing == 0 && v.queue.declined == {}
    && v.queue.db == w.queue.db
    && v.queue.last == [v.queue.db, v.queue.db, v.queue.db, v.queue.db, v.queue.db]
    && v.known == v.met == w.known
  }

  lemma QueueGoesBy(
    c: Permutation, ops: seq<Op>, projects: map<string, Project>, known: set<string>, moves: seq<Move>,
    more: seq<Move>, actions: seq<Action>)
    requires GoBy(c, Boot(ops, projects, known), moves, more, actions)
    ensures var start := Boot(ops, projects, known);
            && WorldAfter(c, start, moves).queue == After(ops, Actions(c, start, moves))
            && WorldAfter(c, start, moves + more).queue == After(ops, Actions(c, start, moves) + actions)
  {
    QueueWithin(c, ops, projects, known, moves);
    QueueWithin(c, ops, projects, known, moves + more);
  }

  lemma AfterWindupAndListing(ops: seq<Op>, actions: seq<Action>)
    ensures var s := After(ops, actions);
            var t := After(ops, actions + (Windup(s) + LISTING));
            && t.phase.Working? && !t.token && t.owing == 0 && t.db == s.db && t.takes > s.takes
            && t.last == [s.db, s.db, s.db, s.db, s.db] && t.declined == {}
  {
    var s := After(ops, actions);
    AfterWindup(ops, actions);
    AfterListing(ops, actions + Windup(s));
    Regroup(actions, Windup(s), LISTING);
  }

  lemma ListingIsHanded(
    c: Permutation, ops: seq<Op>, projects: map<string, Project>, known: set<string>, moves: seq<Move>)
    ensures var start := Boot(ops, projects, known);
            var w := WorldAfter(c, start, moves);
            Handed(w, WorldAfter(c, start, moves + Lifted(Windup(w.queue) + LISTING, w.projects)))
  {
    var start := Boot(ops, projects, known);
    var w := WorldAfter(c, start, moves);
    var actions := Windup(w.queue) + LISTING;
    WindupIsQuiet(w.queue);
    assert forall i | 0 <= i < |actions| :: actions[i] in actions;
    AllGoBy(c, start, moves, actions);
    QueueGoesBy(c, ops, projects, known, moves, Lifted(actions, w.projects), actions);
    AfterWindupAndListing(ops, Actions(c, start, moves));
  }

  lemma HandedRests(c: Permutation, w: World, v: World, after: map<string, Project>)
    requires Handed(w, v) && Mirrors(after, WishesFrom(Present(c, w.queue.db)), w.known) && Good(w.queue.db)
    ensures Rested(c, w, Moved(c, v, Step(Finish(true), after)))
    ensures Moved(c, v, Step(Finish(true), after)).projects == after
  {
    GivenUntorn(c, v.queue);
    SuccessRests(c, v.queue);
    ListingRenders(c, w.queue.db);
    StoreFollowed(c, w.queue.db, after, w.known);
    FollowsByName(c, w.queue.db, {}, after, w.known);
  }

  lemma LiftedIsQuiet(actions: seq<Action>, projects: map<string, Project>, m: Move)
    requires m in Lifted(actions, projects)
    ensures m.Step? && m.a in actions && m.after == projects
  {
    if m != Step(actions[|actions| - 1], projects) {
      LiftedIsQuiet(actions[..|actions| - 1], projects, m);
    }
  }

  /** No commit and no login is needed. */
  lemma WayIsQuiet(w: World, after: map<string, Project>)
    ensures forall m | m in WayToRest(w, after) :: m.Step? && !m.a.Commit?
  {
    WindupIsQuiet(w.queue);
    forall m | m in WayToRest(w, after) ensures m.Step? && !m.a.Commit? {
      if m != Step(Finish(true), after) {
        LiftedIsQuiet(Windup(w.queue) + LISTING, w.projects, m);
      }
    }
  }

  /**
   From every reachable state, whatever failed before and without another commit, one run of
   Work that leaves the registry in step with the present list brings the system to rest.
   */
  lemma SystemSettles(
    c: Permutation, ops: seq<Op>, projects: map<string, Project>, known: set<string>, moves: seq<Move>,
    after: map<string, Project>)
    requires var w := WorldAfter(c, Boot(ops, projects, known), moves);
             Mirrors(after, WishesFrom(Present(c, w.queue.db)), w.known)
    ensures var start := Boot(ops, projects, known);
            var w := WorldAfter(c, start, moves);
            var v := WorldAfter(c, start, moves + WayToRest(w, after));
            && Rested(c, w, v) && v.projects == after
            && forall m | m in WayToRest(w, after) :: m.Step? && !m.a.Commit?
  {
    var start := Boot(ops, projects, known);
    var w := WorldAfter(c, start, moves);
    var more := Lifted(Windup(w.queue) + LISTING, w.projects);
    ListingIsHanded(c, ops, projects, known, moves);
    WorldIsGood(c, ops, projects, known, moves);
    HandedRests(c, w, WorldAfter(c, start, moves + more), after);
    Regroup(moves, more, [Step(Finish(true), after)]);
    WorldSnoc(c, start, moves + more, Step(Finish(true), after));
    WayIsQuiet(w, after);
  }

  /** On a registry that fails no call, the worker command is such a run: from every reachable state to rest. */
  method Settle(
      c: Permutation, h: Harbor, vwss: seq<ValueWorkspace>, ghost ops: seq<Op>, ghost projects: map<string, Project>,
      ghost known: set<string>, ghost moves: seq<Move>)
    requires h.Valid() && h.reliable
    requires var w := WorldAfter(c, Boot(ops, projects, known), moves);
             h.projects == w.projects && h.known == w.known && vwss == Present(c, w.queue.db)
    modifies h`failures, h`changes, h`attempts, h`deletions, h`removals, h`creations, h`robots, h`projects, h`nextID
    ensures h.Valid() && SameUnprefixed(old(h.projects), h.projects)
    ensures var start := Boot(ops, projects, known);
            var w := WorldAfter(c, start, moves);
            var v := WorldAfter(c, start, moves + WayToRest(w, h.projects));
            Rested(c, w, v) && v.projects == h.projects
  {
    ghost var w := WorldAfter(c, Boot(ops, projects, known), moves);
    PresentNamesDistinct(c, ops, projects, known, moves);
    ghost var templated;
    var ok: bool;
    ok, templated := Work(h, vwss, true);
    SystemSettles(c, ops, projects, known, moves, h.projects);
  }

  lemma PresentNamesDistinct(
    c: Permutation, ops: seq<Op>, projects: map<string, Project>, known: set<string>, moves: seq<Move>)
    ensures var w := WorldAfter(c, Boot(ops, projects, known), moves);
            NoDuplicates(Names(WishesFrom(Present(c, w.queue.db))))
  {
    var start := Boot(ops, projects, known);
    var w := WorldAfter(c, start, moves);
    WorldIsGood(c, ops, projects, known, moves);
    GoodIDsInRange(w.queue.db);
    ListingRenders(c, w.queue.db);
    RenderedNamesDistinct(c, VisibleStore(w.queue.db));
  }
}
