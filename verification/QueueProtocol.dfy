/**
 The coalescing queue as a protocol: handlers that commit and then enqueue, a ticker, a
 one-slot token, and one worker that takes the token, lists in five statements, and works.
 Any action may come next; one that is not possible in a state does nothing there.
 */
module QueueProtocol {
  import opened Basics
  import opened Model
  import opened MapStore
  import opened StoreRuns
  import opened IdCodec
  import opened Projection

  /** While listing, the committed states its statements have seen: ids, rows, quotas, users (and requests). */
  datatype Phase = Idle | Listing(seen: seq<Store>) | Working

  datatype State = State(
    db: Store,
    token: bool,                    // the one slot of the channel
    owing: nat,                     // handlers between their commit and their Enqueue
    phase: Phase,
    last: seq<Store>,               // what the listing last handed to Work has seen
    lastOk: bool,                   // whether the last run to end succeeded
    // History:
    touched: bool,                  // an enqueueing operation has committed since the last Take
    declined: set<(ID, string)>,    // declines on created workspaces since users were last read
    requests: nat, takes: nat, ended: nat)

  datatype Action =
    | Commit(op: Op)
    | Enqueue
    | Tick
    | Take
    | Read
    | Abort
    | Finish(ok: bool)
    | Restart

  // ---- Steps --------------------------------------------------------------------------

  ghost function Fill(s: State): State {
    s.(token := true, requests := s.requests + 1)
  }

  ghost function CommitOp(s: State, op: Op): State {
    var a := Apply(s.db, op);
    if a.error != None then s.(db := a.store)
    else if Enqueues(op) then s.(db := a.store, owing := s.owing + 1, touched := true)
    else if op.Decline? && s.db.data[op.id].created then
      s.(db := a.store, declined := s.declined + {(op.id, op.username)})
    else s.(db := a.store)
  }

  /** The second statement finds no row for an id of the first: the listing fails. */
  ghost predicate Vanished(seen: seq<Store>) {
    |seen| >= 2 && !(CreatedIDs(seen[0]) <= seen[1].data.Keys)
  }

  ghost function End(s: State, ok: bool): State {
    s.(phase := Idle, lastOk := ok, ended := s.ended + 1)
  }

  /** The next statement sees the state as it is; after the fifth, the list goes to Work. */
  ghost function ReadNext(s: State): State
    requires s.phase.Listing?
  {
    var seen := s.phase.seen + [s.db];
    if Vanished(seen) then End(s, false)
    else if |seen| == 4 then s.(phase := Listing(seen), declined := {})
    else if |seen| < 5 then s.(phase := Listing(seen))
    else s.(phase := Working, last := seen)
  }

  ghost function Do(s: State, a: Action): State {
    match a
    case Commit(op) => CommitOp(s, op)
    case Enqueue => if s.owing > 0 then Fill(s).(owing := s.owing - 1) else s
    case Tick => Fill(s)
    case Take =>
      if s.phase.Idle? && s.token then
        s.(token := false, touched := false, phase := Listing([]), takes := s.takes + 1) else s
    case Read => if s.phase.Listing? then ReadNext(s) else s
    case Abort => if s.phase.Listing? then End(s, false) else s
    case Finish(ok) => if s.phase.Working? then End(s, ok) else s
    case Restart =>
      var t := if s.phase.Idle? then s else End(s, false);
      Fill(t).(owing := 0, lastOk := false)
  }

  /** The server comes up on some reachable store and enqueues once. */
  ghost function Start(ops: seq<Op>): State {
    State(Run(ops), true, 0, Idle, [], false, true, {}, 1, 0, 0)
  }

  ghost function After(ops: seq<Op>, actions: seq<Action>): State {
    if actions == [] then Start(ops)
    else Do(After(ops, actions[..|actions| - 1]), actions[|actions| - 1])
  }

  // ---- Invariant -------------------------------------------------------------------------

  ghost function NamesWith(id: ID, names: set<string>, declined: set<(ID, string)>): set<string> {
    names + set p | p in declined && p.0 == id :: p.1
  }

  ghost predicate DeclinedAreGone(vis: map<ID, Visible>, declined: set<(ID, string)>) {
    forall p | p in declined :: p.0 in vis && p.1 !in vis[p.0].names
  }

  /** What a listing has seen so far agrees with what is visible now. */
  ghost predicate SeenAgrees(vis: map<ID, Visible>, seen: seq<Store>, declined: set<(ID, string)>) {
    && (|seen| >= 1 ==> CreatedIDs(seen[0]) == vis.Keys)
    && (|seen| >= 2 ==> RowsAgree(vis, seen[1]))
    && (|seen| >= 3 ==> QuotasAgree(vis, seen[2]))
    && (|seen| >= 4 ==> DeclinedAreGone(vis, declined) && UsersAgree(vis, seen[3], declined))
  }

  ghost predicate RowsAgree(vis: map<ID, Visible>, rows: Store) {
    forall id | id in vis ::
      id in rows.data && rows.data[id].enabled == vis[id].enabled && rows.data[id].nodegroup == vis[id].nodegroup
  }

  ghost predicate QuotasAgree(vis: map<ID, Visible>, quotas: Store) {
    forall id | id in vis :: QuotasIn(quotas, id) == vis[id].quotas
  }

  ghost predicate UsersAgree(vis: map<ID, Visible>, users: Store, declined: set<(ID, string)>) {
    forall id | id in vis :: UsersIn(users, id).Keys == NamesWith(id, vis[id].names, declined)
  }

  /** The statements of a listing that went through. */
  ghost predicate WentThrough(seen: seq<Store>) {
    |seen| == 5 && CreatedIDs(seen[0]) <= seen[1].data.Keys
  }

  /** What the list made of them shows. */
  ghost function ShownBy(seen: seq<Store>): map<ID, Visible>
    requires WentThrough(seen)
  {
    VisibleTorn(CreatedIDs(seen[0]), seen[1], seen[2], seen[3])
  }

  /** A list shows what is visible now, but for declined invitations, which it still has. */
  ghost predicate Shows(vis: map<ID, Visible>, shown: map<ID, Visible>, declined: set<(ID, string)>) {
    && DeclinedAreGone(vis, declined)
    && shown.Keys == vis.Keys
    && forall id | id in vis :: shown[id] == vis[id].(names := NamesWith(id, vis[id].names, declined))
  }

  ghost predicate LastShows(vis: map<ID, Visible>, last: seq<Store>, declined: set<(ID, string)>) {
    WentThrough(last) && Shows(vis, ShownBy(last), declined)
  }

  /** With nothing touched since the last Take, the run it started has seen, or was given, the present. */
  ghost predicate UpToDate(vis: map<ID, Visible>, s: State) {
    match s.phase
    case Idle => s.lastOk ==> LastShows(vis, s.last, s.declined)
    case Listing(seen) => SeenAgrees(vis, seen, s.declined)
    case Working => LastShows(vis, s.last, s.declined)
  }

  ghost predicate AllGood(seen: seq<Store>) {
    forall i | 0 <= i < |seen| :: Good(seen[i])
  }

  ghost predicate Invariant(s: State) {
    && Good(s.db)
    && (s.touched ==> s.token || s.owing > 0)
    && (s.phase.Listing? ==> |s.phase.seen| <= 4 && !Vanished(s.phase.seen))
    && (s.phase.Listing? ==> AllGood(s.phase.seen))
    && (s.phase.Working? || s.lastOk ==> WentThrough(s.last) && AllGood(s.last))
    && (!s.touched ==> UpToDate(VisibleStore(s.db), s))
  }

  // ---- Declines ---------------------------------------------------------------------------

  ghost function WithoutName(vis: map<ID, Visible>, id: ID, u: string): map<ID, Visible>
    requires id in vis
  {
    vis[id := vis[id].(names := vis[id].names - {u})]
  }

  lemma DeclineKeepsNames(vis: map<ID, Visible>, i: ID, id: ID, u: string, declined: set<(ID, string)>)
    requires i in vis && id in vis && u in vis[id].names
    ensures NamesWith(i, WithoutName(vis, id, u)[i].names, declined + {(id, u)}) == NamesWith(i, vis[i].names, declined)
  {
    var names, more := WithoutName(vis, id, u)[i].names, declined + {(id, u)};
    forall x ensures x in NamesWith(i, names, more) <==> x in NamesWith(i, vis[i].names, declined) {
      if x in NamesWith(i, vis[i].names, declined) && x !in names {
        assert (i, x) in more;
      }
    }
  }

  lemma DeclineKeepsAllNames(vis: map<ID, Visible>, id: ID, u: string, declined: set<(ID, string)>)
    requires id in vis && u in vis[id].names
    ensures WithoutName(vis, id, u).Keys == vis.Keys
    ensures forall i | i in vis ::
              NamesWith(i, WithoutName(vis, id, u)[i].names, declined + {(id, u)})
              == NamesWith(i, vis[i].names, declined)
  {
    forall i | i in vis
      ensures NamesWith(i, WithoutName(vis, id, u)[i].names, declined + {(id, u)})
            == NamesWith(i, vis[i].names, declined)
    {
      DeclineKeepsNames(vis, i, id, u, declined);
    }
  }

  lemma DeclineStaysShown(
      vis: map<ID, Visible>, shown: map<ID, Visible>, id: ID, u: string, declined: set<(ID, string)>)
    requires id in vis && u in vis[id].names && Shows(vis, shown, declined)
    ensures Shows(WithoutName(vis, id, u), shown, declined + {(id, u)})
  {
    DeclineKeepsAllNames(vis, id, u, declined);
  }

  lemma DeclineStaysAgreed(vis: map<ID, Visible>, seen: seq<Store>, id: ID, u: string, declined: set<(ID, string)>)
    requires id in vis && u in vis[id].names && SeenAgrees(vis, seen, declined)
    ensures SeenAgrees(WithoutName(vis, id, u), seen, declined + {(id, u)})
  {
    var vis' := WithoutName(vis, id, u);
    DeclineKeepsAllNames(vis, id, u, declined);
    if |seen| >= 2 { assert RowsAgree(vis', seen[1]); }
    if |seen| >= 3 { assert QuotasAgree(vis', seen[2]); }
    if |seen| >= 4 { assert UsersAgree(vis', seen[3], declined + {(id, u)}); }
  }

  lemma DeclineStaysUpToDate(vis: map<ID, Visible>, id: ID, u: string, s: State)
    requires id in vis && u in vis[id].names && UpToDate(vis, s)
    ensures UpToDate(WithoutName(vis, id, u), s.(declined := s.declined + {(id, u)}))
  {
    if s.phase.Listing? {
      DeclineStaysAgreed(vis, s.phase.seen, id, u, s.declined);
    } else if s.phase.Working? || s.lastOk {
      DeclineStaysShown(vis, ShownBy(s.last), id, u, s.declined);
    }
  }

  // ---- Steps keep it ------------------------------------------------------------------------

  lemma CommitKeepsInvariant(s: State, op: Op)
    requires Invariant(s)
    ensures Invariant(CommitOp(s, op))
  {
    ApplyKeepsGood(s.db, op);
    if Apply(s.db, op).error != None {
      FailedSteps(s.db, op);
    } else if op.Decline? {
      DeclineKeepsInvariant(s, op.id, op.username);
    } else if !Enqueues(op) {
      QuietSteps(s.db, op);
    }
  }

  lemma DeclineHides(db: Store, id: ID, u: string)
    requires Pending(db, id, u)
    ensures db.data[id].created ==>
              id in VisibleStore(db) && u in VisibleStore(db)[id].names
              && VisibleStore(ApplyDecline(db, id, u).store) == WithoutName(VisibleStore(db), id, u)
    ensures !db.data[id].created ==> VisibleStore(ApplyDecline(db, id, u).store) == VisibleStore(db)
  {
    DeclineShows(db, id, u);
  }

  lemma DeclineKeepsInvariant(s: State, id: ID, u: string)
    requires Invariant(s) && Pending(s.db, id, u)
    ensures Invariant(CommitOp(s, Decline(id, u)))
  {
    ApplyKeepsGood(s.db, Decline(id, u));
    DeclineHides(s.db, id, u);
    var t := CommitOp(s, Decline(id, u));
    assert t.db == ApplyDecline(s.db, id, u).store;
    if !s.touched {
      if s.db.data[id].created {
        DeclineStaysUpToDate(VisibleStore(s.db), id, u, s);
        assert t == s.(db := t.db, declined := s.declined + {(id, u)});
      } else {
        assert t == s.(db := t.db);
      }
      assert UpToDate(VisibleStore(t.db), t);
    }
  }

  lemma NobodyDeclined(id: ID, names: set<string>)
    ensures NamesWith(id, names, {}) == names
  {
  }

  /** The present state agrees as the next thing seen. */
  lemma PresentAgrees(db: Store, seen: seq<Store>, declined: set<(ID, string)>)
    requires |seen| <= 3 && SeenAgrees(VisibleStore(db), seen, declined)
    ensures SeenAgrees(VisibleStore(db), seen + [db], if |seen| == 3 then {} else declined)
  {
    var vis := VisibleStore(db);
    forall id | id in vis ensures NamesWith(id, vis[id].names, {}) == vis[id].names {
      NobodyDeclined(id, vis[id].names);
    }
    assert CreatedIDs(db) == vis.Keys;
    assert RowsAgree(vis, db) && QuotasAgree(vis, db) && UsersAgree(vis, db, {});
  }

  /** A full listing that agrees piece by piece shows the present. */
  lemma ListedShows(vis: map<ID, Visible>, seen: seq<Store>, requests: Store, declined: set<(ID, string)>)
    requires |seen| == 4 && SeenAgrees(vis, seen, declined)
    ensures LastShows(vis, seen + [requests], declined)
  {
    assert RowsAgree(vis, seen[1]);
    assert forall id | id in CreatedIDs(seen[0]) :: id in seen[1].data;
    assert (seen + [requests])[..4] == seen;
  }

  lemma ReadKeepsInvariant(s: State)
    requires Invariant(s) && s.phase.Listing?
    ensures Invariant(ReadNext(s))
  {
    var seen, vis := s.phase.seen, VisibleStore(s.db);
    if !s.touched {
      if |seen| <= 3 {
        PresentAgrees(s.db, seen, s.declined);
      } else {
        ListedShows(vis, seen, s.db, s.declined);
      }
    }
  }

  lemma TakeKeepsInvariant(s: State)
    requires Invariant(s)
    ensures Invariant(Do(s, Take))
  {
    assert CreatedIDs(s.db) == VisibleStore(s.db).Keys;
  }

  /** Requests and restarts fill the slot; a restart also forgets who was about to. */
  lemma RequestsKeepInvariant(s: State, a: Action)
    requires Invariant(s) && (a.Enqueue? || a.Tick? || a.Restart?)
    ensures Invariant(Do(s, a))
  {
    var t := Do(s, a);
    assert t == s || (t.db == s.db && t.token);
  }

  lemma EndKeepsInvariant(s: State, a: Action)
    requires Invariant(s) && (a.Abort? || a.Finish?)
    ensures Invariant(Do(s, a))
  {
    var t := Do(s, a);
    assert t.db == s.db && t.last == s.last && t.declined == s.declined;
  }

  lemma DoKeepsInvariant(s: State, a: Action)
    requires Invariant(s)
    ensures Invariant(Do(s, a))
  {
    if a.Commit? {
      CommitKeepsInvariant(s, a.op);
    } else if a.Read? {
      if s.phase.Listing? { ReadKeepsInvariant(s); }
    } else if a.Take? {
      TakeKeepsInvariant(s);
    } else if a.Abort? || a.Finish? {
      EndKeepsInvariant(s, a);
    } else {
      RequestsKeepInvariant(s, a);
    }
  }

  /** The invariant against lost wake-ups, in every reachable interleaving. */
  lemma {:induction false} AlwaysInvariant(ops: seq<Op>, actions: seq<Action>)
    ensures Invariant(After(ops, actions))
  {
    if actions == [] {
      RunsStayGood(ops);
    } else {
      AlwaysInvariant(ops, actions[..|actions| - 1]);
      DoKeepsInvariant(After(ops, actions[..|actions| - 1]), actions[|actions| - 1]);
    }
  }

  lemma FifthReadHandsOver(s: State)
    requires s.phase.Listing? && |s.phase.seen| == 4 && !Vanished(s.phase.seen)
    ensures ReadNext(s).phase.Working? && ReadNext(s).last == s.phase.seen + [s.db]
  {
    assert (s.phase.seen + [s.db])[..4] == s.phase.seen;
  }

  /** The protocol gives a listing up where the service does. */
  lemma VanishedIsNotFound(seen: seq<Store>, quotas: Store, users: Store, requests: Store)
    requires |seen| >= 2
    ensures Vanished(seen) <==> ListCreated(seen[0], seen[1], quotas, users, requests) == Err(NotFound)
  {
  }

  /** The protocol's listing is the service's, statement by statement. */
  lemma ReadIsListCreated(c: Permutation, s: State)
    requires s.phase.Listing? && |s.phase.seen| == 4 && !Vanished(s.phase.seen)
    ensures var seen := s.phase.seen;
            var listed := ListCreated(seen[0], seen[1], seen[2], seen[3], s.db);
            listed.Ok? && Given(c, ReadNext(s)) == ValuesOf(c, listed.value)
  {
    FifthReadHandsOver(s);
    VanishedIsNotFound(s.phase.seen, s.phase.seen[2], s.phase.seen[3], s.db);
    var last := s.phase.seen + [s.db];
    assert last[..4] == s.phase.seen && last[4] == s.db;
  }

  // ---- No lost wake-up ------------------------------------------------------------------------

  /** Nothing under way: empty slot, no handler before its Enqueue, idle worker, last run succeeded. */
  ghost predicate Quiescent(s: State) {
    s.phase.Idle? && !s.token && s.owing == 0 && s.lastOk
  }

  /** What Work was last given, nothing to begin with. */
  ghost function Given(c: Permutation, s: State): seq<ValueWorkspace> {
    if !WentThrough(s.last) then []
    else ValuesOf(c, TornListing(s.last[1], s.last[2], s.last[3], s.last[4], CreatedIDs(s.last[0])))
  }

  /** What an uninterrupted listing would give now. */
  ghost function Present(c: Permutation, db: Store): seq<ValueWorkspace> {
    ValuesOf(c, StoreListing(db, CreatedIDs(db)))
  }

  lemma ShowsAllIffNoneDeclined(vis: map<ID, Visible>, shown: map<ID, Visible>, declined: set<(ID, string)>)
    requires Shows(vis, shown, declined)
    ensures shown == vis <==> declined == {}
  {
    if declined == {} {
      forall id | id in vis ensures shown[id] == vis[id] { NobodyDeclined(id, vis[id].names); }
    } else {
      var p :| p in declined;
      assert p.1 in NamesWith(p.0, vis[p.0].names, declined);
    }
  }

  lemma GivenIsPresentIff(c: Permutation, s: State)
    requires WentThrough(s.last)
    ensures Given(c, s) == Rendering(c, ShownBy(s.last))
    ensures Given(c, s) == Present(c, s.db) <==> ShownBy(s.last) == VisibleStore(s.db)
  {
    TornListingRenders(c, CreatedIDs(s.last[0]), s.last[1], s.last[2], s.last[3], s.last[4]);
    ListingRenders(c, s.db);
    if Given(c, s) == Present(c, s.db) {
      RenderingInjective(c, ShownBy(s.last), VisibleStore(s.db));
    }
  }

  /** At rest, Work was last given the created workspaces as they are, with exactly the declined invitations on top. */
  lemma NoLostWakeup(c: Permutation, ops: seq<Op>, actions: seq<Action>)
    requires Quiescent(After(ops, actions))
    ensures var s := After(ops, actions);
            && WentThrough(s.last)
            && Given(c, s) == Rendering(c, ShownBy(s.last))
            && Shows(VisibleStore(s.db), ShownBy(s.last), s.declined)
            && (Given(c, s) == Present(c, s.db) <==> s.declined == {})
  {
    var s := After(ops, actions);
    AlwaysInvariant(ops, actions);
    ShowsAllIffNoneDeclined(VisibleStore(s.db), ShownBy(s.last), s.declined);
    GivenIsPresentIff(c, s);
  }

  /** A list that shows anything else, or a listing about to fail on a vanished row, is followed by a request. */
  lemma TornListingIsRepaired(ops: seq<Op>, actions: seq<Action>)
    ensures var s := After(ops, actions);
            && (s.phase.Working? && !LastShows(VisibleStore(s.db), s.last, s.declined) ==> s.token || s.owing > 0)
            && (s.phase.Listing? && Vanished(s.phase.seen + [s.db]) ==> s.token || s.owing > 0)
  {
    var s := After(ops, actions);
    AlwaysInvariant(ops, actions);
    if s.phase.Listing? && Vanished(s.phase.seen + [s.db]) && !s.touched {
      VanishedIsTouched(s);
    }
  }

  lemma VanishedIsTouched(s: State)
    requires Invariant(s) && s.phase.Listing? && Vanished(s.phase.seen + [s.db])
    ensures s.touched
  {
    var seen := s.phase.seen;
    assert CreatedIDs(s.db) == VisibleStore(s.db).Keys;
    assert forall i | 0 <= i < |seen| :: (seen + [s.db])[i] == seen[i];
  }

  lemma DeclineAtRest(s: State, id: ID, u: string)
    requires Quiescent(s) && Pending(s.db, id, u) && s.db.data[id].created
    ensures Quiescent(Do(s, Commit(Decline(id, u)))) && (id, u) in Do(s, Commit(Decline(id, u))).declined
  {
  }

  /** The one gap: a decline at rest is not enqueued, and leaves the worker's list stale. */
  lemma DeclineGoesUnseen(c: Permutation, ops: seq<Op>, actions: seq<Action>, id: ID, u: string)
    requires Quiescent(After(ops, actions))
    requires Pending(After(ops, actions).db, id, u) && After(ops, actions).db.data[id].created
    ensures var t := After(ops, actions + [Commit(Decline(id, u))]);
            Quiescent(t) && Given(c, t) != Present(c, t.db)
  {
    AfterSnoc(ops, actions, Commit(Decline(id, u)));
    DeclineAtRest(After(ops, actions), id, u);
    NoLostWakeup(c, ops, actions + [Commit(Decline(id, u))]);
  }

  lemma AfterSnoc(ops: seq<Op>, actions: seq<Action>, a: Action)
    ensures After(ops, actions + [a]) == Do(After(ops, actions), a)
  {
    assert (actions + [a])[..|actions|] == actions;
  }

  lemma AfterMore(ops: seq<Op>, actions: seq<Action>, more: seq<Action>, a: Action)
    ensures After(ops, actions + (more + [a])) == Do(After(ops, actions + more), a)
  {
    assert actions + (more + [a]) == (actions + more) + [a];
    AfterSnoc(ops, actions + more, a);
  }

  // ---- Coalescing ------------------------------------------------------------------------------

  function Held(s: State): nat {
    if s.token then 1 else 0
  }

  ghost predicate IsRequest(a: Action) {
    a.Enqueue? || a.Tick? || a.Restart?
  }

  /** What an action may do to the counters, the slot and the mark. */
  ghost predicate Counts(s: State, t: State, a: Action) {
    && t.takes - s.takes == (if a.Take? && s.phase.Idle? && s.token then 1 else 0)
    && Lead(t) == Lead(s)
    && t.ended >= s.ended
    && t.takes + Held(t) - t.requests <= s.takes + Held(s) - s.requests
    && (!IsRequest(a) || s.token ==> t.takes + Held(t) == s.takes + Held(s))
    && (t.takes > s.takes ==> !t.touched)
    && (t.touched && !s.touched ==> a.Commit? && Enqueues(a.op))
  }

  /** Runs begun, but for those that ended and the one under way. */
  function Lead(s: State): int {
    s.takes - s.ended - if s.phase.Idle? then 0 else 1
  }

  lemma ReadCounts(s: State)
    requires s.phase.Listing?
    ensures Counts(s, ReadNext(s), Read)
  {
    var t := ReadNext(s);
    assert t.token == s.token && t.takes == s.takes && t.requests == s.requests && t.touched == s.touched;
  }

  lemma DoCounts(s: State, a: Action)
    ensures Counts(s, Do(s, a), a)
  {
    match a
    case Commit(op) =>
      var t := CommitOp(s, op);
      assert t.token == s.token && t.phase == s.phase;
    case Read => if s.phase.Listing? { ReadCounts(s); }
    case _ =>
  }

  /** A run per request at most, and one run at a time. */
  lemma {:induction false} TakesAreRequested(ops: seq<Op>, actions: seq<Action>)
    ensures var s := After(ops, actions);
            && s.takes + Held(s) <= s.requests
            && s.takes == s.ended + if s.phase.Idle? then 0 else 1
  {
    if actions != [] {
      TakesAreRequested(ops, actions[..|actions| - 1]);
      DoCounts(After(ops, actions[..|actions| - 1]), actions[|actions| - 1]);
    }
  }

  lemma AfterPrefix(ops: seq<Op>, actions: seq<Action>, j: nat)
    requires 0 < j <= |actions|
    ensures After(ops, actions[..j]) == Do(After(ops, actions[..j - 1]), actions[j - 1])
  {
    assert actions[..j][..j - 1] == actions[..j - 1];
  }

  /** Each request between two points found a token waiting, which then stood for it too. */
  ghost predicate Coalesced(ops: seq<Op>, actions: seq<Action>, i: nat, j: nat) {
    j <= |actions| && forall k | i <= k < j :: IsRequest(actions[k]) ==> After(ops, actions[..k]).token
  }

  /** However many requests a token stands for, it is worth one run. */
  lemma {:induction false} OneRunPerToken(ops: seq<Op>, actions: seq<Action>, i: nat, j: nat)
    requires i <= j && Coalesced(ops, actions, i, j)
    ensures var s, t := After(ops, actions[..i]), After(ops, actions[..j]);
            t.takes + Held(t) == s.takes + Held(s)
  {
    if i < j {
      OneRunPerToken(ops, actions, i, j - 1);
      AfterPrefix(ops, actions, j);
      DoCounts(After(ops, actions[..j - 1]), actions[j - 1]);
    }
  }

  ghost predicate NoEnqueueingCommit(actions: seq<Action>, i: nat, j: nat) {
    j <= |actions| && forall k | i <= k < j :: !(actions[k].Commit? && Enqueues(actions[k].op))
  }

  lemma {:induction false} CountersGrow(ops: seq<Op>, actions: seq<Action>, i: nat, j: nat)
    requires i <= j <= |actions|
    ensures After(ops, actions[..i]).takes <= After(ops, actions[..j]).takes
    ensures After(ops, actions[..i]).ended <= After(ops, actions[..j]).ended
  {
    if i < j {
      CountersGrow(ops, actions, i, j - 1);
      AfterPrefix(ops, actions, j);
      DoCounts(After(ops, actions[..j - 1]), actions[j - 1]);
    }
  }

  lemma {:induction false} UntouchedSinceTake(ops: seq<Op>, actions: seq<Action>, i: nat, j: nat)
    requires i <= j && NoEnqueueingCommit(actions, i, j)
    ensures After(ops, actions[..j]).takes > After(ops, actions[..i]).takes ==> !After(ops, actions[..j]).touched
  {
    if i < j {
      AfterPrefix(ops, actions, j);
      DoCounts(After(ops, actions[..j - 1]), actions[j - 1]);
      if After(ops, actions[..j - 1]).takes > After(ops, actions[..i]).takes {
        UntouchedSinceTake(ops, actions, i, j - 1);
      } else {
        CountersGrow(ops, actions, i, j - 1);
      }
    }
  }

  /** Two runs ending after the last enqueueing commit: the second listed after it, so it was given the present. */
  lemma FreshAfterTwoRuns(ops: seq<Op>, actions: seq<Action>, i: nat, j: nat)
    requires i <= j && NoEnqueueingCommit(actions, i, j)
    ensures var s, t := After(ops, actions[..i]), After(ops, actions[..j]);
            t.ended >= s.ended + 2 ==>
              && t.ended > s.takes
              && (t.phase.Idle? && t.lastOk ==> LastShows(VisibleStore(t.db), t.last, t.declined))
  {
    TakesAreRequested(ops, actions[..i]);
    TakesAreRequested(ops, actions[..j]);
    UntouchedSinceTake(ops, actions, i, j);
    AlwaysInvariant(ops, actions[..j]);
  }

  // ---- The ticker ----------------------------------------------------------------------------

  ghost predicate NoDecline(actions: seq<Action>, i: nat, j: nat) {
    j <= |actions| && forall k | i <= k < j :: !(actions[k].Commit? && actions[k].op.Decline?)
  }

  /** The run under way, or the last one if it succeeded, has read the users. */
  ghost predicate UsersRead(s: State) {
    match s.phase
    case Idle => s.lastOk
    case Listing(seen) => |seen| >= 4
    case Working => true
  }

  lemma DoForgetsDeclines(s: State, a: Action)
    requires UsersRead(s) ==> s.declined == {}
    requires s.phase.Listing? ==> |s.phase.seen| <= 4
    requires !(a.Commit? && a.op.Decline?)
    ensures UsersRead(Do(s, a)) ==> Do(s, a).declined == {}
  {
    if a.Commit? {
      assert CommitOp(s, a.op).declined == s.declined && CommitOp(s, a.op).phase == s.phase;
    }
  }

  /** A run begun after the last decline knows nothing of declines. */
  lemma {:induction false} ForgottenSinceTake(ops: seq<Op>, actions: seq<Action>, i: nat, j: nat)
    requires i <= j && NoDecline(actions, i, j)
    ensures After(ops, actions[..j]).takes > After(ops, actions[..i]).takes && UsersRead(After(ops, actions[..j])) ==>
              After(ops, actions[..j]).declined == {}
  {
    if i < j {
      var s := After(ops, actions[..j - 1]);
      AfterPrefix(ops, actions, j);
      DoCounts(s, actions[j - 1]);
      AlwaysInvariant(ops, actions[..j - 1]);
      if s.takes > After(ops, actions[..i]).takes {
        ForgottenSinceTake(ops, actions, i, j - 1);
        DoForgetsDeclines(s, actions[j - 1]);
      } else {
        CountersGrow(ops, actions, i, j - 1);
      }
    }
  }

  /** Two runs after the last commit the worker can see, the list is the present one, whatever filled the slot. */
  lemma PresentAfterTwoRuns(c: Permutation, ops: seq<Op>, actions: seq<Action>, i: nat, j: nat)
    requires i <= j && NoEnqueueingCommit(actions, i, j) && NoDecline(actions, i, j)
    ensures var s, t := After(ops, actions[..i]), After(ops, actions[..j]);
            t.ended >= s.ended + 2 && t.phase.Idle? && t.lastOk ==> Given(c, t) == Present(c, t.db)
  {
    var s, t := After(ops, actions[..i]), After(ops, actions[..j]);
    if t.ended >= s.ended + 2 && t.phase.Idle? && t.lastOk {
      FreshAfterTwoRuns(ops, actions, i, j);
      TakesAreRequested(ops, actions[..j]);
      ForgottenSinceTake(ops, actions, i, j);
      ShowsAllIffNoneDeclined(VisibleStore(t.db), ShownBy(t.last), t.declined);
      GivenIsPresentIff(c, t);
    }
  }

  const LISTING := [Take, Read, Read, Read, Read, Read]
  const ONE_RUN := LISTING + [Finish(true)]

  /** Five statements on the state as it is. */
  lemma UndisturbedListing(s: State, s0: State)
    requires s0.phase == Listing([]) && s0.db == s.db && s0.owing == s.owing && !s0.token
    requires s0.takes == s.takes + 1
    ensures var s1 := Do(s0, Read);
            var s2 := Do(s1, Read);
            var s3 := Do(s2, Read);
            var s4 := Do(s3, Read);
            var s5 := Do(s4, Read);
            && s5.phase.Working? && !s5.token && s5.owing == s.owing && s5.db == s.db && s5.takes == s.takes + 1
            && s5.last == [s.db, s.db, s.db, s.db, s.db] && s5.declined == {}
  {
    var db := s.db;
    PresentUntorn(db);
    var s1 := Do(s0, Read);
    assert s1.phase == Listing([db]);
    var s2 := Do(s1, Read);
    assert s2.phase == Listing([db, db]);
    var s3 := Do(s2, Read);
    assert s3.phase == Listing([db, db, db]);
    var s4 := Do(s3, Read);
    assert s4.phase == Listing([db, db, db, db]) && s4.declined == {};
  }

  /** An undisturbed run of an idle worker with a token hands over the present. */
  lemma AfterListing(ops: seq<Op>, actions: seq<Action>)
    requires After(ops, actions).phase.Idle? && After(ops, actions).token
    ensures var s, t := After(ops, actions), After(ops, actions + LISTING);
            && t.phase.Working? && !t.token && t.owing == s.owing && t.db == s.db && t.takes == s.takes + 1
            && t.last == [s.db, s.db, s.db, s.db, s.db] && t.declined == {}
  {
    var a1 := actions + [Take];
    var a2 := a1 + [Read];
    var a3 := a2 + [Read];
    var a4 := a3 + [Read];
    var a5 := a4 + [Read];
    AfterSnoc(ops, actions, Take);
    AfterSnoc(ops, a1, Read);
    AfterSnoc(ops, a2, Read);
    AfterSnoc(ops, a3, Read);
    AfterSnoc(ops, a4, Read);
    AfterSnoc(ops, a5, Read);
    assert actions + LISTING == a5 + [Read];
    UndisturbedListing(After(ops, actions), After(ops, a1));
  }

  lemma GivenUntorn(c: Permutation, s: State)
    requires s.last == [s.db, s.db, s.db, s.db, s.db]
    ensures Given(c, s) == Present(c, s.db)
  {
    PresentUntorn(s.db);
    assert s.last[0] == s.last[1] == s.last[2] == s.last[3] == s.db;
    GivenIsPresentIff(c, s);
  }

  lemma SuccessEnds(s: State)
    requires s.phase.Working? && !s.token && s.owing == 0
    ensures var t := Do(s, Finish(true));
            Quiescent(t) && t.db == s.db && t.declined == s.declined && t.last == s.last
  {
  }

  lemma SuccessRests(c: Permutation, s: State)
    requires s.phase.Working? && !s.token && s.owing == 0 && s.last == [s.db, s.db, s.db, s.db, s.db]
    ensures var t := Do(s, Finish(true));
            Quiescent(t) && t.db == s.db && t.declined == s.declined && Given(c, t) == Present(c, s.db)
  {
    SuccessEnds(s);
    GivenUntorn(c, Do(s, Finish(true)));
  }

  /** An undisturbed run of an idle worker brings the queue to rest with the present list, declines forgotten. */
  lemma OneRunRests(c: Permutation, ops: seq<Op>, actions: seq<Action>)
    requires After(ops, actions).phase.Idle? && After(ops, actions).token && After(ops, actions).owing == 0
    ensures var t := After(ops, actions + ONE_RUN);
            Quiescent(t) && t.db == After(ops, actions).db && t.declined == {} && Given(c, t) == Present(c, t.db)
  {
    AfterListing(ops, actions);
    AfterMore(ops, actions, LISTING, Finish(true));
    SuccessRests(c, After(ops, actions + LISTING));
  }

  /** The ticker repairs what a decline leaves: from any state at rest, a tick and an undisturbed run. */
  lemma TickRepairs(c: Permutation, ops: seq<Op>, actions: seq<Action>)
    requires Quiescent(After(ops, actions))
    ensures var t := After(ops, actions + [Tick] + ONE_RUN);
            Quiescent(t) && t.db == After(ops, actions).db && t.declined == {} && Given(c, t) == Present(c, t.db)
  {
    AfterSnoc(ops, actions, Tick);
    OneRunRests(c, ops, actions + [Tick]);
  }
}
