/** Creating the wanted projects that were not there, and what a whole run achieves. */
module FillSpec {
  import opened Basics
  import opened HarborSdk
  import opened HarborApi
  import opened Slices
  import opened ReconcileSpec
  import opened SyncOne
  import opened RunSpec

  /** The first wanted workspace left is created. A reliable registry refuses only a project that is there. */
  ghost predicate Creates(a: Scan, b: Scan, known: set<string>, reliable: bool) {
    && a.left != [] && b.left == a.left[1..]
    && var w, name := a.left[0], ProjectFor(a.left[0]);
    && b.done == a.done + [Attempt(w, !Troubled(a.reg, b.reg))]
    && CreateOutcome(a.reg.projects, b.reg.projects, w, known, !Troubled(a.reg, b.reg))
    && (reliable && name !in a.reg.projects ==> !Troubled(a.reg, b.reg))
    && b.reg.changes > a.reg.changes && b.reg.failures >= a.reg.failures
    && b.reg.attempts == a.reg.attempts + multiset{name}
    && b.reg.deletions == a.reg.deletions
    && RobotStep(a.reg, b.reg, w, !Troubled(a.reg, b.reg))
  }

  ghost predicate IsFill(first: Scan, states: seq<Scan>, n: nat, known: set<string>, reliable: bool) {
    && |states| == n + 1 && n <= |first.left|
    && states[0] == first
    && forall i | 0 < i <= n :: Creates(states[i - 1], states[i], known, reliable)
  }

  lemma FillPrefix(first: Scan, states: seq<Scan>, n: nat, known: set<string>, reliable: bool)
    requires IsFill(first, states, n, known, reliable) && n > 0
    ensures IsFill(first, states[..n], n - 1, known, reliable) && Creates(states[n - 1], states[n], known, reliable)
  {
  }

  lemma FillSnoc(first: Scan, states: seq<Scan>, n: nat, known: set<string>, reliable: bool, b: Scan)
    requires IsFill(first, states, n, known, reliable) && n < |first.left| && Creates(states[n], b, known, reliable)
    ensures IsFill(first, states + [b], n + 1, known, reliable)
  {
  }

  // ---- Invariant --------------------------------------------------------------------------

  /** Any wanted project that is there was taken up by one of the attempts. */
  ghost predicate Accounted(now: map<string, Project>, wanted: seq<Wish>, done: seq<Attempt>) {
    forall p | p in now && p in Names(wanted) :: p in Names(WishesOf(done))
  }

  /** The projects that are new have their robot account, asked for once. */
  ghost predicate NewOnesReady(start: map<string, Project>, reg: Registry) {
    forall p | p in reg.projects && p !in start :: reg.projects[p].robots == 1 && reg.robots[p] == 1
  }

  /** createRobot is called once at most after a successful createProject, and for no other project. */
  ghost predicate RobotsOnce(start: map<string, Project>, before: Registry, after: Registry) {
    && (forall p | p in start :: after.creations[p] == before.creations[p])
    && (forall p | after.creations[p] == before.creations[p] :: after.robots[p] == before.robots[p])
    && (forall p | after.creations[p] != before.creations[p] ::
          after.creations[p] > before.creations[p] && after.robots[p] <= 1)
  }

  /** How the projects stand once all the listed ones are visited. */
  ghost predicate Standing(r: Plan, s: Scan) {
    && AllSynced(s.reg.projects, s.done, r.known)
    && SameUnprefixed(r.start.projects, s.reg.projects)
    && Swept(s.reg.projects, r.listed, |r.listed|, r.wanted, Troubled(r.start, s.reg))
    && WantedKept(r.start.projects, s.reg.projects, r.wanted, r.known)
    && NewOnesWanted(r.start.projects, s.reg.projects, r.wanted, r.known)
  }

  /** All listed projects are visited, and what remains of the wanted list is being created. */
  ghost predicate Filling(r: Plan, s: Scan) {
    && Conserved(r.wanted, s.done, s.left)
    && Standing(r, s)
    && Accounted(s.reg.projects, r.wanted, s.done)
    && Grows(r.start, s.reg)
    && (!Troubled(r.start, s.reg) ==> AllOk(s.done) && NoDuplicates(Names(WishesOf(s.done))))
  }

  lemma AllVisited(r: Plan, s: Scan)
    requires r.Valid() && Reached(r, |r.listed|, s)
    ensures Filling(r, s)
  {
    var now := s.reg.projects;
    forall p | p in now && p in Names(r.wanted) ensures p in Names(WishesOf(s.done)) {
      assert p in Elements(r.listed);
      var i :| 0 <= i < |r.listed| && r.listed[i] == p;
    }
  }

  /** While nothing has failed, every attempted project is there. */
  lemma DoneIsPresent(now: map<string, Project>, done: seq<Attempt>, known: set<string>, name: string)
    requires AllSynced(now, done, known) && AllOk(done) && name in Names(WishesOf(done))
    ensures name in now
  {
    var i :| 0 <= i < |done| && Names(WishesOf(done))[i] == name;
  }

  lemma CreateKeepsSynced(
    now: map<string, Project>, after: map<string, Project>, done: seq<Attempt>, w: Wish, ok: bool, known: set<string>)
    requires AllSynced(now, done, known) && CreateOutcome(now, after, w, known, ok)
    ensures AllSynced(after, done + [Attempt(w, ok)], known)
  {
    var name := ProjectFor(w);
    forall i | 0 <= i < |done| && done[i].ok ensures Synced(after, done[i].wish, known) {
      if name in now {
        assert after == now;
      } else {
        OthersSame(now, after, name, ProjectFor(done[i].wish));
      }
    }
  }

  lemma CreateKeepsNewOnes(r: Plan, now: map<string, Project>, after: map<string, Project>, w: Wish, ok: bool)
    requires NewOnesWanted(r.start.projects, now, r.wanted, r.known) && w in r.wanted
    requires CreateOutcome(now, after, w, r.known, ok)
    ensures NewOnesWanted(r.start.projects, after, r.wanted, r.known)
  {
    var name := ProjectFor(w);
    if name !in now {
      forall p | p in after && p !in r.start.projects ensures IsWanted(p, after[p], r.wanted, r.known) {
        if p != name { OthersSame(now, after, name, p); }
      }
    }
  }

  lemma CreateKeepsSwept(
    r: Plan, now: map<string, Project>, after: map<string, Project>, name: string, before: bool, failed: bool)
    requires Swept(now, r.listed, |r.listed|, r.wanted, before) && (before ==> failed)
    requires SameOthers(now, after, name) && name in Names(r.wanted)
    ensures Swept(after, r.listed, |r.listed|, r.wanted, failed)
  {
    forall i | 0 <= i < |r.listed| && HasPrefix(r.listed[i]) && r.listed[i] !in Names(r.wanted) && !failed
      ensures r.listed[i] !in after
    {
      OthersSame(now, after, name, r.listed[i]);
    }
  }

  lemma CreateKeepsAccounted(
    now: map<string, Project>, after: map<string, Project>, wanted: seq<Wish>, done: seq<Attempt>, w: Wish, ok: bool)
    requires Accounted(now, wanted, done) && SameOthers(now, after, ProjectFor(w))
    ensures Accounted(after, wanted, done + [Attempt(w, ok)])
    ensures Names(WishesOf(done + [Attempt(w, ok)])) == Names(WishesOf(done)) + [ProjectFor(w)]
  {
    assert Names(WishesOf(done + [Attempt(w, ok)])) == Names(WishesOf(done)) + [ProjectFor(w)];
    forall p | p in after && p in Names(wanted) ensures p in Names(WishesOf(done + [Attempt(w, ok)])) {
      if p != ProjectFor(w) { OthersSame(now, after, ProjectFor(w), p); }
    }
  }

  /** The project being created is either new, or there already and left alone. */
  lemma CreateKeepsWanted(r: Plan, now: map<string, Project>, after: map<string, Project>, w: Wish, ok: bool)
    requires WantedKept(r.start.projects, now, r.wanted, r.known) && SameUnprefixed(r.start.projects, now)
    requires w in r.wanted && CreateOutcome(now, after, w, r.known, ok)
    ensures ProjectFor(w) in Names(r.wanted)
    ensures ProjectFor(w) in r.start.projects ==> ProjectFor(w) in now
    ensures WantedKept(r.start.projects, after, r.wanted, r.known) && SameUnprefixed(r.start.projects, after)
  {
    var name := ProjectFor(w);
    NameOfWanted(r.wanted, w);
    ProjectForHasPrefix(w);
    StepUnprefixed(r.start.projects, now, after, name);
    if name !in now {
      StepWantedKept(r.start.projects, now, after, name, r.wanted, r.known);
    }
  }

  lemma CreateKeepsStanding(r: Plan, a: Scan, b: Scan, w: Wish, ok: bool)
    requires Standing(r, a) && w in r.wanted && b.done == a.done + [Attempt(w, ok)]
    requires CreateOutcome(a.reg.projects, b.reg.projects, w, r.known, ok)
    requires Troubled(r.start, a.reg) ==> Troubled(r.start, b.reg)
    ensures Standing(r, b)
  {
    var now, after := a.reg.projects, b.reg.projects;
    CreateKeepsSynced(now, after, a.done, w, ok, r.known);
    CreateKeepsWanted(r, now, after, w, ok);
    CreateKeepsNewOnes(r, now, after, w, ok);
    CreateKeepsSwept(r, now, after, ProjectFor(w), Troubled(r.start, a.reg), Troubled(r.start, b.reg));
  }

  lemma TakeFirst(wanted: seq<Wish>, done: seq<Attempt>, left: seq<Wish>, ok: bool)
    requires Conserved(wanted, done, left) && left != []
    ensures Conserved(wanted, done + [Attempt(left[0], ok)], left[1..]) && left[0] in wanted
  {
    LeftIsWanted(wanted, done, left, left[0]);
    ConservedStep(wanted, done, left, 0, ok);
    assert Without(left, 0) == left[1..];
  }

  lemma CreateFills(r: Plan, a: Scan, b: Scan, reliable: bool)
    requires Filling(r, a) && Creates(a, b, r.known, reliable)
    ensures Filling(r, b)
  {
    var w, ok := a.left[0], !Troubled(a.reg, b.reg);
    TakeFirst(r.wanted, a.done, a.left, ok);
    CreateKeepsStanding(r, a, b, w, ok);
    CreateKeepsAccounted(a.reg.projects, b.reg.projects, r.wanted, a.done, w, ok);
    if !Troubled(r.start, b.reg) { CreateKeepsDistinct(r, a, b, reliable); }
  }

  lemma CreateKeepsDistinct(r: Plan, a: Scan, b: Scan, reliable: bool)
    requires Filling(r, a) && Creates(a, b, r.known, reliable) && !Troubled(r.start, b.reg)
    ensures AllOk(b.done) && NoDuplicates(Names(WishesOf(b.done)))
  {
    var name := ProjectFor(a.left[0]);
    assert Names(WishesOf(b.done)) == Names(WishesOf(a.done)) + [name];
    if name in Names(WishesOf(a.done)) {
      DoneIsPresent(a.reg.projects, a.done, r.known, name);
    }
  }

  /** The calls issued so far, and the robots they left. */
  ghost predicate Accountable(r: Plan, s: Scan) {
    && s.reg.attempts == r.start.attempts + multiset(Names(WishesOf(s.done)))
    && OnlyUnwanted(r.start.deletions, s.reg.deletions, r.wanted)
    && RobotsOnce(r.start.projects, r.start, s.reg)
    && (!Troubled(r.start, s.reg) ==> NewOnesReady(r.start.projects, s.reg))
  }

  lemma CreateKeepsRobots(r: Plan, a: Scan, b: Scan, reliable: bool)
    requires Filling(r, a) && Creates(a, b, r.known, reliable)
    requires RobotsOnce(r.start.projects, r.start, a.reg)
    requires !Troubled(r.start, a.reg) ==> NewOnesReady(r.start.projects, a.reg)
    ensures RobotsOnce(r.start.projects, r.start, b.reg)
    ensures !Troubled(r.start, b.reg) ==> NewOnesReady(r.start.projects, b.reg)
  {
    var w, name, ok := a.left[0], ProjectFor(a.left[0]), !Troubled(a.reg, b.reg);
    LeftIsWanted(r.wanted, a.done, a.left, w);
    CreateKeepsWanted(r, a.reg.projects, b.reg.projects, w, ok);
    if !Troubled(r.start, b.reg) {
      forall p | p in b.reg.projects && p !in r.start.projects
        ensures b.reg.projects[p].robots == 1 && b.reg.robots[p] == 1
      {
        if p != name { OthersSame(a.reg.projects, b.reg.projects, name, p); }
      }
    }
  }

  lemma CreateStaysAccountable(r: Plan, a: Scan, b: Scan, reliable: bool)
    requires Filling(r, a) && Accountable(r, a) && Creates(a, b, r.known, reliable)
    ensures Accountable(r, b)
  {
    CreateKeepsRobots(r, a, b, reliable);
    assert Names(WishesOf(b.done)) == Names(WishesOf(a.done)) + [ProjectFor(a.left[0])];
  }

  /** A reliable registry fails a run exactly when two wanted workspaces claim one project. */
  ghost predicate Explained(r: Plan, s: Scan) {
    Troubled(r.start, s.reg) <==> !NoDuplicates(Names(WishesOf(s.done)))
  }

  lemma CreateStaysExplained(r: Plan, a: Scan, b: Scan)
    requires Filling(r, a) && Explained(r, a) && Creates(a, b, r.known, true)
    ensures Explained(r, b)
  {
    var name, before := ProjectFor(a.left[0]), Names(WishesOf(a.done));
    assert Names(WishesOf(b.done)) == before + [name];
    LeftIsWanted(r.wanted, a.done, a.left, a.left[0]);
    NameOfWanted(r.wanted, a.left[0]);
    if name in before {
      if !Troubled(r.start, a.reg) { DoneIsPresent(a.reg.projects, a.done, r.known, name); }
      var i :| 0 <= i < |before| && before[i] == name;
      assert Names(WishesOf(b.done))[i] == Names(WishesOf(b.done))[|before|];
    } else {
      assert name !in a.reg.projects;
      AppendDistinct(before, name);
    }
  }

  lemma AppendDistinct(s: seq<string>, x: string)
    requires x !in s
    ensures NoDuplicates(s + [x]) <==> NoDuplicates(s)
  {
    if NoDuplicates(s + [x]) {
      forall i, j | 0 <= i < j < |s| ensures s[i] != s[j] {
        assert (s + [x])[i] != (s + [x])[j];
      }
    }
  }

  /** What holds after `n` creations. */
  lemma {:induction false} FillKeepsAll(r: Plan, first: Scan, states: seq<Scan>, n: nat, reliable: bool)
    requires IsFill(first, states, n, r.known, reliable)
    requires Filling(r, first) && Accountable(r, first) && (reliable ==> Explained(r, first))
    ensures Filling(r, states[n]) && Accountable(r, states[n]) && (reliable ==> Explained(r, states[n]))
    ensures states[n].left == first.left[n..]
  {
    if n > 0 {
      FillPrefix(first, states, n, r.known, reliable);
      FillKeepsAll(r, first, states[..n], n - 1, reliable);
      var a, b := states[n - 1], states[n];
      CreateFills(r, a, b, reliable);
      CreateStaysAccountable(r, a, b, reliable);
      if reliable { CreateStaysExplained(r, a, b); }
    }
  }

  /** In step from the start, every creation meets a conflict and changes nothing. */
  lemma {:induction false} FillKeepsMirror(r: Plan, first: Scan, states: seq<Scan>, n: nat, reliable: bool)
    requires IsFill(first, states, n, r.known, reliable)
    requires Mirrors(r.start.projects, r.wanted, r.known) && first.reg.projects == r.start.projects
    requires forall w | w in first.left :: w in r.wanted
    ensures states[n].reg.projects == r.start.projects
    ensures states[n].left == first.left[n..] && (n > 0 ==> states[n].reg.changes > first.reg.changes)
  {
    if n > 0 {
      FillPrefix(first, states, n, r.known, reliable);
      FillKeepsMirror(r, first, states[..n], n - 1, reliable);
      assert states[n - 1].left[0] in first.left;
    }
  }

  lemma {:induction false} FillChanges(first: Scan, states: seq<Scan>, n: nat, known: set<string>, reliable: bool)
    requires IsFill(first, states, n, known, reliable)
    ensures states[n].reg.changes >= first.reg.changes && (n > 0 ==> states[n].reg.changes > first.reg.changes)
  {
    if n > 0 {
      FillPrefix(first, states, n, known, reliable);
      FillChanges(first, states[..n], n - 1, known, reliable);
    }
  }

  // ---- At the end ------------------------------------------------------------------------------

  lemma NothingElseLeft(r: Plan, now: map<string, Project>)
    requires r.Valid()
    requires Swept(now, r.listed, |r.listed|, r.wanted, false)
    requires NewOnesWanted(r.start.projects, now, r.wanted, r.known)
    ensures forall p | p in now && HasPrefix(p) :: p in Names(r.wanted)
  {
    forall p | p in now && HasPrefix(p) ensures p in Names(r.wanted) {
      if p in r.start.projects {
        assert p in Elements(r.listed);
        var i :| 0 <= i < |r.listed| && r.listed[i] == p;
      } else {
        var w :| w in r.wanted && ProjectFor(w) == p && InvitedOnly(now[p], w.users, r.known);
        NameOfWanted(r.wanted, w);
      }
    }
  }

  lemma AllWantedSynced(wanted: seq<Wish>, now: map<string, Project>, done: seq<Attempt>, known: set<string>)
    requires Conserved(wanted, done, []) && AllSynced(now, done, known) && AllOk(done)
    ensures forall w | w in wanted :: Synced(now, w, known)
  {
    forall w | w in wanted ensures Synced(now, w, known) {
      WantedWishIsDoneOrLeft(wanted, done, [], w);
      var i :| 0 <= i < |done| && WishesOf(done)[i] == w;
    }
  }

  lemma RunMirrors(r: Plan, s: Scan)
    requires r.Valid() && Filling(r, s) && s.left == [] && !Troubled(r.start, s.reg)
    ensures Mirrors(s.reg.projects, r.wanted, r.known)
  {
    NothingElseLeft(r, s.reg.projects);
    AllWantedSynced(r.wanted, s.reg.projects, s.done, r.known);
  }

  /** Once all is done, the attempts are the wanted list up to order. */
  lemma RunAccountsForAll(wanted: seq<Wish>, done: seq<Attempt>)
    requires Conserved(wanted, done, [])
    ensures multiset(WishesOf(done)) == multiset(wanted)
    ensures multiset(Names(WishesOf(done))) == multiset(Names(wanted))
    ensures NoDuplicates(Names(WishesOf(done))) <==> NoDuplicates(Names(wanted))
  {
    assert Names([]) == [];
    PermutedElements(Names(WishesOf(done)), Names(wanted));
  }

  /** Starting settled, the listed projects account for every wanted workspace. */
  lemma SettledLeavesNothing(r: Plan, s: Scan)
    requires Filling(r, s) && AllSettled(r.start.projects, r.wanted)
    requires s.reg.projects == r.start.projects
    ensures s.left == []
  {
    if s.left != [] {
      var w, name := s.left[0], ProjectFor(s.left[0]);
      LeftIsWanted(r.wanted, s.done, s.left, w);
      NameOfWanted(r.wanted, w);
      assert name in Names(WishesOf(s.done));
      assert Names(s.left)[0] == name;
      TwiceIsDuplicate(Names(r.wanted), Names(WishesOf(s.done)), Names(s.left), name);
    }
  }

  lemma TwiceIsDuplicate(all: seq<string>, a: seq<string>, b: seq<string>, x: string)
    requires multiset(a) + multiset(b) == multiset(all) && x in a && x in b
    ensures !NoDuplicates(all)
  {
    assert multiset(a)[x] >= 1 && multiset(b)[x] >= 1;
    assert multiset(Elements(all))[x] <= 1;
    if NoDuplicates(all) {
      NoDuplicatesIsSet(all);
    }
  }

  /** A run without failures that issued no changing call found everything settled. */
  lemma UntouchedIsSettled(r: Plan, s: Scan)
    requires r.Valid() && Filling(r, s) && s.left == [] && !Troubled(r.start, s.reg)
    requires Untouched(r, |r.listed|, s)
    ensures AllSettled(r.start.projects, r.wanted)
  {
    RunAccountsForAll(r.wanted, s.done);
    forall p | p in r.start.projects && HasPrefix(p) ensures p in Names(r.wanted) {
      assert p in Elements(r.listed);
      var i :| 0 <= i < |r.listed| && r.listed[i] == p;
    }
    forall w | w in r.wanted ensures StartsSettled(r.start.projects, w) {
      WantedWishIsDoneOrLeft(r.wanted, s.done, [], w);
      var i :| 0 <= i < |s.done| && WishesOf(s.done)[i] == w;
    }
  }

  lemma SettledMirrors(projects: map<string, Project>, wanted: seq<Wish>, known: set<string>)
    requires AllSettled(projects, wanted)
    ensures Mirrors(projects, wanted, known)
  {
  }

  // ---- Whole runs ------------------------------------------------------------------------------

  /** A run that got its listing: the states between listed projects, then those between creations. */
  ghost predicate IsRun(r: Plan, scans: seq<Scan>, fills: seq<Scan>, reliable: bool) {
    && r.Valid()
    && IsScan(r, scans, |r.listed|)
    && IsFill(scans[|r.listed|], fills, |scans[|r.listed|].left|, r.known, reliable)
    && (reliable ==> !Troubled(r.start, scans[|r.listed|].reg))
  }

  ghost function End(fills: seq<Scan>): Scan
    requires fills != []
  {
    fills[|fills| - 1]
  }

  lemma RunKeepsAll(r: Plan, scans: seq<Scan>, fills: seq<Scan>, reliable: bool)
    requires IsRun(r, scans, fills, reliable)
    ensures Filling(r, End(fills)) && Accountable(r, End(fills)) && End(fills).left == []
    ensures reliable ==> Explained(r, End(fills))
  {
    var mid := scans[|r.listed|];
    ScanReaches(r, scans, |r.listed|);
    ScanStaysQuiet(r, scans, |r.listed|);
    AllVisited(r, mid);
    FillKeepsAll(r, mid, fills, |mid.left|, reliable);
  }

  /** Without a failed call the prefixed projects end up exactly the wanted ones, each in sync. */
  lemma RunConverges(r: Plan, scans: seq<Scan>, fills: seq<Scan>, reliable: bool)
    requires IsRun(r, scans, fills, reliable)
    ensures !Troubled(r.start, End(fills).reg) ==> Mirrors(End(fills).reg.projects, r.wanted, r.known)
    ensures SameUnprefixed(r.start.projects, End(fills).reg.projects)
  {
    RunKeepsAll(r, scans, fills, reliable);
    if !Troubled(r.start, End(fills).reg) { RunMirrors(r, End(fills)); }
  }

  /** Whatever fails: one attempt per wanted workspace, those that succeed end in sync, and nothing wanted is lost. */
  lemma RunIsolatesFaults(r: Plan, scans: seq<Scan>, fills: seq<Scan>, reliable: bool)
    requires IsRun(r, scans, fills, reliable)
    ensures multiset(WishesOf(End(fills).done)) == multiset(r.wanted)
    ensures End(fills).reg.attempts == r.start.attempts + multiset(Names(r.wanted))
    ensures AllSynced(End(fills).reg.projects, End(fills).done, r.known)
    ensures WantedKept(r.start.projects, End(fills).reg.projects, r.wanted, r.known)
    ensures NewOnesWanted(r.start.projects, End(fills).reg.projects, r.wanted, r.known)
    ensures OnlyUnwanted(r.start.deletions, End(fills).reg.deletions, r.wanted)
  {
    RunKeepsAll(r, scans, fills, reliable);
    RunAccountsForAll(r.wanted, End(fills).done);
  }

  /** A reliable registry is no guarantee: wishes for one project twice still fail, and only those. */
  lemma ReliableRunFailsIffNamesClash(r: Plan, scans: seq<Scan>, fills: seq<Scan>)
    requires IsRun(r, scans, fills, true)
    ensures Troubled(r.start, End(fills).reg) <==> !NoDuplicates(Names(r.wanted))
  {
    RunKeepsAll(r, scans, fills, true);
    RunAccountsForAll(r.wanted, End(fills).done);
  }

  /** In step to begin with, nothing changes, whatever fails. */
  lemma RunIsIdempotent(r: Plan, scans: seq<Scan>, fills: seq<Scan>, reliable: bool)
    requires IsRun(r, scans, fills, reliable) && Mirrors(r.start.projects, r.wanted, r.known)
    ensures End(fills).reg.projects == r.start.projects
  {
    var mid := scans[|r.listed|];
    ScanReaches(r, scans, |r.listed|);
    ScanStaysQuiet(r, scans, |r.listed|);
    forall w | w in mid.left ensures w in r.wanted { LeftIsWanted(r.wanted, mid.done, mid.left, w); }
    FillKeepsMirror(r, mid, fills, |mid.left|, reliable);
  }

  lemma SettledRunIsSilent(r: Plan, scans: seq<Scan>, fills: seq<Scan>, reliable: bool)
    requires IsRun(r, scans, fills, reliable) && AllSettled(r.start.projects, r.wanted)
    ensures End(fills).reg.changes == r.start.changes
  {
    var mid := scans[|r.listed|];
    SettledMirrors(r.start.projects, r.wanted, r.known);
    ScanReaches(r, scans, |r.listed|);
    ScanStaysQuiet(r, scans, |r.listed|);
    AllVisited(r, mid);
    SettledLeavesNothing(r, mid);
  }

  /** A run without failures issues no changing call exactly when it starts settled. */
  lemma RunIsSilentIffSettled(r: Plan, scans: seq<Scan>, fills: seq<Scan>, reliable: bool)
    requires IsRun(r, scans, fills, reliable) && !Troubled(r.start, End(fills).reg)
    ensures End(fills).reg.changes == r.start.changes <==> AllSettled(r.start.projects, r.wanted)
  {
    var mid := scans[|r.listed|];
    if AllSettled(r.start.projects, r.wanted) {
      SettledRunIsSilent(r, scans, fills, reliable);
    } else if End(fills).reg.changes == r.start.changes {
      ScanReaches(r, scans, |r.listed|);
      ScanStaysQuiet(r, scans, |r.listed|);
      FillChanges(mid, fills, |mid.left|, r.known, reliable);
      assert mid.left == [] && End(fills) == mid;
      AllVisited(r, mid);
      UntouchedIsSettled(r, mid);
      assert false;
    }
  }

  /** A robot account is asked for once per project created, never for one that was there. */
  lemma RunAsksForRobotsOnce(r: Plan, scans: seq<Scan>, fills: seq<Scan>, reliable: bool)
    requires IsRun(r, scans, fills, reliable)
    ensures RobotsOnce(r.start.projects, r.start, End(fills).reg)
    ensures !Troubled(r.start, End(fills).reg) ==> NewOnesReady(r.start.projects, End(fills).reg)
    ensures forall p | p in r.start.projects && p in Names(r.wanted) ::
              p in End(fills).reg.projects && End(fills).reg.projects[p].robots == r.start.projects[p].robots
  {
    RunKeepsAll(r, scans, fills, reliable);
    var now := End(fills).reg.projects;
    forall p | p in r.start.projects && p in Names(r.wanted)
      ensures p in now && now[p].robots == r.start.projects[p].robots
    {
      assert KeptForSome(p, r.start.projects[p], now[p], r.wanted, r.known);
    }
  }

  /** A second run after one without failures changes nothing, and asks nothing if all users are known and proper. */
  lemma SecondRunIsIdle(
    r: Plan, scans: seq<Scan>, fills: seq<Scan>, r': Plan, scans': seq<Scan>, fills': seq<Scan>, reliable: bool)
    requires IsRun(r, scans, fills, reliable) && !Troubled(r.start, End(fills).reg)
    requires IsRun(r', scans', fills', reliable)
    requires r'.start == End(fills).reg && r'.wanted == r.wanted && r'.known == r.known
    ensures End(fills').reg.projects == End(fills).reg.projects
    ensures (forall w | w in r.wanted ::
                   NoDuplicates(w.users) && "admin" !in w.users && Elements(w.users) <= r.known) ==>
              End(fills').reg.changes == End(fills).reg.changes
  {
    RunConverges(r, scans, fills, reliable);
    RunIsIdempotent(r', scans', fills', reliable);
    if forall w | w in r.wanted :: NoDuplicates(w.users) && "admin" !in w.users && Elements(w.users) <= r.known {
      RunKeepsAll(r, scans, fills, reliable);
      RunAccountsForAll(r.wanted, End(fills).done);
      MirrorsKnownIsSettled(End(fills).reg.projects, r.wanted, r.known);
      SettledRunIsSilent(r', scans', fills', reliable);
    }
  }

  // ---- What the success of an attempt means ------------------------------------------------------

  /** From `a` to `b` the `i`-th attempt was made; it succeeded exactly if none of its calls failed. */
  ghost predicate IsAttempt(a: Scan, b: Scan, i: nat, t: Attempt) {
    |a.done| == i && b.done == a.done + [t] && (t.ok <==> b.reg.failures == a.reg.failures)
  }

  lemma NextAttempts(a: Scan, b: Scan, p: string, known: set<string>)
    requires Next(a, b, p, known)
    ensures b.done == a.done || (b.done != [] && IsAttempt(a, b, |a.done|, b.done[|b.done| - 1]))
  {
    if !(!HasPrefix(p) && b == a) && !Discards(a, b, p) {
      var i: nat :| Matches(a, b, p, known, i);
    }
  }

  lemma {:induction false} ScanAttempt(r: Plan, states: seq<Scan>, k: nat, i: nat)
    requires IsScan(r, states, k) && i < |states[k].done|
    ensures exists m :: 0 < m <= k && IsAttempt(states[m - 1], states[m], i, states[k].done[i])
  {
    if k > 0 {
      ScanPrefix(r, states, k);
      NextAttempts(states[k - 1], states[k], r.listed[k - 1], r.known);
      if i < |states[k - 1].done| {
        ScanAttempt(r, states[..k], k - 1, i);
        var m :| 0 < m <= k - 1 && IsAttempt(states[..k][m - 1], states[..k][m], i, states[k - 1].done[i]);
        assert IsAttempt(states[m - 1], states[m], i, states[k].done[i]);
      }
    }
  }

  lemma {:induction false} FillAttempt(
    first: Scan, states: seq<Scan>, n: nat, known: set<string>, reliable: bool, i: nat)
    requires IsFill(first, states, n, known, reliable) && |first.done| <= i < |states[n].done|
    ensures exists m :: 0 < m <= n && IsAttempt(states[m - 1], states[m], i, states[n].done[i])
  {
    if n > 0 {
      FillPrefix(first, states, n, known, reliable);
      if i < |states[n - 1].done| {
        FillAttempt(first, states[..n], n - 1, known, reliable, i);
        var m :| 0 < m <= n - 1 && IsAttempt(states[..n][m - 1], states[..n][m], i, states[n - 1].done[i]);
        assert IsAttempt(states[m - 1], states[m], i, states[n].done[i]);
      } else {
        assert IsAttempt(states[n - 1], states[n], i, states[n].done[i]);
      }
    }
  }

  lemma {:induction false} FillKeepsDone(first: Scan, states: seq<Scan>, n: nat, known: set<string>, reliable: bool)
    requires IsFill(first, states, n, known, reliable)
    ensures first.done <= states[n].done
  {
    if n > 0 {
      FillPrefix(first, states, n, known, reliable);
      FillKeepsDone(first, states[..n], n - 1, known, reliable);
    }
  }

  /** Each attempt of a run is one step of it, and its success flag tells whether a call failed in that step. */
  lemma AttemptsAreSteps(r: Plan, scans: seq<Scan>, fills: seq<Scan>, reliable: bool, i: nat)
    requires IsRun(r, scans, fills, reliable) && i < |End(fills).done|
    ensures (exists m :: 0 < m < |scans| && IsAttempt(scans[m - 1], scans[m], i, End(fills).done[i]))
         || (exists m :: 0 < m < |fills| && IsAttempt(fills[m - 1], fills[m], i, End(fills).done[i]))
  {
    var mid := scans[|r.listed|];
    FillKeepsDone(mid, fills, |mid.left|, r.known, reliable);
    if i < |mid.done| {
      ScanAttempt(r, scans, |r.listed|, i);
    } else {
      FillAttempt(mid, fills, |mid.left|, r.known, reliable, i);
    }
  }

  /** After a run without failures every wanted project has its robot, exactly if those there at the start had one. */
  lemma RobotsCompleteIff(r: Plan, scans: seq<Scan>, fills: seq<Scan>, reliable: bool)
    requires IsRun(r, scans, fills, reliable) && !Troubled(r.start, End(fills).reg)
    ensures AllHaveRobots(End(fills).reg.projects, r.wanted)
       <==> forall p | p in r.start.projects && p in Names(r.wanted) :: r.start.projects[p].robots > 0
  {
    var now := End(fills).reg.projects;
    RunConverges(r, scans, fills, reliable);
    RunAsksForRobotsOnce(r, scans, fills, reliable);
    if AllHaveRobots(now, r.wanted) {
      forall p | p in r.start.projects && p in Names(r.wanted) ensures r.start.projects[p].robots > 0 {
        var i :| 0 <= i < |r.wanted| && Names(r.wanted)[i] == p;
        assert r.wanted[i] in r.wanted;
      }
    }
    if forall p | p in r.start.projects && p in Names(r.wanted) :: r.start.projects[p].robots > 0 {
      forall w | w in r.wanted ensures ProjectFor(w) in now && now[ProjectFor(w)].robots > 0 {
        NameOfWanted(r.wanted, w);
      }
    }
  }

  ghost predicate AllHaveRobots(projects: map<string, Project>, wanted: seq<Wish>) {
    forall w | w in wanted :: ProjectFor(w) in projects && projects[ProjectFor(w)].robots > 0
  }
}
