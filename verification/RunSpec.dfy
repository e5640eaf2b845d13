/** What a whole reconciliation run keeps, step by step, on values. */
module RunSpec {
  import opened Basics
  import opened HarborSdk
  import opened HarborApi
  import opened Slices
  import opened ReconcileSpec
  import opened SyncOne

  /** One wanted workspace taken up, and whether all its calls succeeded. */
  datatype Attempt = Attempt(wish: Wish, ok: bool)

  function Names(ws: seq<Wish>): (names: seq<string>)
    ensures |names| == |ws|
    ensures forall i | 0 <= i < |ws| :: names[i] == ProjectFor(ws[i])
  {
    seq(|ws|, i requires 0 <= i < |ws| => ProjectFor(ws[i]))
  }

  function WishesOf(attempts: seq<Attempt>): (ws: seq<Wish>)
    ensures |ws| == |attempts|
    ensures forall i | 0 <= i < |ws| :: ws[i] == attempts[i].wish
  {
    seq(|attempts|, i requires 0 <= i < |attempts| => attempts[i].wish)
  }

  // ---- The goals ---------------------------------------------------------------------

  /** The prefixed projects are exactly the wanted ones, each in sync. */
  ghost predicate Mirrors(projects: map<string, Project>, wanted: seq<Wish>, known: set<string>) {
    && (forall p | p in projects && HasPrefix(p) :: p in Names(wanted))
    && (forall w | w in wanted :: Synced(projects, w, known))
  }

  ghost predicate SameUnprefixed(a: map<string, Project>, b: map<string, Project>) {
    && (forall p | p in a && !HasPrefix(p) :: p in b && b[p] == a[p])
    && (forall p | p in b && !HasPrefix(p) :: p in a)
  }

  /** No wanted project is gone, and none lost a wanted member, the administrator or its robot. */
  ghost predicate WantedKept(a: map<string, Project>, b: map<string, Project>, wanted: seq<Wish>, known: set<string>) {
    forall p | p in a && p in Names(wanted) :: p in b && KeptForSome(p, a[p], b[p], wanted, known)
  }

  ghost predicate KeptForSome(name: string, p: Project, q: Project, wanted: seq<Wish>, known: set<string>) {
    exists w :: w in wanted && ProjectFor(w) == name && Kept(p, q, w.users, known)
  }

  /** Projects that were not there are wanted ones, with wanted known members and at most one robot. */
  ghost predicate NewOnesWanted(
      a: map<string, Project>, b: map<string, Project>, wanted: seq<Wish>, known: set<string>)
  {
    forall p | p in b && p !in a :: IsWanted(p, b[p], wanted, known)
  }

  ghost predicate IsWanted(name: string, p: Project, wanted: seq<Wish>, known: set<string>) {
    p.robots <= 1 && exists w :: w in wanted && ProjectFor(w) == name && InvitedOnly(p, w.users, known)
  }

  ghost predicate AllSynced(projects: map<string, Project>, attempts: seq<Attempt>, known: set<string>) {
    forall i | 0 <= i < |attempts| && attempts[i].ok :: Synced(projects, attempts[i].wish, known)
  }

  ghost predicate AllOk(attempts: seq<Attempt>) {
    forall i | 0 <= i < |attempts| :: attempts[i].ok
  }

  /** Nothing to delete, nothing to create, and nobody to add or remove. */
  ghost predicate AllSettled(projects: map<string, Project>, wanted: seq<Wish>) {
    && (forall p | p in projects && HasPrefix(p) :: p in Names(wanted))
    && (forall w | w in wanted :: StartsSettled(projects, w))
    && NoDuplicates(Names(wanted))
  }

  /** In step, with every wanted user known, listed once and not the administrator. */
  lemma MirrorsKnownIsSettled(projects: map<string, Project>, wanted: seq<Wish>, known: set<string>)
    requires Mirrors(projects, wanted, known) && NoDuplicates(Names(wanted))
    requires forall w | w in wanted :: NoDuplicates(w.users) && "admin" !in w.users && Elements(w.users) <= known
    ensures AllSettled(projects, wanted)
  {
    forall w | w in wanted ensures StartsSettled(projects, w) {
      assert forall u | u in w.users :: u in Elements(w.users);
    }
  }

  // ---- Accounting for the wanted list ---------------------------------------------------

  /** Nothing wanted is lost or duplicated: each wish was attempted once or is still to do. */
  ghost predicate Conserved(wanted: seq<Wish>, done: seq<Attempt>, left: seq<Wish>) {
    && multiset(WishesOf(done)) + multiset(left) == multiset(wanted)
    && multiset(Names(WishesOf(done))) + multiset(Names(left)) == multiset(Names(wanted))
  }

  lemma ConservedStep(wanted: seq<Wish>, done: seq<Attempt>, left: seq<Wish>, i: nat, ok: bool)
    requires Conserved(wanted, done, left) && i < |left|
    ensures Conserved(wanted, done + [Attempt(left[i], ok)], Without(left, i))
  {
    assert WishesOf(done + [Attempt(left[i], ok)]) == WishesOf(done) + [left[i]];
    assert Names(WishesOf(done) + [left[i]]) == Names(WishesOf(done)) + [ProjectFor(left[i])];
    WithoutMultiset(left, i);
    assert Names(Without(left, i)) == Without(Names(left), i);
    WithoutMultiset(Names(left), i);
  }

  lemma WantedIsDoneOrLeft(wanted: seq<Wish>, done: seq<Attempt>, left: seq<Wish>, name: string)
    requires Conserved(wanted, done, left)
    ensures name in Names(wanted) <==> name in Names(WishesOf(done)) || name in Names(left)
  {
    assert name in Names(wanted) <==> name in multiset(Names(wanted));
    assert name in Names(WishesOf(done)) <==> name in multiset(Names(WishesOf(done)));
    assert name in Names(left) <==> name in multiset(Names(left));
  }

  lemma LeftIsWanted(wanted: seq<Wish>, done: seq<Attempt>, left: seq<Wish>, w: Wish)
    requires Conserved(wanted, done, left) && w in left
    ensures w in wanted
  {
    assert w in multiset(left);
    assert w in multiset(wanted);
  }

  lemma WantedWishIsDoneOrLeft(wanted: seq<Wish>, done: seq<Attempt>, left: seq<Wish>, w: Wish)
    requires Conserved(wanted, done, left) && w in wanted
    ensures w in WishesOf(done) || w in left
  {
    assert w in multiset(wanted);
    assert w in multiset(WishesOf(done)) || w in multiset(left);
  }

  // ---- The loop over listed projects -------------------------------------------------------

  /** Projects not yet visited are as they were. */
  ghost predicate Unvisited(start: map<string, Project>, now: map<string, Project>, listed: seq<string>, k: nat) {
    && k <= |listed|
    && now.Keys <= start.Keys
    && forall i | k <= i < |listed| :: listed[i] in start && listed[i] in now && now[listed[i]] == start[listed[i]]
  }

  /** The attempts so far took up visited projects, each wanted one once. */
  ghost predicate Visited(listed: seq<string>, k: nat, wanted: seq<Wish>, done: seq<Attempt>) {
    && k <= |listed|
    && (forall i | 0 <= i < |done| :: ProjectFor(done[i].wish) in listed[..k])
    && (forall i | 0 <= i < k && listed[i] in Names(wanted) :: listed[i] in Names(WishesOf(done)))
    && NoDuplicates(Names(WishesOf(done)))
  }

  /** Visited projects that nobody wants are gone, unless something failed. */
  ghost predicate Swept(now: map<string, Project>, listed: seq<string>, k: nat, wanted: seq<Wish>, failed: bool) {
    && k <= |listed|
    && forall i | 0 <= i < k && HasPrefix(listed[i]) && listed[i] !in Names(wanted) && !failed :: listed[i] !in now
  }

  lemma FreshName(listed: seq<string>, k: nat)
    requires NoDuplicates(listed) && k < |listed|
    ensures listed[k] !in listed[..k]
  {
    assert forall i | 0 <= i < k :: listed[..k][i] != listed[k];
  }

  /** An unmatched listed project is not wanted at all. */
  lemma UnmatchedIsUnwanted(
    listed: seq<string>, k: nat, wanted: seq<Wish>, done: seq<Attempt>, left: seq<Wish>)
    requires NoDuplicates(listed) && k < |listed|
    requires Conserved(wanted, done, left) && Visited(listed, k, wanted, done)
    requires listed[k] !in Names(left)
    ensures listed[k] !in Names(wanted)
  {
    FreshName(listed, k);
    WantedIsDoneOrLeft(wanted, done, left, listed[k]);
    forall i | 0 <= i < |done| ensures Names(WishesOf(done))[i] != listed[k] {
      assert ProjectFor(done[i].wish) in listed[..k];
    }
  }

  lemma VisitUnwanted(listed: seq<string>, k: nat, wanted: seq<Wish>, done: seq<Attempt>)
    requires k < |listed| && Visited(listed, k, wanted, done) && listed[k] !in Names(wanted)
    ensures Visited(listed, k + 1, wanted, done)
  {
    forall i | 0 <= i < |done| ensures ProjectFor(done[i].wish) in listed[..k + 1] {
      assert ProjectFor(done[i].wish) in listed[..k];
      assert listed[..k + 1] == listed[..k] + [listed[k]];
    }
  }

  lemma VisitWanted(listed: seq<string>, k: nat, wanted: seq<Wish>, done: seq<Attempt>, w: Wish, ok: bool)
    requires NoDuplicates(listed) && k < |listed| && Visited(listed, k, wanted, done) && ProjectFor(w) == listed[k]
    ensures Visited(listed, k + 1, wanted, done + [Attempt(w, ok)])
  {
    FreshName(listed, k);
    var more := done + [Attempt(w, ok)];
    assert listed[..k + 1] == listed[..k] + [listed[k]];
    assert Names(WishesOf(more)) == Names(WishesOf(done)) + [listed[k]];
    forall i | 0 <= i < |done| ensures Names(WishesOf(more))[i] != listed[k] {
      assert ProjectFor(done[i].wish) in listed[..k];
    }
    forall i | 0 <= i < k + 1 && listed[i] in Names(wanted) ensures listed[i] in Names(WishesOf(more)) {
      if i == k { assert Names(WishesOf(more))[|done|] == listed[k]; }
    }
  }

  /** Changing only project `name` leaves the attempts on other projects in sync. */
  lemma OthersStaySynced(
      a: map<string, Project>, b: map<string, Project>, name: string, done: seq<Attempt>, known: set<string>)
    requires SameOthers(a, b, name) && AllSynced(a, done, known)
    requires forall i | 0 <= i < |done| :: ProjectFor(done[i].wish) != name
    ensures AllSynced(b, done, known)
  {
    forall i | 0 <= i < |done| && done[i].ok ensures Synced(b, done[i].wish, known) {
      OthersSame(a, b, name, ProjectFor(done[i].wish));
    }
  }

  lemma StepUnvisited(
    start: map<string, Project>, a: map<string, Project>, b: map<string, Project>, listed: seq<string>, k: nat)
    requires NoDuplicates(listed) && k < |listed| && Unvisited(start, a, listed, k)
    requires SameOthers(a, b, listed[k])
    ensures Unvisited(start, b, listed, k + 1)
  {
    forall i | k + 1 <= i < |listed|
      ensures listed[i] in b && b[listed[i]] == start[listed[i]]
    {
      OthersSame(a, b, listed[k], listed[i]);
    }
    forall p | p in b ensures p in start {
      if p != listed[k] { OthersSame(a, b, listed[k], p); }
    }
  }

  lemma StepUnprefixed(start: map<string, Project>, a: map<string, Project>, b: map<string, Project>, name: string)
    requires SameUnprefixed(start, a) && SameOthers(a, b, name) && HasPrefix(name)
    ensures SameUnprefixed(start, b)
  {
    forall p | p in start && !HasPrefix(p) ensures p in b && b[p] == start[p] {
      OthersSame(a, b, name, p);
    }
    forall p | p in b && !HasPrefix(p) ensures p in start {
      OthersSame(a, b, name, p);
    }
  }

  lemma StepWantedKept(
    start: map<string, Project>, a: map<string, Project>, b: map<string, Project>, name: string,
    wanted: seq<Wish>, known: set<string>)
    requires WantedKept(start, a, wanted, known) && SameOthers(a, b, name)
    requires name in start && name in Names(wanted) ==>
               name in b && KeptForSome(name, start[name], b[name], wanted, known)
    ensures WantedKept(start, b, wanted, known)
  {
    forall p | p in start && p in Names(wanted) ensures p in b && KeptForSome(p, start[p], b[p], wanted, known) {
      if p != name { OthersSame(a, b, name, p); }
    }
  }

  lemma StepSwept(
      a: map<string, Project>, b: map<string, Project>, listed: seq<string>, k: nat, wanted: seq<Wish>,
      before: bool, after: bool)
    requires NoDuplicates(listed) && k < |listed| && Swept(a, listed, k, wanted, before) && SameOthers(a, b, listed[k])
    requires before ==> after
    requires HasPrefix(listed[k]) && listed[k] !in Names(wanted) && !after ==> listed[k] !in b
    ensures Swept(b, listed, k + 1, wanted, after)
  {
    forall i | 0 <= i < k + 1 && HasPrefix(listed[i]) && listed[i] !in Names(wanted) && !after ensures listed[i] !in b {
      if i < k {
        assert listed[i] != listed[k];
        OthersSame(a, b, listed[k], listed[i]);
      }
    }
  }

  /** Before the first step nothing has been lost. */
  lemma WantedKeptInitially(start: map<string, Project>, wanted: seq<Wish>, known: set<string>)
    ensures WantedKept(start, start, wanted, known)
  {
    forall p | p in start && p in Names(wanted) ensures KeptForSome(p, start[p], start[p], wanted, known) {
      var i :| 0 <= i < |wanted| && Names(wanted)[i] == p;
      assert wanted[i] in wanted && Kept(start[p], start[p], wanted[i].users, known);
    }
  }

  // ---- One listed project after another ----------------------------------------------------

  /** What a run starts from: the registry, the order its projects are listed in, and what is wanted. */
  datatype Plan = Plan(start: Registry, listed: seq<string>, wanted: seq<Wish>, known: set<string>) {
    ghost predicate Valid() {
      NoDuplicates(listed) && Elements(listed) == start.projects.Keys
    }
  }

  /** Between two listed projects: the registry, what was taken up, and what is left of the wanted list. */
  datatype Scan = Scan(reg: Registry, done: seq<Attempt>, left: seq<Wish>)

  ghost predicate Troubled(a: Registry, b: Registry) {
    b.failures > a.failures
  }

  ghost predicate Grows(a: Registry, b: Registry) {
    b.failures >= a.failures && b.changes >= a.changes
  }

  ghost predicate Discards(a: Scan, b: Scan, p: string) {
    && HasPrefix(p) && p !in Names(a.left)
    && b.done == a.done && b.left == a.left
    && SameOthers(a.reg.projects, b.reg.projects, p)
    && (Troubled(a.reg, b.reg) || p !in b.reg.projects)
    && b.reg.changes > a.reg.changes && b.reg.failures >= a.reg.failures
    && b.reg.attempts == a.reg.attempts && b.reg.deletions == a.reg.deletions + {p}
    && b.reg.creations == a.reg.creations && b.reg.robots == a.reg.robots
  }

  ghost predicate Matches(a: Scan, b: Scan, p: string, known: set<string>, i: nat) {
    && i < |a.left| && ProjectFor(a.left[i]) == p
    && b.done == a.done + [Attempt(a.left[i], !Troubled(a.reg, b.reg))] && b.left == Without(a.left, i)
    && SyncOutcome(a.reg.projects, b.reg.projects, a.left[i], known, !Troubled(a.reg, b.reg))
    && (StartsSettled(a.reg.projects, a.left[i]) ==> b.reg.changes == a.reg.changes)
    && (!Troubled(a.reg, b.reg) && b.reg.changes == a.reg.changes ==> StartsSettled(a.reg.projects, a.left[i]))
    && Grows(a.reg, b.reg)
    && b.reg.attempts == a.reg.attempts + multiset{p}
    && b.reg.deletions == a.reg.deletions
    && b.reg.creations == a.reg.creations && b.reg.robots == a.reg.robots
  }

  /** What the loop body may do with one listed project. */
  ghost predicate Next(a: Scan, b: Scan, p: string, known: set<string>) {
    || (!HasPrefix(p) && b == a)
    || Discards(a, b, p)
    || exists i: nat :: Matches(a, b, p, known, i)
  }

  /** The states between the first `k` listed projects. */
  ghost predicate IsScan(r: Plan, states: seq<Scan>, k: nat) {
    && |states| == k + 1 && k <= |r.listed|
    && states[0] == Scan(r.start, [], r.wanted)
    && forall i | 0 < i <= k :: Next(states[i - 1], states[i], r.listed[i - 1], r.known)
  }

  /** `k` listed projects have been visited. */
  ghost predicate Reached(r: Plan, k: nat, s: Scan) {
    && Conserved(r.wanted, s.done, s.left)
    && AllSynced(s.reg.projects, s.done, r.known)
    && SameUnprefixed(r.start.projects, s.reg.projects)
    && Unvisited(r.start.projects, s.reg.projects, r.listed, k)
    && Visited(r.listed, k, r.wanted, s.done)
    && Swept(s.reg.projects, r.listed, k, r.wanted, Troubled(r.start, s.reg))
    && WantedKept(r.start.projects, s.reg.projects, r.wanted, r.known)
    && Grows(r.start, s.reg)
    && (!Troubled(r.start, s.reg) ==> AllOk(s.done))
  }

  lemma ReachedInitially(r: Plan)
    requires r.Valid()
    ensures Reached(r, 0, Scan(r.start, [], r.wanted))
  {
    WantedKeptInitially(r.start.projects, r.wanted, r.known);
    assert forall i | 0 <= i < |r.listed| :: r.listed[i] in Elements(r.listed);
  }

  lemma WantedHasPrefix(wanted: seq<Wish>, name: string)
    requires name in Names(wanted)
    ensures HasPrefix(name)
  {
    var i :| 0 <= i < |wanted| && Names(wanted)[i] == name;
    ProjectForHasPrefix(wanted[i]);
  }

  lemma NameOfWanted(wanted: seq<Wish>, w: Wish)
    requires w in wanted
    ensures ProjectFor(w) in Names(wanted)
  {
    var i :| 0 <= i < |wanted| && wanted[i] == w;
    assert Names(wanted)[i] == ProjectFor(w);
  }

  lemma PassByReaches(r: Plan, k: nat, s: Scan)
    requires Reached(r, k, s) && k < |r.listed| && !HasPrefix(r.listed[k])
    ensures Reached(r, k + 1, s)
  {
    if r.listed[k] in Names(r.wanted) { WantedHasPrefix(r.wanted, r.listed[k]); }
    VisitUnwanted(r.listed, k, r.wanted, s.done);
  }

  lemma OthersWereDone(r: Plan, k: nat, done: seq<Attempt>)
    requires r.Valid() && k < |r.listed| && Visited(r.listed, k, r.wanted, done)
    ensures forall i | 0 <= i < |done| :: ProjectFor(done[i].wish) != r.listed[k]
  {
    FreshName(r.listed, k);
    forall i | 0 <= i < |done| ensures ProjectFor(done[i].wish) != r.listed[k] {
      assert ProjectFor(done[i].wish) in r.listed[..k];
    }
  }

  lemma DiscardReaches(r: Plan, k: nat, a: Scan, b: Scan)
    requires r.Valid() && Reached(r, k, a) && k < |r.listed| && Discards(a, b, r.listed[k])
    ensures r.listed[k] !in Names(r.wanted)
    ensures Reached(r, k + 1, b)
  {
    var now, after, p := a.reg.projects, b.reg.projects, r.listed[k];
    UnmatchedIsUnwanted(r.listed, k, r.wanted, a.done, a.left);
    VisitUnwanted(r.listed, k, r.wanted, a.done);
    OthersWereDone(r, k, a.done);
    OthersStaySynced(now, after, p, a.done, r.known);
    StepUnvisited(r.start.projects, now, after, r.listed, k);
    StepUnprefixed(r.start.projects, now, after, p);
    StepWantedKept(r.start.projects, now, after, p, r.wanted, r.known);
    StepSwept(now, after, r.listed, k, r.wanted, Troubled(r.start, a.reg), Troubled(r.start, b.reg));
  }

  lemma MatchReaches(r: Plan, k: nat, a: Scan, b: Scan, i: nat)
    requires r.Valid() && Reached(r, k, a) && k < |r.listed| && Matches(a, b, r.listed[k], r.known, i)
    ensures r.listed[k] in Names(r.wanted) && a.left[i] in r.wanted
    ensures Reached(r, k + 1, b)
  {
    var now, after, p, ok := a.reg.projects, b.reg.projects, r.listed[k], !Troubled(a.reg, b.reg);
    var w := a.left[i];
    LeftIsWanted(r.wanted, a.done, a.left, w);
    NameOfWanted(r.wanted, w);
    ProjectForHasPrefix(w);
    ConservedStep(r.wanted, a.done, a.left, i, ok);
    VisitWanted(r.listed, k, r.wanted, a.done, w, ok);
    OthersWereDone(r, k, a.done);
    OthersStaySynced(now, after, p, a.done, r.known);
    StepUnvisited(r.start.projects, now, after, r.listed, k);
    StepUnprefixed(r.start.projects, now, after, p);
    assert KeptForSome(p, r.start.projects[p], after[p], r.wanted, r.known);
    StepWantedKept(r.start.projects, now, after, p, r.wanted, r.known);
    StepSwept(now, after, r.listed, k, r.wanted, Troubled(r.start, a.reg), Troubled(r.start, b.reg));
  }

  lemma NextReaches(r: Plan, k: nat, a: Scan, b: Scan)
    requires r.Valid() && Reached(r, k, a) && k < |r.listed| && Next(a, b, r.listed[k], r.known)
    ensures Reached(r, k + 1, b)
  {
    if !HasPrefix(r.listed[k]) && b == a {
      PassByReaches(r, k, a);
    } else if Discards(a, b, r.listed[k]) {
      DiscardReaches(r, k, a, b);
    } else {
      var i: nat :| Matches(a, b, r.listed[k], r.known, i);
      MatchReaches(r, k, a, b, i);
    }
  }

  lemma ScanPrefix(r: Plan, states: seq<Scan>, k: nat)
    requires IsScan(r, states, k) && k > 0
    ensures IsScan(r, states[..k], k - 1) && Next(states[k - 1], states[k], r.listed[k - 1], r.known)
  {
  }

  lemma {:induction false} ScanReaches(r: Plan, states: seq<Scan>, k: nat)
    requires r.Valid() && IsScan(r, states, k)
    ensures Reached(r, k, states[k])
  {
    if k == 0 {
      ReachedInitially(r);
    } else {
      ScanPrefix(r, states, k);
      ScanReaches(r, states[..k], k - 1);
      NextReaches(r, k - 1, states[k - 1], states[k]);
    }
  }

  // ---- What has been asked of the registry -----------------------------------------------------

  /** A deletion request names a prefixed project that nobody wants. */
  ghost predicate OnlyUnwanted(before: set<string>, after: set<string>, wanted: seq<Wish>) {
    before <= after && forall p | p in after && p !in before :: HasPrefix(p) && p !in Names(wanted)
  }

  /** Each attempt is one request; deletions are of unwanted projects; no robot was asked for. */
  ghost predicate Tallied(r: Plan, s: Scan) {
    && s.reg.attempts == r.start.attempts + multiset(Names(WishesOf(s.done)))
    && OnlyUnwanted(r.start.deletions, s.reg.deletions, r.wanted)
    && s.reg.creations == r.start.creations && s.reg.robots == r.start.robots
  }

  /** What a run that starts in step or settled keeps, and what an unchanged registry tells. */
  ghost predicate Quiet(r: Plan, k: nat, s: Scan) {
    && k <= |r.listed|
    && (Mirrors(r.start.projects, r.wanted, r.known) ==> s.reg.projects == r.start.projects)
    && (AllSettled(r.start.projects, r.wanted) ==> s.reg.changes == r.start.changes)
    && (!Troubled(r.start, s.reg) && s.reg.changes == r.start.changes ==> Untouched(r, k, s))
  }

  ghost predicate Untouched(r: Plan, k: nat, s: Scan) {
    && k <= |r.listed|
    && (forall i | 0 <= i < |s.done| :: StartsSettled(r.start.projects, s.done[i].wish))
    && (forall i | 0 <= i < k && HasPrefix(r.listed[i]) :: r.listed[i] in Names(r.wanted))
  }

  lemma AsStarted(r: Plan, k: nat, s: Scan, w: Wish)
    requires Reached(r, k, s) && k < |r.listed| && ProjectFor(w) == r.listed[k]
    ensures StartsSettled(s.reg.projects, w) <==> StartsSettled(r.start.projects, w)
  {
  }

  lemma DiscardStaysQuiet(r: Plan, k: nat, a: Scan, b: Scan)
    requires r.Valid() && Reached(r, k, a) && k < |r.listed| && Discards(a, b, r.listed[k])
    requires Tallied(r, a) && Quiet(r, k, a)
    ensures Tallied(r, b) && Quiet(r, k + 1, b)
  {
    DiscardReaches(r, k, a, b);
    assert r.listed[k] in r.start.projects;
  }

  lemma MatchStaysTallied(r: Plan, k: nat, a: Scan, b: Scan, i: nat)
    requires k < |r.listed| && Matches(a, b, r.listed[k], r.known, i) && Tallied(r, a)
    ensures Tallied(r, b)
  {
    assert Names(WishesOf(b.done)) == Names(WishesOf(a.done)) + [r.listed[k]];
  }

  lemma MatchStaysQuiet(r: Plan, k: nat, a: Scan, b: Scan, i: nat)
    requires k < |r.listed| && Matches(a, b, r.listed[k], r.known, i) && Quiet(r, k, a)
    requires StartsSettled(a.reg.projects, a.left[i]) <==> StartsSettled(r.start.projects, a.left[i])
    requires Grows(r.start, a.reg) && r.listed[k] in Names(r.wanted) && a.left[i] in r.wanted
    ensures Quiet(r, k + 1, b)
  {
  }

  lemma NextStaysQuiet(r: Plan, k: nat, a: Scan, b: Scan)
    requires r.Valid() && Reached(r, k, a) && k < |r.listed| && Next(a, b, r.listed[k], r.known)
    requires Tallied(r, a) && Quiet(r, k, a)
    ensures Tallied(r, b) && Quiet(r, k + 1, b)
  {
    if !HasPrefix(r.listed[k]) && b == a {
    } else if Discards(a, b, r.listed[k]) {
      DiscardStaysQuiet(r, k, a, b);
    } else {
      var i: nat :| Matches(a, b, r.listed[k], r.known, i);
      MatchReaches(r, k, a, b, i);
      AsStarted(r, k, a, a.left[i]);
      MatchStaysTallied(r, k, a, b, i);
      MatchStaysQuiet(r, k, a, b, i);
    }
  }

  lemma {:induction false} ScanStaysQuiet(r: Plan, states: seq<Scan>, k: nat)
    requires r.Valid() && IsScan(r, states, k)
    ensures Tallied(r, states[k]) && Quiet(r, k, states[k])
  {
    if k > 0 {
      ScanPrefix(r, states, k);
      ScanStaysQuiet(r, states[..k], k - 1);
      ScanReaches(r, states[..k], k - 1);
      NextStaysQuiet(r, k - 1, states[k - 1], states[k]);
    }
  }

  /** The next project to visit is still there. */
  lemma NextIsThere(r: Plan, states: seq<Scan>, k: nat)
    requires r.Valid() && IsScan(r, states, k) && k < |r.listed|
    ensures r.listed[k] in states[k].reg.projects
  {
    ScanReaches(r, states, k);
  }
}
