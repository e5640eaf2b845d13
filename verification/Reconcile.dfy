/** The reconciliation run: diff the listed projects against the wanted ones in place, then create the rest. */
module Reconcile {
  import opened Basics
  import opened HarborSdk
  import opened HarborApi
  import opened Slices
  import opened ReconcileSpec
  import opened SyncOne
  import opened RunSpec
  import opened FillSpec
  import opened Isolation

  // ---- The wanted list as decoded ------------------------------------------------------

  ghost function Arrays(ws: seq<WorkspaceSpec>): set<object> {
    set i | 0 <= i < |ws| :: ws[i].users.arr
  }

  ghost predicate NoSharing(ws: seq<WorkspaceSpec>) {
    forall i, j | 0 <= i < j < |ws| :: ws[i].users.arr != ws[j].users.arr
  }

  ghost predicate Denote(ws: seq<WorkspaceSpec>, wishes: seq<Wish>)
    reads Arrays(ws)
  {
    && |ws| == |wishes|
    && forall i | 0 <= i < |ws| :: ws[i].Valid() && ws[i].Value() == wishes[i]
  }

  /** The slice holds `wishes`, and no two of its workspaces share a user array. */
  ghost predicate Holds(want: Slice<WorkspaceSpec>, wishes: seq<Wish>)
    reads want.arr, if want.Valid() then Arrays(want.Elems()) else {}
  {
    want.Valid() && NoSharing(want.Elems()) && Denote(want.Elems(), wishes)
  }

  /** slices.IndexFunc: the first wanted workspace whose project is `p`, or -1. */
  method IndexOfProject(want: Slice<WorkspaceSpec>, p: string, ghost wishes: seq<Wish>) returns (ind: int)
    requires Holds(want, wishes)
    ensures -1 <= ind < want.len
    ensures ind >= 0 ==> ProjectFor(wishes[ind]) == p && p !in Names(wishes)[..ind]
    ensures ind == -1 ==> p !in Names(wishes)
  {
    for k := 0 to want.len
      invariant p !in Names(wishes)[..k]
    {
      assert want.arr[k] == want.Elems()[k];
      if "ws-" + want.arr[k].idHash == p {
        return k;
      }
      assert Names(wishes)[..k + 1] == Names(wishes)[..k] + [Names(wishes)[k]];
    }
    assert Names(wishes)[..want.len] == Names(wishes);
    return -1;
  }

  lemma WithoutHolds(ws: seq<WorkspaceSpec>, i: nat, wishes: seq<Wish>)
    requires i < |ws| && NoSharing(ws) && Denote(ws, wishes)
    ensures NoSharing(Without(ws, i)) && Denote(Without(ws, i), Without(wishes, i))
    ensures Arrays(Without(ws, i)) <= Arrays(ws)
  {
    var rest := Without(ws, i);
    forall j | 0 <= j < |rest| ensures rest[j] == ws[if j < i then j else j + 1] {}
  }

  method DropAt(want: Slice<WorkspaceSpec>, i: nat, ghost wishes: seq<Wish>) returns (rest: Slice<WorkspaceSpec>)
    requires Holds(want, wishes) && i < want.len
    modifies want.arr
    ensures Holds(rest, Without(wishes, i)) && rest.arr == want.arr
    ensures Arrays(rest.Elems()) <= old(Arrays(want.Elems()))
  {
    var none := new string[0];
    ghost var ws := want.Elems();
    WithoutHolds(ws, i, wishes);
    rest := DeleteAt(want, i, WorkspaceSpec("", Slice(none, 0)));
  }

  /** Syncing one wanted workspace may use up its user array, and no other. */
  method TakeUp(h: Harbor, want: Slice<WorkspaceSpec>, i: nat, ghost wishes: seq<Wish>)
    returns (ok: bool, rest: Slice<WorkspaceSpec>)
    requires h.Valid() && Holds(want, wishes) && i < want.len
    modifies h`failures, h`changes, h`attempts, h`projects, h`nextID, want.arr, Arrays(want.Elems())
    ensures h.Valid() && Holds(rest, Without(wishes, i)) && rest.arr == want.arr
    ensures Arrays(rest.Elems()) <= old(Arrays(want.Elems()))
    ensures SyncOutcome(old(h.projects), h.projects, wishes[i], h.known, ok)
    ensures h.attempts == old(h.attempts) + multiset{ProjectFor(wishes[i])}
    ensures h.failures == old(h.failures) + Failure(ok)
    ensures h.changes >= old(h.changes)
    ensures StartsSettled(old(h.projects), wishes[i]) ==> h.changes == old(h.changes)
    ensures ok && h.changes == old(h.changes) ==> StartsSettled(old(h.projects), wishes[i])
    ensures h.reliable && ProjectFor(wishes[i]) in old(h.projects) ==> ok
  {
    assert want.arr[i] == want.Elems()[i];
    ghost var specs := want.Elems();
    var w := want.arr[i];
    ok := SyncWorkspace(h, w);
    assert want.Elems() == specs;
    ghost var now := wishes[i := w.Value()];
    assert Denote(want.Elems(), now);
    rest := DropAt(want, i, now);
    assert Without(now, i) == Without(wishes, i);
  }

  // ---- The listed projects -------------------------------------------------------------------

  method DiscardProject(h: Harbor, p: string, ghost a: Scan) returns (ok: bool, ghost b: Scan)
    requires h.Valid() && a.reg == State(h) && HasPrefix(p) && p !in Names(a.left)
    modifies h`failures, h`changes, h`deletions, h`removals, h`projects
    ensures h.Valid() && b.reg == State(h) && b.left == a.left && Discards(a, b, p)
    ensures h.failures == old(h.failures) + Failure(ok)
    ensures h.reliable && p in old(h.projects) ==> ok
  {
    ok := DeleteOldProject(h, p);
    b := Scan(State(h), a.done, a.left);
  }

  method MatchProject(h: Harbor, p: string, want: Slice<WorkspaceSpec>, i: nat, ghost a: Scan)
    returns (ok: bool, rest: Slice<WorkspaceSpec>, ghost b: Scan)
    requires h.Valid() && a.reg == State(h) && Holds(want, a.left) && i < want.len && ProjectFor(a.left[i]) == p
    modifies h`failures, h`changes, h`attempts, h`projects, h`nextID, want.arr, Arrays(want.Elems())
    ensures h.Valid() && b.reg == State(h) && Matches(a, b, p, h.known, i)
    ensures Holds(rest, b.left) && rest.arr == want.arr && Arrays(rest.Elems()) <= old(Arrays(want.Elems()))
    ensures h.failures == old(h.failures) + Failure(ok)
    ensures h.reliable && p in old(h.projects) ==> ok
  {
    ok, rest := TakeUp(h, want, i, a.left);
    b := Scan(State(h), a.done + [Attempt(a.left[i], ok)], Without(a.left, i));
  }

  /** One listed project: passed by, deleted, or synced and dropped from the wanted slice. */
  method VisitProject(h: Harbor, p: string, want: Slice<WorkspaceSpec>, ghost a: Scan)
    returns (ok: bool, rest: Slice<WorkspaceSpec>, ghost b: Scan)
    requires h.Valid() && a.reg == State(h) && Holds(want, a.left)
    modifies h`failures, h`changes, h`attempts, h`deletions, h`removals, h`projects, h`nextID
    modifies want.arr, Arrays(want.Elems())
    ensures h.Valid() && b.reg == State(h) && Next(a, b, p, h.known)
    ensures Holds(rest, b.left) && rest.arr == want.arr && Arrays(rest.Elems()) <= old(Arrays(want.Elems()))
    ensures h.failures == old(h.failures) + Failure(ok)
    ensures h.reliable && p in old(h.projects) ==> ok
  {
    if !("ws-" <= p) {
      return true, want, a;
    }
    var ind := IndexOfProject(want, p, a.left);
    if ind == -1 {
      rest := want;
      ok, b := DiscardProject(h, p, a);
      return;
    }
    ok, rest, b := MatchProject(h, p, want, ind, a);
  }

  lemma ScanSnoc(r: Plan, states: seq<Scan>, k: nat, b: Scan)
    requires IsScan(r, states, k) && k < |r.listed| && Next(states[k], b, r.listed[k], r.known)
    ensures IsScan(r, states + [b], k + 1)
  {
  }

  /** The `k`-th listed project, which is still there. */
  method VisitNext(
      h: Harbor, p: string, want: Slice<WorkspaceSpec>, ghost r: Plan, ghost states: seq<Scan>, ghost k: nat)
    returns (ok: bool, rest: Slice<WorkspaceSpec>, ghost b: Scan)
    requires r.Valid() && IsScan(r, states, k) && k < |r.listed| && p == r.listed[k]
    requires h.Valid() && h.known == r.known && states[k].reg == State(h) && Holds(want, states[k].left)
    modifies h`failures, h`changes, h`attempts, h`deletions, h`removals, h`projects, h`nextID
    modifies want.arr, Arrays(want.Elems())
    ensures h.Valid() && b.reg == State(h) && IsScan(r, states + [b], k + 1)
    ensures Holds(rest, b.left) && rest.arr == want.arr && Arrays(rest.Elems()) <= old(Arrays(want.Elems()))
    ensures h.failures == old(h.failures) + Failure(ok)
    ensures h.reliable ==> ok
  {
    NextIsThere(r, states, k);
    ok, rest, b := VisitProject(h, p, want, states[k]);
    ScanSnoc(r, states, k, b);
  }

  /** The loop over the listed projects. */
  method SyncListed(h: Harbor, want: Slice<WorkspaceSpec>, ghost r: Plan, projects: seq<string>)
    returns (ok: bool, rest: Slice<WorkspaceSpec>, ghost states: seq<Scan>)
    requires h.Valid() && h.known == r.known && r.start == State(h) && Holds(want, r.wanted)
    requires r.Valid() && projects == r.listed
    modifies h`failures, h`changes, h`attempts, h`deletions, h`removals, h`projects, h`nextID
    modifies want.arr, Arrays(want.Elems())
    ensures h.Valid() && IsScan(r, states, |projects|) && states[|projects|].reg == State(h)
    ensures Holds(rest, states[|projects|].left)
    ensures rest.arr == want.arr && Arrays(rest.Elems()) <= old(Arrays(want.Elems()))
    ensures h.failures >= old(h.failures) && (ok <==> h.failures == old(h.failures))
    ensures h.reliable ==> ok
  {
    ok, rest, states := true, want, [Scan(r.start, [], r.wanted)];
    for k := 0 to |projects|
      invariant h.Valid() && IsScan(r, states, k) && states[k].reg == State(h)
      invariant Holds(rest, states[k].left)
      invariant rest.arr == want.arr && Arrays(rest.Elems()) <= old(Arrays(want.Elems()))
      invariant h.failures >= old(h.failures) && (ok <==> h.failures == old(h.failures))
      invariant h.reliable ==> ok
    {
      var visited: bool;
      ghost var b;
      visited, rest, b := VisitNext(h, projects[k], rest, r, states, k);
      states := states + [b];
      ok := ok && visited;
    }
  }

  // ---- The remaining wanted workspaces ---------------------------------------------------------

  method CreateNext(h: Harbor, w: WorkspaceSpec, ghost a: Scan) returns (ok: bool, ghost b: Scan)
    requires h.Valid() && w.Valid() && a.reg == State(h) && a.left != [] && w.Value() == a.left[0]
    modifies h`failures, h`changes, h`attempts, h`creations, h`robots, h`projects, h`nextID
    ensures h.Valid() && b.reg == State(h) && Creates(a, b, h.known, h.reliable)
    ensures h.failures == old(h.failures) + Failure(ok)
  {
    ok := CreateWorkspace(h, w);
    b := Scan(State(h), a.done + [Attempt(a.left[0], ok)], a.left[1..]);
  }

  /** The loop over what is left. */
  method CreateRemaining(h: Harbor, want: Slice<WorkspaceSpec>, ghost first: Scan)
    returns (ok: bool, ghost states: seq<Scan>)
    requires h.Valid() && first.reg == State(h) && Holds(want, first.left)
    modifies h`failures, h`changes, h`attempts, h`creations, h`robots, h`projects, h`nextID
    ensures h.Valid() && IsFill(first, states, |first.left|, h.known, h.reliable)
    ensures End(states).reg == State(h)
    ensures h.failures >= old(h.failures) && (ok <==> h.failures == old(h.failures))
  {
    ok, states := true, [first];
    for n := 0 to want.len
      invariant h.Valid() && IsFill(first, states, n, h.known, h.reliable)
      invariant states[n].reg == State(h) && states[n].left == first.left[n..]
      invariant h.failures >= old(h.failures) && (ok <==> h.failures == old(h.failures))
    {
      assert want.arr[n] == want.Elems()[n];
      var created: bool;
      ghost var b;
      created, b := CreateNext(h, want.arr[n], states[n]);
      FillSnoc(first, states, n, h.known, h.reliable, b);
      states := states + [b];
      ok := ok && created;
    }
  }

  // ---- runSync ------------------------------------------------------------------------------------

  /** What a run over `wanted` may do to the registry. */
  ghost predicate RunOutcome(
    before: Registry, after: Registry, wanted: seq<Wish>, known: set<string>, reliable: bool, done: seq<Attempt>)
  {
    && (!Troubled(before, after) ==> Mirrors(after.projects, wanted, known))
    && SameUnprefixed(before.projects, after.projects)
    && multiset(WishesOf(done)) == multiset(wanted)
    && after.attempts == before.attempts + multiset(Names(wanted))
    && AllSynced(after.projects, done, known)
    && WantedKept(before.projects, after.projects, wanted, known)
    && NewOnesWanted(before.projects, after.projects, wanted, known)
    && OnlyUnwanted(before.deletions, after.deletions, wanted)
    && AsksForUnwanted(before, after, wanted)
    && OwnRobots(before.projects, after, done)
    && (reliable ==> (Troubled(before, after) <==> !NoDuplicates(Names(wanted))))
  }

  /** Calls that may change the registry, and robots. */
  ghost predicate RunEffort(before: Registry, after: Registry, wanted: seq<Wish>, known: set<string>) {
    && (Mirrors(before.projects, wanted, known) ==> after.projects == before.projects)
    && (AllSettled(before.projects, wanted) ==> after.changes == before.changes)
    && (!Troubled(before, after) && after.changes == before.changes ==> AllSettled(before.projects, wanted))
    && RobotsOnce(before.projects, before, after)
    && (!Troubled(before, after) ==> NewOnesReady(before.projects, after))
    && (forall p | p in before.projects && p in Names(wanted) ::
          p in after.projects && after.projects[p].robots == before.projects[p].robots)
  }

  // In plain terms: projects are called "ws-" and the name of a workspace.

  /** Every project that is none of a workspace stays as it is, and none appears. */
  ghost predicate LeavesOthers(before: map<string, Project>, after: map<string, Project>) {
    forall p | (forall h :: p != "ws-" + h) ::
      (p in after <==> p in before) && (p in before ==> after[p] == before[p])
  }

  /** A project for each wanted workspace and for no other, with its users as far as they are known. */
  ghost predicate ShowsWanted(after: map<string, Project>, wanted: seq<Wish>, known: set<string>) {
    && (forall h :: "ws-" + h in after <==> exists w :: w in wanted && w.idHash == h)
    && (forall w | w in wanted :: "ws-" + w.idHash in after && HasMembers(after["ws-" + w.idHash], w.users, known))
  }

  ghost predicate HasMembers(p: Project, users: seq<string>, known: set<string>) {
    && (forall m | m in p.members :: m == "admin" || m in users)
    && (forall u | u in users && u in known :: u in p.members)
  }

  /** A wanted project that was there stays, with its administrator, its robots, and the members all its wishes name. */
  ghost predicate KeepsWanted(before: map<string, Project>, after: map<string, Project>, wanted: seq<Wish>) {
    forall w | w in wanted && "ws-" + w.idHash in before :: StaysFor(before, after, "ws-" + w.idHash, wanted)
  }

  ghost predicate StaysFor(before: map<string, Project>, after: map<string, Project>, p: string, wanted: seq<Wish>)
    requires p in before
  {
    && p in after && after[p].robots == before[p].robots
    && forall m | m in before[p].members
                  && (m == "admin" || forall w | w in wanted && "ws-" + w.idHash == p :: m in w.users) ::
         m in after[p].members && after[p].members[m] == before[p].members[m]
  }

  lemma UnprefixedAreOthers(before: map<string, Project>, after: map<string, Project>)
    requires SameUnprefixed(before, after)
    ensures LeavesOthers(before, after)
  {
    forall p | forall h :: p != "ws-" + h
      ensures (p in after <==> p in before) && (p in before ==> after[p] == before[p])
    {
      HasPrefixIff(p);
    }
  }

  lemma MirrorShowsWanted(after: map<string, Project>, wanted: seq<Wish>, known: set<string>)
    requires Mirrors(after, wanted, known)
    ensures ShowsWanted(after, wanted, known)
  {
    forall w | w in wanted ensures "ws-" + w.idHash in after && HasMembers(after["ws-" + w.idHash], w.users, known) {
      assert ProjectFor(w) == "ws-" + w.idHash;
    }
    forall h ensures "ws-" + h in after <==> exists w :: w in wanted && w.idHash == h {
      if "ws-" + h in after {
        HasPrefixIff("ws-" + h);
        assert "ws-" + h in Names(wanted);
        var i :| 0 <= i < |wanted| && Names(wanted)[i] == "ws-" + h;
        assert ProjectFor(wanted[i])[3..] == wanted[i].idHash && ("ws-" + h)[3..] == h;
        assert wanted[i] in wanted;
      }
    }
  }

  lemma WantedKeptStays(
    before: map<string, Project>, after: map<string, Project>, wanted: seq<Wish>, known: set<string>)
    requires WantedKept(before, after, wanted, known)
    ensures KeepsWanted(before, after, wanted)
  {
    forall w | w in wanted && "ws-" + w.idHash in before ensures StaysFor(before, after, "ws-" + w.idHash, wanted) {
      var p := "ws-" + w.idHash;
      assert ProjectFor(w) == p;
      NameOfWanted(wanted, w);
      assert KeptForSome(p, before[p], after[p], wanted, known);
      var v :| v in wanted && ProjectFor(v) == p && Kept(before[p], after[p], v.users, known);
      assert "ws-" + v.idHash == p;
    }
  }

  lemma RunAchieves(r: Plan, scans: seq<Scan>, fills: seq<Scan>, reliable: bool)
    requires IsRun(r, scans, fills, reliable)
    ensures RunOutcome(r.start, End(fills).reg, r.wanted, r.known, reliable, End(fills).done)
    ensures RunEffort(r.start, End(fills).reg, r.wanted, r.known)
  {
    RunConverges(r, scans, fills, reliable);
    RunIsolatesFaults(r, scans, fills, reliable);
    RunAsksForUnwanted(r, scans, fills, reliable);
    CreatedHaveRobots(r, scans, fills, reliable);
    if reliable { ReliableRunFailsIffNamesClash(r, scans, fills); }
    RunAsksForRobotsOnce(r, scans, fills, reliable);
    if Mirrors(r.start.projects, r.wanted, r.known) { RunIsIdempotent(r, scans, fills, reliable); }
    if AllSettled(r.start.projects, r.wanted) { SettledRunIsSilent(r, scans, fills, reliable); }
    if !Troubled(r.start, End(fills).reg) { RunIsSilentIffSettled(r, scans, fills, reliable); }
  }

  lemma PlainOutcome(
    before: Registry, after: Registry, wanted: seq<Wish>, known: set<string>, reliable: bool, done: seq<Attempt>)
    requires RunOutcome(before, after, wanted, known, reliable, done)
    ensures LeavesOthers(before.projects, after.projects) && KeepsWanted(before.projects, after.projects, wanted)
    ensures !Troubled(before, after) ==> ShowsWanted(after.projects, wanted, known)
  {
    UnprefixedAreOthers(before.projects, after.projects);
    WantedKeptStays(before.projects, after.projects, wanted, known);
    if !Troubled(before, after) { MirrorShowsWanted(after.projects, wanted, known); }
  }

  /** A run as it went: its plan, the states between listed projects, and those between creations. */
  datatype History = History(plan: Plan, scans: seq<Scan>, fills: seq<Scan>)

  ghost predicate Ran(
    before: Registry, after: Registry, wanted: seq<Wish>, known: set<string>, reliable: bool, run: History) {
    && run.plan.start == before && run.plan.wanted == wanted && run.plan.known == known
    && IsRun(run.plan, run.scans, run.fills, reliable)
    && End(run.fills).reg == after
  }

  /** Both loops, once the projects are listed. */
  method SyncAll(h: Harbor, want: Slice<WorkspaceSpec>, projects: seq<string>, ghost wanted: seq<Wish>)
    returns (ok: bool, ghost run: History)
    requires h.Valid() && Holds(want, wanted) && NoDuplicates(projects) && Elements(projects) == h.projects.Keys
    modifies h`failures, h`changes, h`attempts, h`deletions, h`removals, h`creations, h`robots, h`projects, h`nextID
    modifies want.arr, Arrays(want.Elems())
    ensures h.Valid() && h.failures >= old(h.failures) && (ok <==> h.failures == old(h.failures))
    ensures Ran(old(State(h)), State(h), wanted, h.known, h.reliable, run)
  {
    ghost var r := Plan(State(h), projects, wanted, h.known);
    var rest: Slice<WorkspaceSpec>;
    ghost var scans, fills;
    ok, rest, scans := SyncListed(h, want, r, projects);
    var created: bool;
    created, fills := CreateRemaining(h, rest, scans[|projects|]);
    ok := ok && created;
    run := History(r, scans, fills);
  }

  /** `run` tells how it went, once the projects were listed. */
  method RunSync(h: Harbor, want: Slice<WorkspaceSpec>, ghost wanted: seq<Wish>)
    returns (ok: bool, ghost listed: bool, ghost run: History)
    requires h.Valid() && Holds(want, wanted)
    modifies h`failures, h`changes, h`attempts, h`deletions, h`removals, h`creations, h`robots, h`projects, h`nextID
    modifies want.arr, Arrays(want.Elems())
    ensures h.Valid() && h.failures >= old(h.failures) && (ok <==> h.failures == old(h.failures))
    ensures !listed ==> !ok && !h.reliable && State(h) == old(State(h)).(failures := old(h.failures) + 1)
    ensures listed ==> Ran(old(State(h)), State(h), wanted, h.known, h.reliable, run)
    ensures listed ==>
              RunOutcome(old(State(h)), State(h), wanted, h.known, h.reliable, End(run.fills).done)
    ensures LeavesOthers(old(h.projects), h.projects) && KeepsWanted(old(h.projects), h.projects, wanted)
    ensures ok ==> ShowsWanted(h.projects, wanted, h.known)
    ensures RunEffort(old(State(h)), State(h), wanted, h.known)
  {
    run := History(Plan(State(h), [], wanted, h.known), [], []);
    var projects := ListAllProjects(h);
    if projects.None? {
      return false, false, run;
    }
    listed := true;
    ok, run := SyncAll(h, want, projects.value, wanted);
    RunAchieves(run.plan, run.scans, run.fills, h.reliable);
    PlainOutcome(old(State(h)), State(h), wanted, h.known, h.reliable, End(run.fills).done);
  }

  // ---- The command -----------------------------------------------------------------------------------

  method DecodeUsers(users: seq<string>) returns (s: Slice<string>)
    ensures s.Valid() && s.Elems() == users && fresh(s.arr)
  {
    var a := new string[|users|](i requires 0 <= i < |users| => users[i]);
    s := Slice(a, |users|);
    assert s.Elems() == users;
  }

  lemma DecodedSnoc(specs: seq<WorkspaceSpec>, wishes: seq<Wish>, spec: WorkspaceSpec, w: Wish)
    requires NoSharing(specs) && Denote(specs, wishes)
    requires spec.Valid() && spec.Value() == w && spec.users.arr !in Arrays(specs)
    ensures NoSharing(specs + [spec]) && Denote(specs + [spec], wishes + [w])
    ensures Arrays(specs + [spec]) == Arrays(specs) + {spec.users.arr}
  {
    var more := specs + [spec];
    assert forall i | 0 <= i < |specs| :: specs[i].users.arr in Arrays(specs);
    assert forall i | 0 <= i < |specs| :: more[i] == specs[i];
    assert more[|specs|] == spec;
    forall a | a in Arrays(specs) + {spec.users.arr} ensures a in Arrays(more) {
      if a in Arrays(specs) {
        var i :| 0 <= i < |specs| && specs[i].users.arr == a;
        assert more[i].users.arr == a;
      }
    }
  }

  method DecodeWorkspace(specs: seq<WorkspaceSpec>, ghost wishes: seq<Wish>, w: Wish) returns (more: seq<WorkspaceSpec>)
    requires NoSharing(specs) && Denote(specs, wishes)
    ensures NoSharing(more) && Denote(more, wishes + [w])
    ensures fresh(Arrays(more) - Arrays(specs))
  {
    var users := DecodeUsers(w.users);
    var spec := WorkspaceSpec(w.idHash, users);
    DecodedSnoc(specs, wishes, spec, w);
    more := specs + [spec];
  }

  /** The decoded input: every workspace with a user array of its own. */
  method Decode(wishes: seq<Wish>) returns (want: Slice<WorkspaceSpec>)
    ensures Holds(want, wishes) && fresh(want.arr) && fresh(Arrays(want.Elems()))
  {
    var specs: seq<WorkspaceSpec> := [];
    for i := 0 to |wishes|
      invariant fresh(Arrays(specs)) && NoSharing(specs) && Denote(specs, wishes[..i])
    {
      specs := DecodeWorkspace(specs, wishes[..i], wishes[i]);
      assert wishes[..i + 1] == wishes[..i] + [wishes[i]];
    }
    assert wishes[..|wishes|] == wishes;
    var a := new WorkspaceSpec[|specs|](i requires 0 <= i < |specs| => specs[i]);
    want := Slice(a, |specs|);
    assert want.Elems() == specs;
  }

  method Run(h: Harbor, wanted: seq<Wish>) returns (ok: bool, ghost listed: bool, ghost run: History)
    requires h.Valid()
    modifies h`failures, h`changes, h`attempts, h`deletions, h`removals, h`creations, h`robots, h`projects, h`nextID
    ensures h.Valid() && h.failures >= old(h.failures) && (ok <==> h.failures == old(h.failures))
    ensures !listed ==> !ok && !h.reliable && State(h) == old(State(h)).(failures := old(h.failures) + 1)
    ensures listed ==> Ran(old(State(h)), State(h), wanted, h.known, h.reliable, run)
    ensures listed ==>
              RunOutcome(old(State(h)), State(h), wanted, h.known, h.reliable, End(run.fills).done)
    ensures LeavesOthers(old(h.projects), h.projects) && KeepsWanted(old(h.projects), h.projects, wanted)
    ensures ok ==> ShowsWanted(h.projects, wanted, h.known)
    ensures RunEffort(old(State(h)), State(h), wanted, h.known)
  {
    var want := Decode(wanted);
    ok, listed, run := RunSync(h, want, wanted);
  }

  /** One robot call at most since a project's last creation, and none for a project never created. */
  ghost predicate RobotsJustified(creations: multiset<string>, robots: multiset<string>) {
    forall p :: robots[p] <= 1 && (creations[p] == 0 ==> robots[p] == 0)
  }

  /** The project is there with this robot count, and wanted by every input. */
  ghost predicate WantedThroughout(inputs: seq<seq<Wish>>, n: nat, p: string) {
    n <= |inputs| && forall k | 0 <= k < n :: p in Names(inputs[k])
  }

  ghost predicate RobotsUnchanged(a: map<string, Project>, b: map<string, Project>, inputs: seq<seq<Wish>>, n: nat) {
    forall p | p in a && WantedThroughout(inputs, n, p) :: p in b && b[p].robots == a[p].robots
  }

  lemma RunKeepsRobots(before: Registry, after: Registry, wanted: seq<Wish>, known: set<string>)
    requires RunEffort(before, after, wanted, known)
    requires RobotsJustified(before.creations, before.robots)
    ensures RobotsJustified(after.creations, after.robots)
  {
    forall p ensures after.robots[p] <= 1 && (after.creations[p] == 0 ==> after.robots[p] == 0) {
      assert before.robots[p] <= 1;
      if after.creations[p] == before.creations[p] {
        assert after.robots[p] == before.robots[p];
      }
    }
  }

  lemma RobotsStayThrough(
    a: map<string, Project>, b: map<string, Project>, c: map<string, Project>, inputs: seq<seq<Wish>>, n: nat)
    requires n < |inputs| && RobotsUnchanged(a, b, inputs, n)
    requires forall p | p in b && p in Names(inputs[n]) :: p in c && c[p].robots == b[p].robots
    ensures RobotsUnchanged(a, c, inputs, n + 1)
  {
    forall p | p in a && WantedThroughout(inputs, n + 1, p) ensures p in c && c[p].robots == a[p].robots {
      assert WantedThroughout(inputs, n, p);
      assert p in Names(inputs[n]);
    }
  }

  /**
   Over any number of runs, whatever is wanted and whatever fails: one robot call per project
   created and none without; a project wanted throughout keeps exactly the robot it has.
   */
  method RunAll(h: Harbor, inputs: seq<seq<Wish>>)
    requires h.Valid() && RobotsJustified(h.creations, h.robots)
    modifies h`failures, h`changes, h`attempts, h`deletions, h`removals, h`creations, h`robots, h`projects, h`nextID
    ensures h.Valid() && RobotsJustified(h.creations, h.robots)
    ensures RobotsUnchanged(old(h.projects), h.projects, inputs, |inputs|)
    ensures SameUnprefixed(old(h.projects), h.projects)
  {
    for i := 0 to |inputs|
      invariant h.Valid() && RobotsJustified(h.creations, h.robots)
      invariant RobotsUnchanged(old(h.projects), h.projects, inputs, i)
      invariant SameUnprefixed(old(h.projects), h.projects)
    {
      ghost var listed, run, before := false, History(Plan(State(h), [], [], {}), [], []), State(h);
      var ok: bool;
      ok, listed, run := Run(h, inputs[i]);
      RunKeepsRobots(before, State(h), inputs[i], h.known);
      RobotsStayThrough(old(h.projects), before.projects, h.projects, inputs, i);
    }
  }
}
