/** Bringing one project in line with one wanted workspace, and creating a missing one. */
module SyncOne {
  import opened HarborSdk
  import opened HarborApi
  import opened Slices
  import opened ReconcileSpec

  /** A wanted workspace as decoded: its user slice is shared with whoever holds a copy. */
  datatype WorkspaceSpec = WorkspaceSpec(idHash: string, users: Slice<string>) {
    predicate Valid() {
      users.Valid()
    }

    ghost function Value(): Wish
      requires Valid()
      reads users.arr
    {
      Wish(idHash, users.Elems())
    }
  }

  // ---- Steps on one project ------------------------------------------------------------

  /** While strangers among the first `n` listed members are being removed. */
  ghost predicate Pruned(p: Project, q: Project, members: seq<Member>, n: nat, users: seq<string>) {
    && n <= |members|
    && q.robots == p.robots
    && (forall m | m in q.members :: m in p.members && q.members[m] == p.members[m])
    && (forall m | m in p.members && m !in q.members :: m != "admin" && m !in users)
    && (forall i | 0 <= i < n ::
          members[i].name == "admin" || members[i].name in users || members[i].name !in q.members)
  }

  ghost predicate IsStranger(m: string, users: seq<string>) {
    m != "admin" && m !in users
  }

  ghost predicate NoListedStranger(members: seq<Member>, n: nat, users: seq<string>) {
    n <= |members| && forall j | 0 <= j < n :: !IsStranger(members[j].name, users)
  }

  lemma StrangersListed(p: Project, members: seq<Member>, users: seq<string>)
    requires IsListingOf(members, p.members)
    ensures NoStrangers(p, users) <==> NoListedStranger(members, |members|, users)
  {
  }

  lemma PruneStep(p: Project, q: Project, members: seq<Member>, n: nat, users: seq<string>)
    requires Pruned(p, q, members, n, users) && n < |members|
    requires ListsOnly(members, p.members) && DistinctIDs(p.members)
    requires IsStranger(members[n].name, users)
    ensures Pruned(p, WithoutMember(q, members[n].id), members, n + 1, users)
    ensures Pruned(p, WithoutMember(q, members[n].id), members, n, users)
  {
    var r := WithoutMember(q, members[n].id);
    assert p.members[members[n].name] == members[n].id;
    assert members[n].name !in r.members;
  }

  lemma StrangerStillThere(p: Project, q: Project, members: seq<Member>, n: nat, users: seq<string>)
    requires Pruned(p, q, members, n, users) && n < |members| && ListsOnly(members, p.members)
    requires members[n].name in q.members
    ensures members[n].id in q.members.Values
  {
    assert q.members[members[n].name] == members[n].id;
  }

  /** The members from the `n`-th listed one on are still there. */
  ghost predicate StillThere(q: Project, members: seq<Member>, n: nat) {
    forall i | n <= i < |members| :: members[i].name in q.members
  }

  lemma PruneKeepsRest(p: Project, q: Project, members: seq<Member>, n: nat, users: seq<string>)
    requires Pruned(p, q, members, n, users) && n < |members|
    requires ListsOnly(members, p.members) && DistinctIDs(p.members) && StillThere(q, members, n)
    ensures StillThere(WithoutMember(q, members[n].id), members, n + 1)
  {
    forall i | n + 1 <= i < |members| ensures members[i].name in WithoutMember(q, members[n].id).members {
      assert members[i].name != members[n].name;
      assert q.members[members[i].name] == p.members[members[i].name];
    }
  }

  /** After pruning, users `added[..n]` have been added or tolerated. */
  ghost predicate Joined(q: Project, r: Project, added: seq<string>, n: nat, known: set<string>) {
    && n <= |added|
    && r.robots == q.robots
    && (forall m | m in q.members :: m in r.members && r.members[m] == q.members[m])
    && (forall m | m in r.members && m !in q.members :: m in added && m in known)
    && (forall i | 0 <= i < n && added[i] in known :: added[i] in r.members)
  }

  lemma PrunedIsKept(p: Project, q: Project, members: seq<Member>, n: nat, users: seq<string>, known: set<string>)
    requires Pruned(p, q, members, n, users)
    ensures Kept(p, q, users, known)
  {
  }

  lemma JoinedIsKept(
    p: Project, q: Project, r: Project, members: seq<Member>, users: seq<string>, n: nat, known: set<string>)
    requires Pruned(p, q, members, |members|, users) && Joined(q, r, Leftover(users, members), n, known)
    ensures Kept(p, r, users, known)
  {
    forall m | m in r.members ensures m in p.members || (m in users && m in known) {
      if m !in q.members { LeftoverWanted(users, members, m); }
    }
  }

  lemma JoinedIsInSync(
    p: Project, q: Project, r: Project, members: seq<Member>, users: seq<string>, known: set<string>)
    requires IsListingOf(members, p.members)
    requires Pruned(p, q, members, |members|, users)
    requires Joined(q, r, Leftover(users, members), |Leftover(users, members)|, known)
    ensures InSync(r, users, known)
  {
    var added := Leftover(users, members);
    forall m | m in r.members ensures m == "admin" || m in users {
      if m in q.members {
        ListedIsMember(members, p, m);
        var i :| 0 <= i < |members| && members[i].name == m;
      } else {
        LeftoverWanted(users, members, m);
      }
    }
    forall u | u in users && u in known ensures u in r.members {
      WantedIsMatchedOrLeft(users, members, u);
      if u in added {
        var i :| 0 <= i < |added| && added[i] == u;
      } else {
        ListedIsMember(members, p, u);
      }
    }
  }

  lemma AddStep(
      q: Project, a: map<string, Project>, b: map<string, Project>, name: string, added: seq<string>, n: nat,
      known: set<string>, ok: bool)
    requires name in a && n < |added| && Joined(q, a[name], added, n, known)
    requires MemberMayBeAdded(a, b, name, added[n], known)
    requires ok && added[n] in known ==> name in b && added[n] in b[name].members
    ensures name in b && SameOthers(a, b, name)
    ensures Joined(q, b[name], added, if ok then n + 1 else n, known)
  {
    if b != a {
      var id: int :| b == a[name := WithMember(a[name], added[n], id)];
      PutKeepsOthers(a, name, WithMember(a[name], added[n], id));
    }
  }

  // ---- The two loops -------------------------------------------------------------------

  /** The slots from one slice's end to another's, in an array they share, are cleared. */
  ghost predicate Cleared(arr: array<string>, from: nat, to: nat)
    reads arr
  {
    from <= to <= arr.Length && forall k | from <= k < to :: arr[k] == ""
  }

  lemma OneCleared(arr: array<string>, n: nat)
    requires 0 < n <= arr.Length && arr[n - 1] == ""
    ensures Cleared(arr, n - 1, n)
  {
    forall k | n - 1 <= k < n ensures arr[k] == "" {
      assert k == n - 1;
    }
  }

  method DropUser(users: Slice<string>, ind: nat, ghost name: string) returns (rest: Slice<string>)
    requires users.Valid() && ind < users.len
    requires users.Elems()[ind] == name && name !in users.Elems()[..ind]
    modifies users.arr
    ensures rest.arr == users.arr && rest.Valid()
    ensures rest.Elems() == RemoveFirst(old(users.Elems()), name)
    ensures Cleared(users.arr, rest.len, users.len) && users.arr[users.len..] == old(users.arr[users.len..])
  {
    ghost var shorter := RemoveFirst(users.Elems(), name);
    assert shorter == Without(users.Elems(), ind) by {
      RemoveFirstAt(users.Elems(), ind, name);
    }
    rest := DeleteAt(users, ind, "");
    OneCleared(users.arr, users.len);
  }

  /** Tick `name` off the users, if it is one. */
  method TickOff(users: Slice<string>, name: string) returns (found: bool, rest: Slice<string>)
    requires users.Valid()
    modifies users.arr
    ensures rest.arr == users.arr && rest.Valid()
    ensures rest.Elems() == RemoveFirst(old(users.Elems()), name)
    ensures found <==> name in old(users.Elems())
    ensures Cleared(users.arr, rest.len, users.len) && users.arr[users.len..] == old(users.arr[users.len..])
  {
    var ind := Index(users, name);
    if ind == -1 {
      assert RemoveFirst(users.Elems(), name) == users.Elems() by {
        RemoveFirstMembers(users.Elems(), name);
      }
      return false, users;
    }
    found := true;
    rest := DropUser(users, ind, name);
  }

  lemma LeftoverSnoc(wanted: seq<string>, members: seq<Member>, n: nat)
    requires n < |members| && DistinctNames(members)
    ensures Leftover(wanted, members[..n + 1])
         == if members[n].name == "admin" then Leftover(wanted, members[..n])
            else RemoveFirst(Leftover(wanted, members[..n]), members[n].name)
    ensures members[n].name in Leftover(wanted, members[..n]) <==> members[n].name in wanted
  {
    assert members[..n + 1][..n] == members[..n];
    assert !Listed(members[..n], members[n].name);
    LeftoverUnlisted(wanted, members[..n], members[n].name);
  }

  method DeleteStranger(
      h: Harbor, project: string, ghost p: Project, ghost members: seq<Member>, ghost n: nat, m: Member,
      ghost users: seq<string>)
    returns (ok: bool)
    requires h.Valid() && project in h.projects && DistinctIDs(p.members) && ListsOnly(members, p.members)
    requires n < |members| && m == members[n] && IsStranger(m.name, users)
    requires Pruned(p, h.projects[project], members, n, users) && StillThere(h.projects[project], members, n)
    modifies h`failures, h`changes, h`projects
    ensures h.Valid()
    ensures h.changes == old(h.changes) + 1 && h.failures == old(h.failures) + Failure(ok)
    ensures project in h.projects && SameOthers(old(h.projects), h.projects, project)
    ensures Pruned(p, h.projects[project], members, if ok then n + 1 else n, users)
    ensures ok ==> StillThere(h.projects[project], members, n + 1)
    ensures h.reliable ==> ok
  {
    ghost var q := h.projects[project];
    assert members[n].name in q.members;
    StrangerStillThere(p, q, members, n, users);
    PruneStep(p, q, members, n, users);
    PruneKeepsRest(p, q, members, n, users);
    PutKeepsOthers(h.projects, project, WithoutMember(q, m.id));
    ok := DeleteOldMember(h, project, m.id);
  }

  /** One listed member: ticked off, skipped, or deleted as a stranger. */
  method VisitMember(
      h: Harbor, project: string, ghost p: Project, members: seq<Member>, n: nat, users: Slice<string>,
      ghost wanted: seq<string>)
    returns (ok: bool, rest: Slice<string>, ghost deletions: nat)
    requires h.Valid() && project in h.projects && DistinctIDs(p.members) && ListsOnly(members, p.members)
    requires n < |members| && Pruned(p, h.projects[project], members, n, wanted)
    requires StillThere(h.projects[project], members, n)
    requires users.Valid() && users.Elems() == Leftover(wanted, members[..n])
    modifies h`failures, h`changes, h`projects, users.arr
    ensures h.Valid() && rest.Valid() && rest.arr == users.arr
    ensures deletions == (if IsStranger(members[n].name, wanted) then 1 else 0)
    ensures !ok ==> deletions == 1
    ensures h.changes == old(h.changes) + deletions && h.failures == old(h.failures) + Failure(ok)
    ensures deletions == 0 ==> h.projects == old(h.projects)
    ensures project in h.projects && SameOthers(old(h.projects), h.projects, project)
    ensures Pruned(p, h.projects[project], members, if ok then n + 1 else n, wanted)
    ensures ok ==> StillThere(h.projects[project], members, n + 1)
    ensures ok ==> rest.Elems() == Leftover(wanted, members[..n + 1])
    ensures Cleared(users.arr, rest.len, users.len) && users.arr[users.len..] == old(users.arr[users.len..])
    ensures h.reliable ==> ok
  {
    ok, rest, deletions := true, users, 0;
    var m := members[n];
    LeftoverSnoc(wanted, members, n);
    if m.name == "admin" {
      return;
    }
    var found: bool;
    found, rest := TickOff(users, m.name);
    if !found {
      ok := DeleteStranger(h, project, p, members, n, m, wanted);
      deletions := 1;
    }
  }

  /** Freed slots that were cleared before are not touched again. */
  lemma StayCleared(arr: array<string>, tail: seq<string>, from: nat, middle: nat, to: nat)
    requires Cleared(arr, from, middle) && middle <= to <= arr.Length && arr[middle..] == tail
    requires forall k | 0 <= k < to - middle :: tail[k] == ""
    ensures Cleared(arr, from, to)
  {
    forall k | from <= k < to ensures arr[k] == "" {
      if k >= middle { assert arr[middle..][k - middle] == ""; }
    }
  }

  /** Delete members nobody wants, tick off those somebody does. */
  method RemoveStrangers(h: Harbor, project: string, members: seq<Member>, list: Slice<string>)
    returns (ok: bool, users: Slice<string>, ghost deletions: nat, ghost n: nat)
    requires h.Valid() && list.Valid()
    requires project in h.projects && ListsOnly(members, h.projects[project].members)
    modifies h`failures, h`changes, h`projects, list.arr
    ensures h.Valid() && users.Valid() && users.arr == list.arr
    ensures h.changes == old(h.changes) + deletions && h.failures == old(h.failures) + Failure(ok)
    ensures project in h.projects && SameOthers(old(h.projects), h.projects, project)
    ensures Pruned(old(h.projects)[project], h.projects[project], members, n, old(list.Elems()))
    ensures ok ==> n == |members| && users.Elems() == Leftover(old(list.Elems()), members)
    ensures Cleared(list.arr, users.len, list.len)
    ensures deletions == 0 ==> h.projects == old(h.projects)
    ensures ok ==> (deletions == 0 <==> NoListedStranger(members, |members|, old(list.Elems())))
    ensures !ok ==> !NoListedStranger(members, |members|, old(list.Elems()))
    ensures h.reliable ==> ok
  {
    ghost var wanted, p := list.Elems(), h.projects[project];
    ok, users, deletions, n := true, list, 0, 0;
    for i := 0 to |members|
      invariant ok && h.Valid() && users.arr == list.arr && users.Valid()
      invariant users.Elems() == Leftover(wanted, members[..i]) && Cleared(list.arr, users.len, list.len)
      invariant h.changes == old(h.changes) + deletions && h.failures == old(h.failures)
      invariant project in h.projects && SameOthers(old(h.projects), h.projects, project)
      invariant Pruned(p, h.projects[project], members, i, wanted) && StillThere(h.projects[project], members, i)
      invariant deletions == 0 ==> h.projects == old(h.projects)
      invariant deletions == 0 <==> NoListedStranger(members, i, wanted)
    {
      n := i;
      ghost var more, was, tail := 0, users, list.arr[users.len..];
      ok, users, more := VisitMember(h, project, p, members, i, users, wanted);
      StayCleared(list.arr, tail, users.len, was.len, list.len);
      deletions := deletions + more;
      if !ok {
        return;
      }
    }
    assert members[..|members|] == members;
    n := |members|;
  }

  /** Add the users left over. */
  method AddMembers(h: Harbor, project: string, users: Slice<string>)
    returns (ok: bool, ghost creations: nat, ghost n: nat)
    requires h.Valid() && users.Valid() && project in h.projects
    modifies h`failures, h`changes, h`projects, h`nextID
    ensures h.Valid()
    ensures h.changes == old(h.changes) + creations && h.failures == old(h.failures) + Failure(ok)
    ensures creations <= users.len && (creations == 0 <==> users.len == 0)
    ensures if ok then creations == users.len else creations > 0
    ensures project in h.projects && SameOthers(old(h.projects), h.projects, project)
    ensures Joined(old(h.projects)[project], h.projects[project], users.Elems(), n, h.known)
    ensures ok ==> n == users.len
    ensures (forall u | u in users.Elems() && u in h.known :: u in old(h.projects)[project].members) ==>
              h.projects == old(h.projects)
    ensures h.reliable ==> ok
  {
    ghost var q := h.projects[project];
    creations, n := 0, 0;
    for i := 0 to users.len
      invariant h.Valid()
      invariant creations == i && h.changes == old(h.changes) + creations && h.failures == old(h.failures)
      invariant project in h.projects && SameOthers(old(h.projects), h.projects, project)
      invariant Joined(q, h.projects[project], users.Elems(), i, h.known)
      invariant (forall u | u in users.Elems() && u in h.known :: u in q.members) ==> h.projects == old(h.projects)
    {
      n := i;
      var u := users.arr[i];
      assert u == users.Elems()[i];
      ghost var before := h.projects;
      var created := CreateNewMember(h, project, u);
      AddStep(q, before, h.projects, project, users.Elems(), i, h.known, created);
      creations := creations + 1;
      if !created {
        return false, creations, i;
      }
    }
    ok, n := true, users.len;
  }

  // ---- syncWorkspace --------------------------------------------------------------------

  /** What one pass of syncWorkspace over `w` may do to the projects. */
  ghost predicate SyncOutcome(
      before: map<string, Project>, after: map<string, Project>, w: Wish, known: set<string>, ok: bool)
  {
    && SameOthers(before, after, ProjectFor(w))
    && (ProjectFor(w) !in before ==> !ok && after == before)
    && (ProjectFor(w) in before ==>
          ProjectFor(w) in after && Kept(before[ProjectFor(w)], after[ProjectFor(w)], w.users, known))
    && (ok ==> Synced(after, w, known))
    && (Synced(before, w, known) ==> after == before)
  }

  /** Nothing to add and nothing to remove. */
  ghost predicate Settled(p: Project, users: seq<string>) {
    NoStrangers(p, users) && AllPresent(users, p)
  }

  ghost predicate StartsSettled(projects: map<string, Project>, w: Wish) {
    ProjectFor(w) in projects && Settled(projects[ProjectFor(w)], w.users)
  }

  /** What the user array holds once the members are matched: those left to add, then cleared slots. */
  ghost predicate LeftFor(users: seq<string>, members: seq<Member>, after: seq<string>) {
    && |after| == |users| && |Leftover(users, members)| <= |after|
    && after[..|Leftover(users, members)|] == Leftover(users, members)
    && forall k | |Leftover(users, members)| <= k < |after| :: after[k] == ""
  }

  /** The array is used up in place: the project's members are matched, and the other users move to the front. */
  ghost predicate UsedUp(p: Project, users: seq<string>, after: seq<string>) {
    exists members: seq<Member> :: IsListingOf(members, p.members) && LeftFor(users, members, after)
  }

  lemma FrontIsLeft(users: seq<string>, members: seq<Member>, rest: Slice<string>, list: Slice<string>)
    requires rest.Valid() && list.Valid() && rest.arr == list.arr && list.len == |users|
    requires rest.Elems() == Leftover(users, members) && Cleared(list.arr, rest.len, list.len)
    ensures LeftFor(users, members, list.Elems())
  {
    assert list.Elems()[..rest.len] == rest.Elems();
    assert forall k | rest.len <= k < list.len :: list.Elems()[k] == list.arr[k];
  }

  /** Both loops, on a listed project. */
  method MatchMembers(h: Harbor, project: string, members: seq<Member>, list: Slice<string>) returns (ok: bool)
    requires h.Valid() && list.Valid()
    requires project in h.projects && IsListingOf(members, h.projects[project].members)
    modifies h`failures, h`changes, h`projects, h`nextID, list.arr
    ensures h.Valid()
    ensures project in h.projects && SameOthers(old(h.projects), h.projects, project)
    ensures Kept(old(h.projects)[project], h.projects[project], old(list.Elems()), h.known)
    ensures ok ==> InSync(h.projects[project], old(list.Elems()), h.known)
    ensures ok ==> LeftFor(old(list.Elems()), members, list.Elems())
    ensures InSync(old(h.projects)[project], old(list.Elems()), h.known) ==> h.projects == old(h.projects)
    ensures h.failures == old(h.failures) + Failure(ok) && h.changes >= old(h.changes)
    ensures Settled(old(h.projects)[project], old(list.Elems())) ==> h.changes == old(h.changes)
    ensures ok && h.changes == old(h.changes) ==> Settled(old(h.projects)[project], old(list.Elems()))
    ensures h.reliable ==> ok
  {
    ghost var wanted, p := list.Elems(), h.projects[project];
    StrangersListed(p, members, wanted);
    var users: Slice<string>;
    ghost var deletions, n, creations;
    ok, users, deletions, n := RemoveStrangers(h, project, members, list);
    if !ok {
      PrunedIsKept(p, h.projects[project], members, n, wanted, h.known);
      return;
    }
    ghost var q := h.projects[project];
    FrontIsLeft(wanted, members, users, list);
    AddedWanted(wanted, members, p, h.known);
    NothingLeftOver(wanted, p, members);
    ok, creations, n := AddMembers(h, project, users);
    JoinedIsKept(p, q, h.projects[project], members, wanted, n, h.known);
    if ok {
      JoinedIsInSync(p, q, h.projects[project], members, wanted, h.known);
    }
  }

  method SyncWorkspace(h: Harbor, w: WorkspaceSpec) returns (ok: bool)
    requires h.Valid() && w.Valid()
    modifies h`failures, h`changes, h`attempts, h`projects, h`nextID, w.users.arr
    ensures h.Valid()
    ensures SyncOutcome(old(h.projects), h.projects, old(w.Value()), h.known, ok)
    ensures h.attempts == old(h.attempts) + multiset{ProjectFor(old(w.Value()))}
    ensures h.failures == old(h.failures) + Failure(ok)
    ensures h.changes >= old(h.changes)
    ensures ok && h.changes == old(h.changes) ==> StartsSettled(old(h.projects), old(w.Value()))
    ensures StartsSettled(old(h.projects), old(w.Value())) ==> h.changes == old(h.changes)
    ensures ok ==>
              && ProjectFor(old(w.Value())) in old(h.projects)
              && UsedUp(old(h.projects)[ProjectFor(old(w.Value()))], old(w.users.Elems()), w.users.Elems())
    ensures h.reliable && ProjectFor(old(w.Value())) in old(h.projects) ==> ok
  {
    var project := "ws-" + w.idHash;
    assert project == ProjectFor(w.Value());
    var members := ListAllMembers(h, project);
    if members.None? {
      return false;
    }
    ok := MatchMembers(h, project, members.value, w.users);
  }

  lemma AddedWanted(users: seq<string>, members: seq<Member>, p: Project, known: set<string>)
    ensures InSync(p, users, known) ==> forall u | u in Leftover(users, members) && u in known :: u in p.members
  {
    forall u | u in Leftover(users, members) ensures u in users {
      LeftoverWanted(users, members, u);
    }
  }

  // ---- createWorkspace -------------------------------------------------------------------

  /** What one pass of createWorkspace for `w` may do to the projects. */
  ghost predicate CreateOutcome(
      before: map<string, Project>, after: map<string, Project>, w: Wish, known: set<string>, ok: bool)
  {
    && SameOthers(before, after, ProjectFor(w))
    && (ProjectFor(w) in before ==> !ok && after == before)
    && (ProjectFor(w) !in before && ProjectFor(w) in after ==>
          InvitedOnly(after[ProjectFor(w)], w.users, known) && after[ProjectFor(w)].robots <= 1)
    && (ok ==> Synced(after, w, known) && after[ProjectFor(w)].robots == 1)
  }

  ghost predicate InvitedOnly(p: Project, users: seq<string>, known: set<string>) {
    forall m | m in p.members :: m == "admin" || (m in users && m in known)
  }

  /** Members and robot of a project just created. */
  method FillProject(h: Harbor, project: string, users: Slice<string>) returns (ok: bool)
    requires h.Valid() && users.Valid() && project in h.projects && h.projects[project] == NEW_PROJECT
    requires h.robots[project] == 0
    modifies h`failures, h`changes, h`robots, h`projects, h`nextID
    ensures h.Valid()
    ensures project in h.projects && SameOthers(old(h.projects), h.projects, project)
    ensures InvitedOnly(h.projects[project], users.Elems(), h.known) && h.projects[project].robots <= 1
    ensures ok ==> InSync(h.projects[project], users.Elems(), h.known) && h.projects[project].robots == 1
    ensures h.failures == old(h.failures) + Failure(ok)
    ensures old(h.changes) < h.changes <= old(h.changes) + users.len + 1
    ensures h.robots == if h.changes == old(h.changes) + users.len + 1 then old(h.robots)[project := 1]
                        else old(h.robots)
    ensures h.changes < old(h.changes) + users.len + 1 ==> !ok && h.projects[project].robots == 0
    ensures h.reliable ==> ok
  {
    ghost var creations, n;
    ok, creations, n := AddMembers(h, project, users);
    if !ok {
      return;
    }
    ghost var r := h.projects[project];
    assert forall u | u in users.Elems() && u in h.known :: u in r.members;
    PutKeepsOthers(h.projects, project, r.(robots := 1));
    ok := CreateNewRobot(h, project);
    assert h.projects[project].members == r.members;
  }

  /**
   Calls go with creations. Without a successful createProject nothing else is asked, and
   a project that is there does not get one; with it, each user is asked for until a call
   fails, and the robot once after all of them.
   */
  ghost predicate RobotStep(a: Registry, b: Registry, w: Wish, ok: bool) {
    var name, calls := ProjectFor(w), b.changes - a.changes;
    || (!ok && calls == 1 && b.creations == a.creations && b.robots == a.robots
        && (b.projects == a.projects || b.projects == a.projects[name := NEW_PROJECT]))
    || (name !in a.projects && b.creations == a.creations + multiset{name}
        && if calls == |w.users| + 2 then b.robots == a.robots[name := 1]
           else !ok && 1 < calls < |w.users| + 2 && b.robots == a.robots[name := 0]
                && name in b.projects && b.projects[name].robots == 0)
  }

  method CreateWorkspace(h: Harbor, w: WorkspaceSpec) returns (ok: bool)
    requires h.Valid() && w.Valid()
    modifies h`failures, h`changes, h`attempts, h`creations, h`robots, h`projects, h`nextID
    ensures h.Valid()
    ensures CreateOutcome(old(h.projects), h.projects, w.Value(), h.known, ok)
    ensures h.attempts == old(h.attempts) + multiset{ProjectFor(w.Value())}
    ensures h.failures == old(h.failures) + Failure(ok)
    ensures h.changes > old(h.changes)
    ensures RobotStep(old(State(h)), State(h), w.Value(), ok)
    ensures h.reliable && ProjectFor(w.Value()) !in old(h.projects) ==> ok
  {
    var project := "ws-" + w.idHash;
    assert project == ProjectFor(w.Value());
    PutKeepsOthers(h.projects, project, NEW_PROJECT);
    ok := CreateNewProject(h, project);
    if !ok {
      return;
    }
    ok := FillProject(h, project, w.users);
    assert old(h.robots)[project := 0][project := 1] == old(h.robots)[project := 1];
  }
}
