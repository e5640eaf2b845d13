/** The reconciler's interface to the registry: paged listings, deletion, and tolerated failures. */
module HarborApi {
  import opened Basics
  import opened HarborSdk

  datatype Member = Member(id: int, name: string)

  const PAGE_SIZE := 10

  // ---- Paged listings -----------------------------------------------------------

  function Min(a: nat, b: nat): nat {
    if a < b then a else b
  }

  function Page<T>(listing: seq<T>, page: nat): seq<T>
    requires page >= 1
  {
    listing[Min((page - 1) * PAGE_SIZE, |listing|)..Min(page * PAGE_SIZE, |listing|)]
  }

  function PagesFor(n: nat): nat {
    if n == 0 then 1 else (n + PAGE_SIZE - 1) / PAGE_SIZE
  }

  /** Against a listing that stays put, page by page until the total count is reached. */
  method FetchAll<T>(h: Harbor, listing: seq<T>) returns (r: Option<seq<T>>, requests: nat)
    ensures r.Some? ==> r.value == listing && requests == PagesFor(|listing|)
    ensures requests <= PagesFor(|listing|)
    ensures h.reliable ==> r.Some?
  {
    var out: seq<T> := [];
    var page := 1;
    requests := 0;
    while true
      invariant page >= 1 && requests == page - 1
      invariant page == 1 || (page - 1) * PAGE_SIZE < |listing|
      invariant out == listing[..Min((page - 1) * PAGE_SIZE, |listing|)]
      decreases |listing| - (page - 1) * PAGE_SIZE
    {
      var failed, _ := h.Trouble();
      requests := requests + 1;
      if failed {
        return None, requests;
      }
      out := out + Page(listing, page);
      var total := |listing|;
      if |out| >= total {
        break;
      }
      page := page + 1;
    }
    return Some(out), requests;
  }

  function TrimPrefix(s: string, prefix: string): string {
    if prefix <= s then s[|prefix|..] else s
  }

  /** The registry's projects, and what has been asked of it so far. */
  datatype Registry = Registry(
    projects: map<string, Project>, attempts: multiset<string>, deletions: set<string>,
    creations: multiset<string>, robots: multiset<string>, changes: nat, failures: nat)

  ghost function State(h: Harbor): Registry
    reads h
  {
    Registry(h.projects, h.attempts, h.deletions, h.creations, h.robots, h.changes, h.failures)
  }

  // ---- What a call does to the projects -------------------------------------------

  /** The two states differ at most in project `name`. */
  ghost predicate SameOthers(a: map<string, Project>, b: map<string, Project>, name: string) {
    a - {name} == b - {name}
  }

  lemma OthersSame(a: map<string, Project>, b: map<string, Project>, name: string, p: string)
    requires SameOthers(a, b, name) && p != name
    ensures (p in a <==> p in b) && (p in a ==> a[p] == b[p])
  {
    assert p in a <==> p in a - {name};
    assert p in b <==> p in b - {name};
    if p in a { assert (a - {name})[p] == a[p] && (b - {name})[p] == b[p]; }
  }

  lemma PutKeepsOthers(a: map<string, Project>, name: string, p: Project)
    ensures SameOthers(a, a[name := p], name)
  {
    assert a - {name} == a[name := p] - {name};
  }

  /** Same members and robots; repositories may be fewer. */
  ghost predicate SameBut(p: Project, q: Project) {
    && q.members == p.members && q.robots == p.robots
    && forall r | r in q.repositories :: r in p.repositories
  }

  function RepositoryRemovals(name: string, repositories: seq<string>): seq<Removal> {
    seq(|repositories|, i requires 0 <= i < |repositories| => OfRepository(name, repositories[i]))
  }

  /** All repositories, then the project. */
  function AllRemovals(name: string, repositories: seq<string>): seq<Removal> {
    RepositoryRemovals(name, repositories) + [OfProject(name)]
  }

  /** Some of the repositories in order, or all of them and then the project. */
  ghost predicate InOrder(before: seq<Removal>, after: seq<Removal>, name: string, repositories: seq<string>) {
    || after == before + AllRemovals(name, repositories)
    || exists n :: 0 <= n <= |repositories| && after == before + RepositoryRemovals(name, repositories[..n])
  }

  /** Every repository's removal comes before the project's. */
  lemma RepositoriesFirst(before: seq<Removal>, after: seq<Removal>, name: string, repositories: seq<string>, r: string)
    requires after == before + AllRemovals(name, repositories) && r in repositories
    ensures exists i :: |before| <= i < |after| - 1 && after[i] == OfRepository(name, r)
    ensures after[|after| - 1] == OfProject(name)
  {
    var i :| 0 <= i < |repositories| && repositories[i] == r;
    assert after[|before| + i] == OfRepository(name, r);
  }

  ghost function RepositoriesOf(projects: map<string, Project>, name: string): seq<string> {
    if name in projects then projects[name].repositories else []
  }

  function Failure(ok: bool): nat {
    if ok then 0 else 1
  }

  // ---- The interface -----------------------------------------------------------------

  method ListAllProjects(h: Harbor) returns (r: Option<seq<string>>)
    requires h.Valid()
    modifies h`failures
    ensures h.Valid()
    ensures h.failures == old(h.failures) + Failure(r.Some?)
    ensures r.Some? ==> NoDuplicates(r.value) && Elements(r.value) == h.projects.Keys
    ensures h.reliable ==> r.Some?
  {
    var listing := AnyOrder(h.projects.Keys);
    var requests: nat;
    r, requests := FetchAll(h, listing);
    h.failures := h.failures + Failure(r.Some?);
  }

  method CreateNewProject(h: Harbor, name: string) returns (ok: bool)
    requires h.Valid()
    modifies h`failures, h`changes, h`attempts, h`creations, h`robots, h`projects
    ensures h.Valid()
    ensures h.failures == old(h.failures) + Failure(ok)
    ensures h.changes == old(h.changes) + 1 && h.attempts == old(h.attempts) + multiset{name}
    ensures h.creations == if ok then old(h.creations) + multiset{name} else old(h.creations)
    ensures h.robots == if ok then old(h.robots)[name := 0] else old(h.robots)
    ensures h.projects == old(h.projects) ||
            (name !in old(h.projects) && h.projects == old(h.projects)[name := NEW_PROJECT])
    ensures ok ==> name !in old(h.projects) && name in h.projects
    ensures h.reliable && name !in old(h.projects) ==> ok
  {
    var s := h.PostProject(name);
    ok := s == Done;
    h.failures := h.failures + Failure(ok);
    h.changes := h.changes + 1;
    h.attempts := h.attempts + multiset{name};
    h.creations := if ok then h.creations + multiset{name} else h.creations;
    h.robots := if ok then h.robots[name := 0] else h.robots;
  }

  /** Every repository first, then the project. */
  method DeleteOldProject(h: Harbor, name: string) returns (ok: bool)
    requires h.Valid()
    modifies h`failures, h`changes, h`deletions, h`removals, h`projects
    ensures h.Valid()
    ensures h.failures == old(h.failures) + Failure(ok)
    ensures h.changes == old(h.changes) + 1 && h.deletions == old(h.deletions) + {name}
    ensures InOrder(old(h.removals), h.removals, name, RepositoriesOf(old(h.projects), name))
    ensures ok ==> name in old(h.projects)
    ensures ok ==> h.removals == old(h.removals) + AllRemovals(name, old(h.projects)[name].repositories)
    ensures SameOthers(old(h.projects), h.projects, name)
    ensures name in h.projects ==> name in old(h.projects) && SameBut(old(h.projects)[name], h.projects[name])
    ensures ok ==> name !in h.projects
    ensures h.reliable && name in old(h.projects) ==> ok
  {
    ok := DeleteRepositoriesAndProject(h, name);
    h.failures := h.failures + Failure(ok);
    h.changes := h.changes + 1;
    h.deletions := h.deletions + {name};
  }

  lemma TrimPrefixed(prefix: string, s: string)
    ensures TrimPrefix(prefix + s, prefix) == s
  {
  }

  /** The registry names a repository "project/name"; the deletion call takes the bare name. */
  method ListRepositories(h: Harbor, name: string) returns (r: Option<seq<string>>)
    requires name in h.projects
    ensures r.Some? ==> r.value == h.projects[name].repositories
    ensures h.reliable ==> r.Some?
  {
    var stored, prefix := h.projects[name].repositories, name + "/";
    var listing := seq(|stored|, i requires 0 <= i < |stored| => prefix + stored[i]);
    var pages, requests := FetchAll(h, listing);
    if pages.None? {
      return None;
    }
    forall i | 0 <= i < |stored| ensures TrimPrefix(listing[i], prefix) == stored[i] {
      TrimPrefixed(prefix, stored[i]);
    }
    return Some(seq(|listing|, i requires 0 <= i < |listing| => TrimPrefix(listing[i], prefix)));
  }

  method DeleteRepositoriesAndProject(h: Harbor, name: string) returns (ok: bool)
    requires h.Valid()
    modifies h`removals, h`projects
    ensures h.Valid()
    ensures InOrder(old(h.removals), h.removals, name, RepositoriesOf(old(h.projects), name))
    ensures ok ==> name in old(h.projects)
    ensures ok ==> h.removals == old(h.removals) + AllRemovals(name, old(h.projects)[name].repositories)
    ensures SameOthers(old(h.projects), h.projects, name)
    ensures name in h.projects ==> name in old(h.projects) && SameBut(old(h.projects)[name], h.projects[name])
    ensures ok ==> name !in h.projects
    ensures h.reliable && name in old(h.projects) ==> ok
  {
    assert h.removals == h.removals + RepositoryRemovals(name, RepositoriesOf(h.projects, name)[..0]);
    if name !in h.projects {
      return false;
    }
    var repos := ListRepositories(h, name);
    if repos.None? {
      return false;
    }
    ok := DeleteRepositories(h, name, repos.value);
    if !ok {
      return;
    }
    NoneLeft(h.projects[name].repositories);
    h.removals := h.removals + [OfProject(name)];
    var s := h.RemoveProject(name);
    ok := s == Done;
  }

  /** The loop over the repositories listed. */
  method DeleteRepositories(h: Harbor, name: string, repos: seq<string>) returns (ok: bool)
    requires h.Valid() && name in h.projects && h.projects[name].repositories == repos
    modifies h`removals, h`projects
    ensures h.Valid() && name in h.projects
    ensures SameOthers(old(h.projects), h.projects, name) && SameBut(old(h.projects)[name], h.projects[name])
    ensures exists n :: 0 <= n <= |repos| && h.removals == old(h.removals) + RepositoryRemovals(name, repos[..n])
    ensures ok ==> h.removals == old(h.removals) + RepositoryRemovals(name, repos)
    ensures ok ==> forall r :: r !in h.projects[name].repositories
    ensures h.reliable ==> ok
  {
    for i := 0 to |repos|
      invariant h.Valid()
      invariant SameOthers(old(h.projects), h.projects, name)
      invariant name in h.projects && SameBut(old(h.projects)[name], h.projects[name])
      invariant h.removals == old(h.removals) + RepositoryRemovals(name, repos[..i])
      invariant forall r :: r in h.projects[name].repositories <==> r in repos[i..]
    {
      StepThrough(repos, i);
      h.removals := h.removals + [OfRepository(name, repos[i])];
      assert RepositoryRemovals(name, repos[..i + 1])
          == RepositoryRemovals(name, repos[..i]) + [OfRepository(name, repos[i])];
      var s := h.RemoveRepository(name, repos[i]);
      if s != Done {
        return false;
      }
    }
    assert repos[..|repos|] == repos;
    return true;
  }

  lemma StepThrough(s: seq<string>, i: nat)
    requires i < |s| && NoDuplicates(s)
    ensures forall x :: x in s[i + 1..] <==> x in s[i..] && x != s[i]
    ensures s[i] in s[i..]
  {
    assert s[i..] == [s[i]] + s[i + 1..];
    assert forall j | i < j < |s| :: s[j] != s[i];
    assert s[i..][0] == s[i];
  }

  lemma NoneLeft(s: seq<string>)
    ensures s == [] <==> forall r :: r !in s
  {
    if s != [] {
      assert s[0] in s;
    }
  }

  method ListAllMembers(h: Harbor, name: string) returns (r: Option<seq<Member>>)
    requires h.Valid()
    modifies h`failures, h`attempts
    ensures h.Valid()
    ensures h.failures == old(h.failures) + Failure(r.Some?)
    ensures h.attempts == old(h.attempts) + multiset{name}
    ensures r.Some? ==> name in h.projects && IsListingOf(r.value, h.projects[name].members)
    ensures h.reliable && name in h.projects ==> r.Some?
  {
    if name !in h.projects {
      r := None;
    } else {
      var members := h.projects[name].members;
      var order := AnyOrder(members.Keys);
      assert forall i | 0 <= i < |order| :: order[i] in Elements(order);
      var listing := seq(|order|, i requires 0 <= i < |order| => Member(members[order[i]], order[i]));
      var requests: nat;
      r, requests := FetchAll(h, listing);
      forall m | m in members ensures exists i :: 0 <= i < |listing| && listing[i].name == m {
        assert m in Elements(order);
        var i :| 0 <= i < |order| && order[i] == m;
        assert listing[i].name == m;
      }
    }
    h.failures := h.failures + Failure(r.Some?);
    h.attempts := h.attempts + multiset{name};
  }

  /** Each member once, with its id. */
  ghost predicate IsListingOf(listing: seq<Member>, members: map<string, int>) {
    && ListsOnly(listing, members)
    && forall m | m in members :: exists i :: 0 <= i < |listing| && listing[i].name == m
  }

  ghost predicate ListsOnly(listing: seq<Member>, members: map<string, int>) {
    && (forall i | 0 <= i < |listing| :: listing[i].name in members && members[listing[i].name] == listing[i].id)
    && (forall i, j | 0 <= i < j < |listing| :: listing[i].name != listing[j].name)
  }

  /** A user the registry does not know, or who is a member already, counts as success. */
  method CreateNewMember(h: Harbor, name: string, username: string) returns (ok: bool)
    requires h.Valid()
    modifies h`failures, h`changes, h`projects, h`nextID
    ensures h.Valid()
    ensures h.failures == old(h.failures) + Failure(ok)
    ensures h.changes == old(h.changes) + 1
    ensures MemberMayBeAdded(old(h.projects), h.projects, name, username, h.known)
    ensures ok && name in h.projects && username in h.known ==> username in h.projects[name].members
    ensures h.reliable ==> ok
  {
    var s := h.PostMember(name, username);
    ok := s == Done || s == Missing || s == Conflict;
    h.failures := h.failures + Failure(ok);
    h.changes := h.changes + 1;
  }

  ghost predicate MemberMayBeAdded(
    a: map<string, Project>, b: map<string, Project>, name: string, username: string, known: set<string>)
  {
    || b == a
    || (name in a && username in known && username !in a[name].members
        && exists id: int :: b == a[name := WithMember(a[name], username, id)])
  }

  method DeleteOldMember(h: Harbor, name: string, id: int) returns (ok: bool)
    requires h.Valid()
    modifies h`failures, h`changes, h`projects
    ensures h.Valid()
    ensures h.failures == old(h.failures) + Failure(ok)
    ensures h.changes == old(h.changes) + 1
    ensures h.projects == old(h.projects)
         || (name in old(h.projects) && h.projects == old(h.projects)[name := WithoutMember(old(h.projects)[name], id)])
    ensures ok ==>
              name in old(h.projects) && h.projects == old(h.projects)[name := WithoutMember(old(h.projects)[name], id)]
    ensures h.reliable && name in old(h.projects) && id in old(h.projects)[name].members.Values ==> ok
  {
    var s := h.RemoveMember(name, id);
    ok := s == Done;
    h.failures := h.failures + Failure(ok);
    h.changes := h.changes + 1;
  }

  /** The robot account, then two cluster commands that can fail after it exists. */
  method CreateNewRobot(h: Harbor, name: string) returns (ok: bool)
    requires h.Valid()
    modifies h`failures, h`changes, h`robots, h`projects
    ensures h.Valid()
    ensures h.failures == old(h.failures) + Failure(ok)
    ensures h.changes == old(h.changes) + 1 && h.robots == old(h.robots) + multiset{name}
    ensures h.projects == old(h.projects)
         || (name in old(h.projects) && old(h.projects)[name].robots == 0
             && h.projects == old(h.projects)[name := old(h.projects)[name].(robots := 1)])
    ensures ok ==> name in h.projects && h.projects[name].robots == 1
    ensures h.reliable && name in old(h.projects) && old(h.projects)[name].robots == 0 ==> ok
  {
    var s := h.PostRobot(name);
    ok := s == Done;
    if ok {
      var secretFailed, _ := h.Trouble();
      if secretFailed {
        ok := false;
      } else {
        var patchFailed, _ := h.Trouble();
        ok := !patchFailed;
      }
    }
    h.failures := h.failures + Failure(ok);
    h.changes := h.changes + 1;
    h.robots := h.robots + multiset{name};
  }
}
