/** What the reconciler aims for, on values. */
module ReconcileSpec {
  import opened Basics
  import opened HarborSdk
  import opened HarborApi
  import opened Slices

  /** A wanted workspace: the name part of its project, and its users. */
  datatype Wish = Wish(idHash: string, users: seq<string>)

  const PREFIX := "ws-"

  function ProjectFor(w: Wish): string {
    PREFIX + w.idHash
  }

  predicate HasPrefix(project: string) {
    PREFIX <= project
  }

  lemma ProjectForHasPrefix(w: Wish)
    ensures HasPrefix(ProjectFor(w))
  {
  }

  /** The test accepts exactly the names a wish can have. */
  lemma HasPrefixIff(project: string)
    ensures HasPrefix(project) <==> exists h :: project == ProjectFor(Wish(h, []))
    ensures HasPrefix(project) <==> exists h :: project == "ws-" + h
  {
    if HasPrefix(project) {
      assert project == ProjectFor(Wish(project[3..], []));
      assert project == "ws-" + project[3..];
    }
    if h :| project == "ws-" + h {
      assert project == ProjectFor(Wish(h, []));
    }
  }

  /** Nobody but wanted users and the administrator, and every wanted user the registry knows. */
  ghost predicate InSync(p: Project, users: seq<string>, known: set<string>) {
    && NoStrangers(p, users)
    && forall u | u in users && u in known :: u in p.members
  }

  ghost predicate NoStrangers(p: Project, users: seq<string>) {
    forall m | m in p.members :: m == "admin" || m in users
  }

  ghost predicate Synced(projects: map<string, Project>, w: Wish, known: set<string>) {
    ProjectFor(w) in projects && InSync(projects[ProjectFor(w)], w.users, known)
  }

  /** Whatever failed: wanted members and the administrator stay, and only wanted known users join. */
  ghost predicate Kept(p: Project, q: Project, users: seq<string>, known: set<string>) {
    && q.robots == p.robots
    && (forall m | m in p.members && (m == "admin" || m in users) :: m in q.members && q.members[m] == p.members[m])
    && (forall m | m in q.members :: m in p.members || (m in users && m in known))
  }

  // ---- Matching listed members against wanted users ------------------------------

  function RemoveFirst(s: seq<string>, x: string): seq<string> {
    if s == [] then [] else if s[0] == x then s[1..] else [s[0]] + RemoveFirst(s[1..], x)
  }

  /** The wanted users still unmatched after the listed members. */
  function Leftover(users: seq<string>, members: seq<Member>): seq<string> {
    if members == [] then users
    else
      var before := Leftover(users, members[..|members| - 1]);
      var m := members[|members| - 1].name;
      if m == "admin" then before else RemoveFirst(before, m)
  }

  /** The listed members that matched one. */
  function Matched(users: seq<string>, members: seq<Member>): seq<string> {
    if members == [] then []
    else
      var before := Matched(users, members[..|members| - 1]);
      var m := members[|members| - 1].name;
      if m == "admin" || m !in Leftover(users, members[..|members| - 1]) then before else before + [m]
  }

  lemma {:induction false} RemoveFirstAt(s: seq<string>, i: nat, x: string)
    requires i < |s| && s[i] == x && x !in s[..i]
    ensures RemoveFirst(s, x) == Without(s, i)
  {
    if i > 0 {
      assert s[0] in s[..i];
      assert s[1..][..i - 1] == s[..i][1..];
      RemoveFirstAt(s[1..], i - 1, x);
    }
  }

  lemma {:induction false} RemoveFirstMembers(s: seq<string>, x: string)
    ensures multiset(RemoveFirst(s, x)) == multiset(s) - multiset{x}
    ensures x !in s ==> RemoveFirst(s, x) == s
  {
    if s != [] {
      assert s == [s[0]] + s[1..];
      RemoveFirstMembers(s[1..], x);
    }
  }

  ghost predicate Listed(members: seq<Member>, x: string) {
    exists i :: 0 <= i < |members| && members[i].name == x
  }

  ghost predicate DistinctNames(members: seq<Member>) {
    forall i, j | 0 <= i < j < |members| :: members[i].name != members[j].name
  }

  lemma ListedSplit(members: seq<Member>, x: string)
    requires members != []
    ensures Listed(members, x) <==> Listed(members[..|members| - 1], x) || members[|members| - 1].name == x
  {
    var init := members[..|members| - 1];
    if Listed(init, x) {
      var i :| 0 <= i < |init| && init[i].name == x;
      assert members[i].name == x;
    }
    if Listed(members, x) && members[|members| - 1].name != x {
      var i :| 0 <= i < |members| && members[i].name == x;
      assert init[i].name == x;
    }
  }

  /** Users are conserved: each is matched or left over, with multiplicity. */
  lemma {:induction false} UsersConserved(users: seq<string>, members: seq<Member>)
    ensures multiset(Matched(users, members)) + multiset(Leftover(users, members)) == multiset(users)
  {
    if members != [] {
      var init, m := members[..|members| - 1], members[|members| - 1].name;
      UsersConserved(users, init);
      RemoveFirstMembers(Leftover(users, init), m);
      assert m in Leftover(users, init) <==> m in multiset(Leftover(users, init));
    }
  }

  /** A matched name is listed, is not the administrator, and is matched once. */
  lemma {:induction false} MatchedListed(users: seq<string>, members: seq<Member>, x: string)
    requires x in Matched(users, members)
    ensures x != "admin" && Listed(members, x)
  {
    ListedSplit(members, x);
    if x in Matched(users, members[..|members| - 1]) {
      MatchedListed(users, members[..|members| - 1], x);
    }
  }

  lemma {:induction false} MatchedDistinct(users: seq<string>, members: seq<Member>)
    requires DistinctNames(members)
    ensures NoDuplicates(Matched(users, members))
  {
    if members != [] {
      var init, m := members[..|members| - 1], members[|members| - 1].name;
      MatchedDistinct(users, init);
      assert !Listed(init, m);
      if m in Matched(users, init) {
        MatchedListed(users, init, m);
      }
    }
  }

  /** A name that no listed member carries is left over exactly if it was wanted. */
  lemma {:induction false} LeftoverUnlisted(users: seq<string>, members: seq<Member>, x: string)
    requires !Listed(members, x)
    ensures x in Leftover(users, members) <==> x in users
  {
    if members != [] {
      var init, m := members[..|members| - 1], members[|members| - 1].name;
      ListedSplit(members, x);
      LeftoverUnlisted(users, init, x);
      var rest := Leftover(users, init);
      RemoveFirstMembers(rest, m);
      assert x in RemoveFirst(rest, m) <==> x in multiset(RemoveFirst(rest, m));
      assert x in rest <==> x in multiset(rest);
    }
  }

  lemma LeftoverWanted(users: seq<string>, members: seq<Member>, x: string)
    requires x in Leftover(users, members)
    ensures x in users
  {
    UsersConserved(users, members);
    assert x in multiset(Leftover(users, members));
    assert x in multiset(users);
  }

  /** A wanted user is left over, or is one of the listed members. */
  lemma WantedIsMatchedOrLeft(users: seq<string>, members: seq<Member>, x: string)
    requires x in users
    ensures x in Leftover(users, members) || Listed(members, x)
  {
    UsersConserved(users, members);
    assert x in multiset(users);
    if x !in Leftover(users, members) {
      assert x in multiset(Matched(users, members));
      MatchedListed(users, members, x);
    }
  }

  lemma {:induction false} ListedIsMatched(users: seq<string>, members: seq<Member>, u: string)
    requires u in users && u != "admin" && Listed(members, u) && DistinctNames(members)
    ensures u in Matched(users, members)
  {
    var init, m := members[..|members| - 1], members[|members| - 1].name;
    ListedSplit(members, u);
    if m == u {
      assert !Listed(init, u);
      LeftoverUnlisted(users, init, u);
    } else {
      ListedIsMatched(users, init, u);
    }
  }

  ghost predicate AllPresent(users: seq<string>, p: Project) {
    NoDuplicates(users) && forall u | u in users :: u in p.members && u != "admin"
  }

  lemma ListedIsMember(members: seq<Member>, p: Project, x: string)
    requires IsListingOf(members, p.members)
    ensures Listed(members, x) <==> x in p.members
  {
  }

  /** Nothing is left to add exactly when each wanted user is a distinct member other than the administrator. */
  lemma NothingLeftOver(users: seq<string>, p: Project, members: seq<Member>)
    requires IsListingOf(members, p.members)
    ensures Leftover(users, members) == [] <==> AllPresent(users, p)
  {
    UsersConserved(users, members);
    MatchedDistinct(users, members);
    var left, matched := Leftover(users, members), Matched(users, members);
    if left == [] {
      PermutedElements(matched, users);
      forall u | u in users ensures u in p.members && u != "admin" {
        assert u in Elements(matched);
        MatchedListed(users, members, u);
      }
    } else {
      var u := left[0];
      LeftoverWanted(users, members, u);
      if u in p.members && u != "admin" {
        ListedIsMember(members, p, u);
        ListedIsMatched(users, members, u);
        assert u in multiset(left) && u in multiset(matched);
        assert multiset(users)[u] >= 2;
        if NoDuplicates(users) { NoDuplicatesIsSet(users); }
      }
    }
  }
}
