/**
 The registry as its client library shows it. Any call may fail, and a call that reports
 failure may still have taken effect; a `reliable` registry fails only for a reason the
 state gives.
 */
module HarborSdk {
  import opened Basics

  /** Members by name with their ids; the account in use is "admin". */
  datatype Project = Project(members: map<string, int>, robots: nat, repositories: seq<string>)

  datatype Status = Done | Missing | Conflict | Broken

  /** A deletion asked of the registry. */
  datatype Removal = OfRepository(project: string, repository: string) | OfProject(project: string)

  const NEW_PROJECT := Project(map["admin" := 1], 0, [])

  ghost predicate DistinctIDs(members: map<string, int>) {
    forall m, n | m in members && n in members && m != n :: members[m] != members[n]
  }

  function WithoutID(members: map<string, int>, id: int): map<string, int> {
    map m | m in members && members[m] != id :: members[m]
  }

  class Harbor {
    var projects: map<string, Project>
    var known: set<string>
    var nextID: int
    const reliable: bool

    // What has been asked of the registry so far.
    ghost var failures: nat              // calls that returned an error
    ghost var changes: nat               // calls issued that may change the registry
    ghost var attempts: multiset<string> // projects named by listMembers and createProject
    ghost var deletions: set<string>     // projects named by deleteProject
    ghost var removals: seq<Removal>     // deletions of repositories and projects, in order
    ghost var creations: multiset<string> // createProject calls that succeeded
    ghost var robots: multiset<string>   // createRobot calls since the project's last successful creation

    ghost predicate Valid()
      reads this
    {
      && 1 < nextID
      && forall p | p in projects ::
           && DistinctIDs(projects[p].members)
           && NoDuplicates(projects[p].repositories)
           && forall m | m in projects[p].members :: projects[p].members[m] < nextID
    }

    /** Nondeterministic trouble: `failed` is reported, `happened` says whether the effect took place. */
    method Trouble() returns (failed: bool, happened: bool)
      ensures reliable ==> !failed
      ensures !failed ==> happened
    {
      failed := *;
      happened := *;
      if reliable {
        failed := false;
      }
      if !failed {
        happened := true;
      }
    }

    method PostProject(name: string) returns (s: Status)
      requires Valid()
      modifies this`projects
      ensures Valid()
      ensures name in old(projects) ==> s != Done && projects == old(projects)
      ensures projects == old(projects) || (name !in old(projects) && projects == old(projects)[name := NEW_PROJECT])
      ensures s == Done ==> name in projects
      ensures reliable && name !in old(projects) ==> s == Done
    {
      if name in projects {
        return Conflict;
      }
      var failed, happened := Trouble();
      if happened {
        projects := projects[name := NEW_PROJECT];
      }
      s := if failed then Broken else Done;
    }

    /** A project with repositories left cannot be deleted. */
    method RemoveProject(name: string) returns (s: Status)
      requires Valid()
      modifies this`projects
      ensures Valid()
      ensures projects == old(projects) || projects == old(projects) - {name}
      ensures s == Done ==> projects == old(projects) - {name}
      ensures name !in old(projects) || old(projects)[name].repositories != [] ==>
                s != Done && projects == old(projects)
      ensures reliable && name in old(projects) && old(projects)[name].repositories == [] ==> s == Done
    {
      if name !in projects {
        return Missing;
      }
      if projects[name].repositories != [] {
        return Conflict;
      }
      var failed, happened := Trouble();
      if happened {
        projects := projects - {name};
      }
      s := if failed then Broken else Done;
    }

    /** Removes the named repository, if it is there. */
    method RemoveRepository(name: string, repository: string) returns (s: Status)
      requires Valid()
      modifies this`projects
      ensures Valid()
      ensures projects == old(projects)
           || (name in old(projects) && repository in old(projects)[name].repositories
               && projects == old(projects)[name := WithoutRepository(old(projects)[name], repository)])
      ensures s == Done ==> name in old(projects) && repository in old(projects)[name].repositories
      ensures s == Done ==> projects == old(projects)[name := WithoutRepository(old(projects)[name], repository)]
      ensures reliable && name in old(projects) && repository in old(projects)[name].repositories ==> s == Done
    {
      if name !in projects || repository !in projects[name].repositories {
        return Missing;
      }
      var failed, happened := Trouble();
      if happened {
        RemoveKeepsDistinct(projects[name].repositories, repository);
        projects := projects[name := WithoutRepository(projects[name], repository)];
      }
      s := if failed then Broken else Done;
    }

    method PostMember(name: string, username: string) returns (s: Status)
      requires Valid()
      modifies this`projects, this`nextID
      ensures Valid()
      ensures projects == old(projects)
           || (name in old(projects) && username in known && username !in old(projects)[name].members
               && projects == old(projects)[name := WithMember(old(projects)[name], username, old(nextID))])
      ensures s == Done ==> name in projects && username in projects[name].members
      ensures s == Missing <==> name !in old(projects) || username !in known
      ensures s == Conflict <==> name in old(projects) && username in known && username in old(projects)[name].members
      ensures reliable ==> s != Broken
    {
      if name !in projects || username !in known {
        return Missing;
      }
      if username in projects[name].members {
        return Conflict;
      }
      var failed, happened := Trouble();
      if happened {
        projects := projects[name := WithMember(projects[name], username, nextID)];
        nextID := nextID + 1;
      }
      s := if failed then Broken else Done;
    }

    method RemoveMember(name: string, id: int) returns (s: Status)
      requires Valid()
      modifies this`projects
      ensures Valid()
      ensures projects == old(projects)
           || (name in old(projects) && projects == old(projects)[name := WithoutMember(old(projects)[name], id)])
      ensures s == Done ==>
                name in old(projects) && projects == old(projects)[name := WithoutMember(old(projects)[name], id)]
      ensures reliable && name in old(projects) && id in old(projects)[name].members.Values ==> s == Done
    {
      if name !in projects || id !in projects[name].members.Values {
        return Missing;
      }
      var failed, happened := Trouble();
      if happened {
        projects := projects[name := WithoutMember(projects[name], id)];
      }
      s := if failed then Broken else Done;
    }

    /** One robot account of the fixed name per project. */
    method PostRobot(name: string) returns (s: Status)
      requires Valid()
      modifies this`projects
      ensures Valid()
      ensures projects == old(projects)
           || (name in old(projects) && old(projects)[name].robots == 0
               && projects == old(projects)[name := old(projects)[name].(robots := 1)])
      ensures s == Done ==> name in old(projects) && old(projects)[name].robots == 0
      ensures s == Done ==> projects == old(projects)[name := old(projects)[name].(robots := 1)]
      ensures reliable && name in old(projects) && old(projects)[name].robots == 0 ==> s == Done
    {
      if name !in projects {
        return Missing;
      }
      if projects[name].robots > 0 {
        return Conflict;
      }
      var failed, happened := Trouble();
      if happened {
        projects := projects[name := projects[name].(robots := 1)];
      }
      s := if failed then Broken else Done;
    }
  }

  function WithMember(p: Project, username: string, id: int): Project {
    p.(members := p.members[username := id])
  }

  function WithoutMember(p: Project, id: int): Project {
    p.(members := WithoutID(p.members, id))
  }

  function WithoutRepository(p: Project, repository: string): Project {
    p.(repositories := Remove(p.repositories, repository))
  }

  function Remove(s: seq<string>, x: string): (r: seq<string>)
    ensures forall y :: y in r <==> y in s && y != x
  {
    if s == [] then []
    else if s[0] == x then Remove(s[1..], x)
    else [s[0]] + Remove(s[1..], x)
  }

  lemma {:induction false} RemoveKeepsDistinct(s: seq<string>, x: string)
    requires NoDuplicates(s)
    ensures NoDuplicates(Remove(s, x))
  {
    if s != [] {
      RemoveKeepsDistinct(s[1..], x);
      var r := Remove(s[1..], x);
      assert s[0] !in s[1..];
      assert forall i | 0 <= i < |r| :: r[i] in r && r[i] in s[1..];
    }
  }
}
