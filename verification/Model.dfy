/** Workspaces, requested updates and their validity. */
module Model {
  import opened Basics

  type ID = int
  type Resource = string
  type Nodegroup = string

  datatype WorkspaceUser = WorkspaceUser(username: string, email: string) {
    /** An empty email marks a pending invitation. */
    predicate IsAccepted() {
      email != ""
    }
  }

  datatype WorkspaceUpdate = WorkspaceUpdate(
    workspaceID: ID, byUser: string,
    enabled: bool, nodegroup: Nodegroup, userdata: string,
    quotas: map<Resource, nat>, users: seq<string>)

  datatype Workspace = Workspace(
    id: ID, created: bool, enabled: bool, nodegroup: Nodegroup, userdata: string,
    quotas: map<Resource, nat>, users: seq<WorkspaceUser>,
    request: Option<WorkspaceUpdate>)

  const MEMORY_LIMIT := "limits.memory"
  const MEMORY_REQUEST := "requests.memory"
  const STORAGE_REQUEST := "requests.storage"
  const GPU_MEMORY_REQUEST := "requests.nvidia.com/gpumem"

  const RESOURCES: set<Resource> := {
    "requests.cpu", "limits.cpu", MEMORY_REQUEST, MEMORY_LIMIT,
    STORAGE_REQUEST, "requests.nvidia.com/gpu", GPU_MEMORY_REQUEST
  }

  const NODEGROUPS: set<Nodegroup> := {"undergraduate", "graduate"}

  function Usernames(users: seq<WorkspaceUser>): (names: seq<string>)
    ensures |names| == |users|
    ensures forall i | 0 <= i < |users| :: names[i] == users[i].username
  {
    seq(|users|, i requires 0 <= i < |users| => users[i].username)
  }

  /** What both validity checks ask of the fields a request and a workspace share. */
  ghost predicate ValidFields(nodegroup: Nodegroup, quotas: map<Resource, nat>, usernames: seq<string>) {
    && nodegroup in NODEGROUPS
    && quotas.Keys <= RESOURCES
    && usernames != []
    && NoDuplicates(usernames)
  }

  ghost predicate ValidUpdate(upd: WorkspaceUpdate) {
    ValidFields(upd.nodegroup, upd.quotas, upd.users)
  }

  ghost predicate ValidWorkspace(ws: Workspace) {
    && ValidFields(ws.nodegroup, ws.quotas, Usernames(ws.users))
    && (ws.request.Some? ==> ValidUpdate(ws.request.value))
  }

  method QuotaKeysValid(quotas: map<Resource, nat>) returns (ok: bool)
    ensures ok <==> quotas.Keys <= RESOURCES
  {
    var left := quotas.Keys;
    while left != {}
      invariant left <= quotas.Keys
      invariant quotas.Keys - left <= RESOURCES
      decreases left
    {
      var quota :| quota in left;
      if quota !in RESOURCES {
        return false;
      }
      left := left - {quota};
    }
    return true;
  }

  /** WorkspaceUpdate.Valid. */
  method UpdateValid(upd: WorkspaceUpdate) returns (ok: bool)
    ensures ok <==> ValidUpdate(upd)
  {
    if upd.nodegroup !in NODEGROUPS {
      return false;
    }
    var quotasOk := QuotaKeysValid(upd.quotas);
    if !quotasOk {
      return false;
    }
    var uniqueUsers: set<string> := {};
    for i := 0 to |upd.users|
      invariant uniqueUsers == Elements(upd.users[..i])
    {
      uniqueUsers := uniqueUsers + {upd.users[i]};
      assert upd.users[..i + 1] == upd.users[..i] + [upd.users[i]];
    }
    UniqueCountMeansNoDuplicates(upd.users, uniqueUsers);
    if |uniqueUsers| != |upd.users| || |uniqueUsers| == 0 {
      return false;
    }
    return true;
  }

  /** Workspace.Valid. */
  method WorkspaceValid(ws: Workspace) returns (ok: bool)
    ensures ok <==> ValidWorkspace(ws)
  {
    if ws.nodegroup !in NODEGROUPS {
      return false;
    }
    var quotasOk := QuotaKeysValid(ws.quotas);
    if !quotasOk {
      return false;
    }
    var uniqueUsers: set<string> := {};
    for i := 0 to |ws.users|
      invariant uniqueUsers == Elements(Usernames(ws.users)[..i])
    {
      uniqueUsers := uniqueUsers + {ws.users[i].username};
      assert Usernames(ws.users)[..i + 1] == Usernames(ws.users)[..i] + [ws.users[i].username];
    }
    UniqueCountMeansNoDuplicates(Usernames(ws.users), uniqueUsers);
    if |uniqueUsers| != |ws.users| || |uniqueUsers| == 0 {
      return false;
    }
    if ws.request.Some? {
      var requestOk := UpdateValid(ws.request.value);
      if !requestOk {
        return false;
      }
    }
    return true;
  }

  lemma UniqueCountMeansNoDuplicates(names: seq<string>, unique: set<string>)
    requires unique == Elements(names[..|names|])
    ensures |unique| == |names| <==> NoDuplicates(names)
    ensures |unique| == 0 <==> names == []
  {
    assert names[..|names|] == names;
    SetSizeMeansNoDuplicates(names);
    if NoDuplicates(names) {
      NoDuplicatesIsSet(names);
    }
    if names != [] {
      assert names[0] in unique;
    }
  }

  /** The request a new workspace starts with: its own attributes, but enabled. */
  function InitialRequest(ws: Workspace): (upd: WorkspaceUpdate)
    requires ws.users != []
    ensures ValidWorkspace(ws) ==> ValidUpdate(upd)
    ensures upd.byUser in upd.users && upd.enabled
  {
    var names := Usernames(ws.users);
    assert names[0] in names;
    WorkspaceUpdate(ws.id, names[0], true, ws.nodegroup, ws.userdata, ws.quotas, names)
  }
}
