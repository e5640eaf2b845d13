/**
 What a reader of the store can rely on, operation by operation and across operations:
 everything here is said of workspaces as they read back, in the words of the inputs.
 */
module StoreLaws {
  import opened Basics
  import opened Model
  import opened MapStore
  import opened StoreRuns

  ghost function Get(s: Store, id: ID): Workspace
    requires id in s.data
  {
    View(id, s.data[id])
  }

  ghost predicate HasUser(ws: Workspace, username: string, email: string) {
    WorkspaceUser(username, email) in ws.users
  }

  /** A request as submitted, but for the order of its users, who are sorted. */
  ghost predicate IsCopy(req: WorkspaceUpdate, upd: WorkspaceUpdate) {
    && req.workspaceID == upd.workspaceID && req.byUser == upd.byUser
    && req.enabled == upd.enabled && req.nodegroup == upd.nodegroup && req.userdata == upd.userdata
    && req.quotas == upd.quotas
    && multiset(req.users) == multiset(upd.users) && SortedBy(req.users, Leq)
  }

  /** These users are shown for these members. */
  ghost predicate ShownFor(shown: seq<WorkspaceUser>, users: map<string, Option<string>>) {
    forall u, e :: WorkspaceUser(u, e) in shown <==> u in users && Coalesce(users[u]) == e
  }

  lemma MembersShown(users: map<string, Option<string>>)
    ensures ShownFor(MembersOf(users), users)
    ensures Elements(Usernames(MembersOf(users))) == users.Keys && NoDuplicates(Usernames(MembersOf(users)))
  {
    var members := MembersOf(users);
    forall u, e ensures WorkspaceUser(u, e) in members <==> u in users && Coalesce(users[u]) == e {
      MemberShown(users, u, e);
    }
  }

  lemma MemberShown(users: map<string, Option<string>>, username: string, email: string)
    ensures WorkspaceUser(username, email) in MembersOf(users)
       <==> username in users && Coalesce(users[username]) == email
  {
    var members := MembersOf(users);
    forall i: nat | i < |members|
      ensures members[i].username in users && members[i].email == Coalesce(users[members[i].username])
    {
      MemberAt(users, i);
    }
    if username in users {
      var i := MemberExists(users, username);
    }
  }

  lemma SortedRequestIsCopy(upd: WorkspaceUpdate)
    ensures IsCopy(SortedRequest(upd), upd)
  {
    LeqIsTotalOrder();
    SortSorts(upd.users, Leq);
  }

  // ---- What each operation leaves -----------------------------------------------------------

  /** The first user is shown with the email, everyone else as invited, each once. */
  ghost predicate StartsWith(r: Workspace, users: seq<WorkspaceUser>, email: string) {
    && Elements(Usernames(r.users)) == Elements(Usernames(users)) && |r.users| == |users| > 0
    && HasUser(r, users[0].username, email)
    && forall i | 0 < i < |users| :: HasUser(r, users[i].username, "")
  }

  lemma InitialStarts(r: Workspace, users: seq<WorkspaceUser>, email: string)
    requires users != [] && NoDuplicates(Usernames(users)) && NoDuplicates(Usernames(r.users))
    requires ShownFor(r.users, InitialMembers(Usernames(users), email))
    requires Elements(Usernames(r.users)) == InitialMembers(Usernames(users), email).Keys
    ensures StartsWith(r, users, email)
  {
    var names := Usernames(users);
    var members := InitialMembers(names, email);
    assert members.Keys == Elements(names);
    SameSize(Usernames(r.users), names);
    forall i | 0 < i < |users| ensures HasUser(r, users[i].username, "") {
      assert names[0] != names[i];
    }
  }

  /** A new workspace: not created, not enabled, and with a request for all it was asked to be. */
  lemma CreatedReadsBack(s: Store, ws: Workspace, email: string)
    requires Apply(s, Create(ws, email)).error == None
    ensures s.nextID in Apply(s, Create(ws, email)).store.data
    ensures var r := Get(Apply(s, Create(ws, email)).store, s.nextID);
            && r.id == s.nextID && !r.created && !r.enabled
            && r.nodegroup == ws.nodegroup && r.userdata == ws.userdata && r.quotas == ws.quotas
            && StartsWith(r, ws.users, email)
            && r.request.Some?
            && IsCopy(r.request.value, WorkspaceUpdate(s.nextID, ws.users[0].username, true, ws.nodegroup, ws.userdata,
                                                       ws.quotas, Usernames(ws.users)))
  {
    var t := Apply(s, Create(ws, email)).store;
    MembersShown(t.data[s.nextID].users);
    InitialStarts(Get(t, s.nextID), ws.users, email);
    SortedRequestIsCopy(InitialRequest(ws).(workspaceID := s.nextID));
  }

  lemma SameSize(a: seq<string>, b: seq<string>)
    requires NoDuplicates(a) && NoDuplicates(b) && Elements(a) == Elements(b)
    ensures |a| == |b|
  {
    NoDuplicatesIsSet(a);
    NoDuplicatesIsSet(b);
  }

  /** From `was` to `r` the users are these: whoever stays keeps the email, whoever is new is invited. */
  ghost predicate UsersBecome(was: Workspace, r: Workspace, names: seq<string>) {
    && Elements(Usernames(r.users)) == Elements(names) && |r.users| == |names|
    && (forall u, e | HasUser(was, u, e) && u in names :: HasUser(r, u, e))
    && (forall u | u in names && u !in Usernames(was.users) :: HasUser(r, u, ""))
  }

  lemma UpdatedBecome(was: Workspace, r: Workspace, users: map<string, Option<string>>, names: seq<string>)
    requires NoDuplicates(names) && NoDuplicates(Usernames(r.users))
    requires ShownFor(was.users, users) && ShownFor(r.users, UpdatedMembers(users, names))
    requires Elements(Usernames(was.users)) == users.Keys
    requires Elements(Usernames(r.users)) == UpdatedMembers(users, names).Keys
    ensures UsersBecome(was, r, names)
  {
    assert UpdatedMembers(users, names).Keys == Elements(names);
    SameSize(Usernames(r.users), names);
    forall u | u in names && u !in Usernames(was.users) ensures HasUser(r, u, "") {
      assert u !in Elements(Usernames(was.users));
    }
  }

  /** Whether or not a request was pending: the update's attributes, exactly its users, and no request. */
  lemma UpdatedReadsBack(s: Store, upd: WorkspaceUpdate)
    requires Apply(s, Update(upd)).error == None
    ensures upd.workspaceID in s.data && upd.workspaceID in Apply(s, Update(upd)).store.data
    ensures var was, r := Get(s, upd.workspaceID), Get(Apply(s, Update(upd)).store, upd.workspaceID);
            && r.id == upd.workspaceID && r.created == (was.created || upd.enabled) && r.enabled == upd.enabled
            && r.nodegroup == upd.nodegroup && r.userdata == upd.userdata && r.quotas == upd.quotas
            && UsersBecome(was, r, upd.users)
            && r.request == None
  {
    var t, id := Apply(s, Update(upd)).store, upd.workspaceID;
    MembersShown(s.data[id].users);
    MembersShown(t.data[id].users);
    UpdatedBecome(Get(s, id), Get(t, id), s.data[id].users, upd.users);
  }

  /** Only the pending request changes, whatever was pending before. */
  lemma RequestedReadsBack(s: Store, upd: WorkspaceUpdate)
    requires Apply(s, RequestUpdate(upd)).error == None
    ensures upd.workspaceID in s.data && upd.workspaceID in Apply(s, RequestUpdate(upd)).store.data
    ensures var was, r := Get(s, upd.workspaceID), Get(Apply(s, RequestUpdate(upd)).store, upd.workspaceID);
            r.request.Some? && IsCopy(r.request.value, upd) && r.(request := was.request) == was
  {
    SortedRequestIsCopy(upd);
  }

  /** From `was` to `r` this user's email is set. */
  ghost predicate UserJoins(was: Workspace, r: Workspace, username: string, email: string) {
    forall u, e :: HasUser(r, u, e) <==> if u == username then e == email else HasUser(was, u, e)
  }

  /** From `was` to `r` this user has left. */
  ghost predicate UserLeaves(was: Workspace, r: Workspace, username: string) {
    forall u, e :: HasUser(r, u, e) <==> u != username && HasUser(was, u, e)
  }

  lemma SetEmailJoins(was: Workspace, r: Workspace, users: map<string, Option<string>>, username: string, email: string)
    requires username in users
    requires ShownFor(was.users, users) && ShownFor(r.users, users[username := Some(email)])
    ensures UserJoins(was, r, username, email)
    ensures HasUser(was, username, Coalesce(users[username]))
  {
  }

  lemma SetEmailShown(was: Workspace, r: Workspace, users: map<string, Option<string>>, username: string, email: string)
    requires username in users
    requires was.users == MembersOf(users) && r.users == MembersOf(users[username := Some(email)])
    ensures UserJoins(was, r, username, email) && Usernames(r.users) == Usernames(was.users)
    ensures HasUser(was, username, Coalesce(users[username]))
  {
    SameNames(users, users[username := Some(email)]);
    MembersShown(users);
    MembersShown(users[username := Some(email)]);
    SetEmailJoins(was, r, users, username, email);
  }

  lemma SameNames(a: map<string, Option<string>>, b: map<string, Option<string>>)
    requires a.Keys == b.Keys
    ensures Usernames(MembersOf(a)) == Usernames(MembersOf(b))
  {
  }

  lemma RemovedLeaves(was: Workspace, r: Workspace, users: map<string, Option<string>>, username: string)
    requires username in users && ShownFor(was.users, users) && ShownFor(r.users, users - {username})
    ensures UserLeaves(was, r, username)
    ensures HasUser(was, username, Coalesce(users[username]))
  {
  }

  /** One user's email appears, and nothing else changes. */
  lemma AcceptedReadsBack(s: Store, id: ID, username: string, email: string)
    requires Apply(s, Accept(id, username, email)).error == None
    ensures id in s.data && id in Apply(s, Accept(id, username, email)).store.data
    ensures var was, r := Get(s, id), Get(Apply(s, Accept(id, username, email)).store, id);
            && HasUser(was, username, "")
            && r.(users := was.users) == was && Usernames(r.users) == Usernames(was.users)
            && UserJoins(was, r, username, email)
  {
    var t, users := Apply(s, Accept(id, username, email)).store, s.data[id].users;
    assert t.data[id] == s.data[id].(users := users[username := Some(email)]);
    SetEmailShown(Get(s, id), Get(t, id), users, username, email);
  }

  /** One invited user leaves, and nothing else changes. */
  lemma DeclinedReadsBack(s: Store, id: ID, username: string)
    requires Apply(s, Decline(id, username)).error == None
    ensures id in s.data && id in Apply(s, Decline(id, username)).store.data
    ensures var was, r := Get(s, id), Get(Apply(s, Decline(id, username)).store, id);
            HasUser(was, username, "") && r.(users := was.users) == was && UserLeaves(was, r, username)
  {
    var t, users := Apply(s, Decline(id, username)).store, s.data[id].users;
    MembersShown(users);
    MembersShown(users - {username});
    RemovedLeaves(Get(s, id), Get(t, id), users, username);
  }

  // ---- What listings show ------------------------------------------------------------------------

  /** A listed workspace shows, of each state, what its statement reads. */
  ghost predicate ReadFrom(r: Workspace, rows: Store, quotas: Store, users: Store, requests: Store) {
    && r.id in rows.data
    && var row := rows.data[r.id];
    && r.created == row.created && r.enabled == row.enabled
    && r.nodegroup == row.nodegroup && r.userdata == row.userdata
    && r.quotas == (if r.id in quotas.data then quotas.data[r.id].quotas else map[])
    && ShownFor(r.users, if r.id in users.data then users.data[r.id].users else map[])
    && SortedBy(Usernames(r.users), Leq)
    && r.request == (if r.id in requests.data then requests.data[r.id].request else None)
  }

  /** Each of these ids once, ascending. */
  ghost predicate InOrderOfID(list: seq<Workspace>, ids: set<ID>) {
    && (forall i, j | 0 <= i < j < |list| :: list[i].id < list[j].id)
    && (forall r | r in list :: r.id in ids)
    && (forall id | id in ids :: exists r :: r in list && r.id == id)
  }

  lemma OrderedAscend(ids: set<ID>)
    ensures Ascending(OrderedIDs(ids))
  {
    var order := OrderedIDs(ids);
    forall i, j | 0 <= i < j < |order| ensures order[i] < order[j] {
      assert IdLeq(order[i], order[j]) && order[i] != order[j];
    }
  }

  lemma ListedInOrder(list: seq<Workspace>, order: seq<ID>, ids: set<ID>)
    requires |list| == |order| && forall i | 0 <= i < |list| :: list[i].id == order[i]
    requires Ascending(order) && Elements(order) == ids
    ensures InOrderOfID(list, ids)
  {
    forall r | r in list ensures r.id in ids {
      var i :| 0 <= i < |list| && list[i] == r;
      assert order[i] in Elements(order);
    }
    forall id | id in ids ensures exists r :: r in list && r.id == id {
      assert id in Elements(order);
      var i :| 0 <= i < |order| && order[i] == id;
      assert list[i] in list;
    }
  }

  lemma ListedAt(ids: set<ID>, rows: Store, quotas: Store, users: Store, requests: Store, i: nat)
    requires ids <= rows.data.Keys && i < |OrderedIDs(ids)|
    ensures var list := TornListing(rows, quotas, users, requests, ids);
            list[i].id == OrderedIDs(ids)[i] && ReadFrom(list[i], rows, quotas, users, requests)
  {
    var id := OrderedIDs(ids)[i];
    assert id in Elements(OrderedIDs(ids));
    MembersShown(UsersIn(users, id));
    NamesSorted(UsersIn(users, id));
  }

  lemma NamesSorted(users: map<string, Option<string>>)
    ensures SortedBy(Usernames(MembersOf(users)), Leq)
  {
  }

  /** Whatever states its statements see: each workspace asked for once, in ascending order of id. */
  lemma ListingReadsBack(ids: set<ID>, rows: Store, quotas: Store, users: Store, requests: Store)
    ensures ListFrom(ids, rows, quotas, users, requests).Ok? <==> ids <= rows.data.Keys
    ensures ids <= rows.data.Keys ==>
              var list := ListFrom(ids, rows, quotas, users, requests).value;
              && InOrderOfID(list, ids)
              && forall i | 0 <= i < |list| :: ReadFrom(list[i], rows, quotas, users, requests)
  {
    if ids <= rows.data.Keys {
      var list := TornListing(rows, quotas, users, requests, ids);
      forall i: nat | i < |list|
        ensures list[i].id == OrderedIDs(ids)[i] && ReadFrom(list[i], rows, quotas, users, requests)
      {
        ListedAt(ids, rows, quotas, users, requests, i);
      }
      OrderedAscend(ids);
      ListedInOrder(list, OrderedIDs(ids), ids);
    }
  }

  // ---- What each operation leaves alone -------------------------------------------------------

  /** The workspace an operation is about. */
  function Target(s: Store, op: Op): ID {
    match op
    case Create(_, _) => s.nextID
    case Update(upd) => upd.workspaceID
    case RequestUpdate(upd) => upd.workspaceID
    case Delete(id) => id
    case Accept(id, _, _) => id
    case Decline(id, _) => id
  }

  /** Every other workspace is there exactly if it was, and is what it was. */
  lemma OthersUntouched(s: Store, op: Op, id: ID)
    requires id != Target(s, op)
    ensures id in Apply(s, op).store.data <==> id in s.data
    ensures id in s.data ==> Apply(s, op).store.data[id] == s.data[id]
  {
  }

  /** An operation that fails changes no workspace. */
  lemma FailureChangesNothing(s: Store, op: Op)
    requires Apply(s, op).error != None
    ensures Apply(s, op).store.data == s.data
  {
  }

  /** Only a successful deletion removes a workspace, and only a successful creation adds one. */
  lemma PresenceChanges(s: Store, op: Op, id: ID)
    requires Good(s)
    ensures id in s.data && id !in Apply(s, op).store.data <==> op == Delete(id) && id in s.data
    ensures id !in s.data && id in Apply(s, op).store.data <==>
              op.Create? && id == s.nextID && Apply(s, op).error == None
  {
    if id in s.data {
      assert id < s.nextID;
    }
  }

  /** Only creations use up ids: one each, if they get as far as the table. */
  lemma OnlyCreationsIssueIDs(s: Store, op: Op)
    ensures Apply(s, op).store.nextID
         == if op.Create? && ValidWorkspace(op.ws) && s.nextID <= LARGEST then s.nextID + 1 else s.nextID
  {
  }

  // ---- When an operation fails, and how -----------------------------------------------------------

  const LARGEST := 9_223_372_036_854_775_807

  ghost predicate Oversized(quotas: map<Resource, nat>) {
    exists r :: r in quotas && quotas[r] > LARGEST
  }

  /** What validity asks for, spelled out. */
  ghost predicate WellFormed(nodegroup: string, quotas: map<string, nat>, users: seq<string>) {
    && (nodegroup == "undergraduate" || nodegroup == "graduate")
    && (forall r | r in quotas ::
          r in ["requests.cpu", "limits.cpu", "requests.memory", "limits.memory", "requests.storage",
                "requests.nvidia.com/gpu", "requests.nvidia.com/gpumem"])
    && |users| > 0
    && (forall i, j | 0 <= i < |users| && 0 <= j < |users| && users[i] == users[j] :: i == j)
  }

  lemma ValidIsWellFormed(upd: WorkspaceUpdate)
    ensures ValidUpdate(upd) <==> WellFormed(upd.nodegroup, upd.quotas, upd.users)
  {
    assert upd.quotas.Keys <= RESOURCES <==> forall r | r in upd.quotas :: r in RESOURCES;
  }

  lemma CreationFails(s: Store, ws: Workspace, email: string)
    ensures var error, ok := Apply(s, Create(ws, email)).error, WellFormed(ws.nodegroup, ws.quotas, Usernames(ws.users))
              && (ws.request.Some? ==>
                    WellFormed(ws.request.value.nodegroup, ws.request.value.quotas, ws.request.value.users));
            && (error == Some(Invalid) <==> !ok)
            && (error == Some(Failed) <==> ok && (s.nextID > LARGEST || Oversized(ws.quotas)))
            && error != Some(NotFound)
  {
    assert ws.quotas.Keys <= RESOURCES <==> forall r | r in ws.quotas :: r in RESOURCES;
    if ws.request.Some? { ValidIsWellFormed(ws.request.value); }
  }

  lemma UpdateFails(s: Store, upd: WorkspaceUpdate)
    ensures var error, ok := Apply(s, Update(upd)).error, WellFormed(upd.nodegroup, upd.quotas, upd.users);
            && (error == Some(Invalid) <==> !ok)
            && (error == Some(NotFound) <==> ok && upd.workspaceID !in s.data)
            && (error == Some(Failed) <==> ok && upd.workspaceID in s.data && Oversized(upd.quotas))
  {
    ValidIsWellFormed(upd);
  }

  /** Only a member may ask, invited or accepted, and must be among the users asked for. */
  lemma RequestFails(s: Store, upd: WorkspaceUpdate)
    ensures var error := Apply(s, RequestUpdate(upd)).error;
            var ok := WellFormed(upd.nodegroup, upd.quotas, upd.users) && upd.byUser != "" && upd.byUser in upd.users;
            && (error == Some(Invalid) <==> !ok)
            && (error == Some(NotFound) <==>
                  ok && !(upd.workspaceID in s.data && upd.byUser in Usernames(Get(s, upd.workspaceID).users)))
            && error != Some(Failed)
  {
    ValidIsWellFormed(upd);
    if upd.workspaceID in s.data {
      var users := s.data[upd.workspaceID].users;
      assert upd.byUser in NamesOf(users) <==> upd.byUser in Elements(NamesOf(users));
    }
  }

  /** A deleted workspace is gone for every operation that names it. */
  lemma DeletedIsGone(s: Store, id: ID)
    ensures Apply(s, Delete(id)).error == if id in s.data then None else Some(NotFound)
    ensures var t := Apply(s, Delete(id)).store;
            && id !in t.data
            && Apply(t, Delete(id)) == Applied(t, Some(NotFound))
            && (forall upd: WorkspaceUpdate | upd.workspaceID == id ::
                  Apply(t, Update(upd)).error in {Some(NotFound), Some(Invalid)}
                  && Apply(t, RequestUpdate(upd)).error in {Some(NotFound), Some(Invalid)})
            && (forall u, e :: Apply(t, Accept(id, u, e)).error == Some(NotFound))
            && (forall u :: Apply(t, Decline(id, u)).error == Some(NotFound))
  {
  }

  // ---- Across operations --------------------------------------------------------------------------

  /** The workspace a user asked for, in force, with the user accepted and the others invited. */
  ghost predicate IsAsAsked(r: Workspace, ws: Workspace, email: string) {
    && r.created && r.enabled && r.request == None
    && r.nodegroup == ws.nodegroup && r.userdata == ws.userdata && r.quotas == ws.quotas
    && StartsWith(r, ws.users, email)
  }

  /** The workspace before the approval, and its request. */
  ghost predicate Awaits(r: Workspace, ws: Workspace, email: string, req: WorkspaceUpdate) {
    && r.request == Some(req) && req.enabled
    && req.nodegroup == ws.nodegroup && req.userdata == ws.userdata && req.quotas == ws.quotas
    && Elements(req.users) == Elements(Usernames(ws.users))
    && |req.users| == |ws.users| && StartsWith(r, ws.users, email)
  }

  lemma CreatedAwaits(s: Store, ws: Workspace, email: string)
    requires Apply(s, Create(ws, email)).error == None
    ensures var t := Apply(s, Create(ws, email)).store;
            && s.nextID in t.data && t.data[s.nextID].request.Some?
            && Awaits(Get(t, s.nextID), ws, email, t.data[s.nextID].request.value)
            && t.data[s.nextID].request.value.workspaceID == s.nextID
            && ValidUpdate(t.data[s.nextID].request.value)
  {
    CreatedReadsBack(s, ws, email);
    var t, names := Apply(s, Create(ws, email)).store, Usernames(ws.users);
    SortedRequestIsGood(s.nextID, InitialRequest(ws).(workspaceID := s.nextID));
    PermutedElements(t.data[s.nextID].request.value.users, names);
  }

  lemma ApprovedIsAsAsked(t: Store, id: ID, ws: Workspace, email: string)
    requires id in t.data && t.data[id].request.Some?
    requires Awaits(Get(t, id), ws, email, t.data[id].request.value) && t.data[id].request.value.workspaceID == id
    requires Apply(t, Update(t.data[id].request.value)).error == None
    ensures var a := Apply(t, Update(t.data[id].request.value));
            id in a.store.data && IsAsAsked(Get(a.store, id), ws, email)
  {
    var req, names := t.data[id].request.value, Usernames(ws.users);
    UpdatedReadsBack(t, req);
    forall i | 0 <= i < |ws.users| ensures ws.users[i].username in req.users {
      assert names[i] in Elements(names);
      assert names[i] in Elements(req.users);
    }
  }

  /** A new workspace becomes what was asked for once its first request is approved as it stands. */
  lemma CreateThenApprove(s: Store, ws: Workspace, email: string)
    requires Apply(s, Create(ws, email)).error == None
    ensures var t := Apply(s, Create(ws, email)).store;
            && s.nextID in t.data && t.data[s.nextID].request.Some?
            && var a := Apply(t, Update(t.data[s.nextID].request.value));
            && a.error == None && s.nextID in a.store.data
            && IsAsAsked(Get(a.store, s.nextID), ws, email)
  {
    CreatedAwaits(s, ws, email);
    ApprovedIsAsAsked(Apply(s, Create(ws, email)).store, s.nextID, ws, email);
  }

  /** Requesting a change and approving the request is making the change. */
  lemma RequestThenApprove(s: Store, upd: WorkspaceUpdate)
    requires Apply(s, RequestUpdate(upd)).error == None
    ensures var t := Apply(s, RequestUpdate(upd)).store;
            && upd.workspaceID in t.data && t.data[upd.workspaceID].request.Some?
            && var req := t.data[upd.workspaceID].request.value;
            && Apply(t, Update(req)).error == Apply(s, Update(upd)).error
            && (Apply(s, Update(upd)).error == None ==> Apply(t, Update(req)).store == Apply(s, Update(upd)).store)
  {
    var t := Apply(s, RequestUpdate(upd)).store;
    var req := t.data[upd.workspaceID].request.value;
    LeqIsTotalOrder();
    SortSorts(upd.users, Leq);
    UpdateIgnoresUserOrder(t, req, upd);
    if Apply(s, Update(upd)).error == None {
      var e, f := s.data[upd.workspaceID], t.data[upd.workspaceID];
      assert UpdatedMembers(e.users, upd.users) == UpdatedMembers(f.users, upd.users);
      assert t.data[upd.workspaceID := UpdatedEntry(f, upd)] == s.data[upd.workspaceID := UpdatedEntry(e, upd)];
    }
  }

  /** Making a change again changes nothing more. */
  lemma UpdateIsIdempotent(s: Store, upd: WorkspaceUpdate)
    ensures var t := Apply(s, Update(upd)).store;
            Apply(t, Update(upd)) == Applied(t, Apply(s, Update(upd)).error)
  {
    var t := Apply(s, Update(upd)).store;
    if Apply(s, Update(upd)).error == None {
      var id := upd.workspaceID;
      assert UpdatedMembers(t.data[id].users, upd.users) == t.data[id].users;
      assert t.data[id := t.data[id]] == t.data;
    }
  }

  lemma RequestKeepsRest(s: Store, upd: WorkspaceUpdate)
    requires Apply(s, RequestUpdate(upd)).error == None
    ensures upd.workspaceID in s.data
    ensures var e := s.data[upd.workspaceID].(request := Some(SortedRequest(upd)));
            Apply(s, RequestUpdate(upd)).store == s.(data := s.data[upd.workspaceID := e])
  {
  }

  lemma Overwrite<K, V>(m: map<K, V>, k: K, a: V, b: V)
    ensures m[k := a][k := b] == m[k := b]
  {
  }

  lemma SameAnswer(s: Store, t: Store, b: WorkspaceUpdate, req: Option<WorkspaceUpdate>)
    requires b.workspaceID in s.data
    requires t == s.(data := s.data[b.workspaceID := s.data[b.workspaceID].(request := req)])
    ensures Apply(t, RequestUpdate(b)).error == Apply(s, RequestUpdate(b)).error
  {
  }

  /** Of two requests for one workspace only the later is kept. */
  lemma LastRequestWins(s: Store, a: WorkspaceUpdate, b: WorkspaceUpdate)
    requires a.workspaceID == b.workspaceID
    ensures var t := Apply(s, RequestUpdate(a)).store;
            && Apply(t, RequestUpdate(b)).error == Apply(s, RequestUpdate(b)).error
            && (Apply(s, RequestUpdate(b)).error == None ==>
                  Apply(t, RequestUpdate(b)).store == Apply(s, RequestUpdate(b)).store)
  {
    if Apply(s, RequestUpdate(a)).error == None {
      RequestKeepsRest(s, a);
      var id, t := a.workspaceID, Apply(s, RequestUpdate(a)).store;
      SameAnswer(s, t, b, Some(SortedRequest(a)));
      if Apply(s, RequestUpdate(b)).error == None {
        RequestKeepsRest(s, b);
        RequestKeepsRest(t, b);
        Overwrite(s.data, id, t.data[id], s.data[id].(request := Some(SortedRequest(b))));
      }
    } else {
      FailureChangesNothing(s, RequestUpdate(a));
      OnlyCreationsIssueIDs(s, RequestUpdate(a));
    }
  }

  /** An invitation accepted moves from the one listing to the other, and can be neither accepted nor declined again. */
  lemma AcceptMoves(s: Store, id: ID, username: string, email: string)
    requires Apply(s, Accept(id, username, email)).error == None
    ensures var t := Apply(s, Accept(id, username, email)).store;
            && MemberIDs(t, username, true) == MemberIDs(s, username, true) + {id}
            && MemberIDs(t, username, false) == MemberIDs(s, username, false) - {id}
            && id in MemberIDs(s, username, false)
            && (forall e :: Apply(t, Accept(id, username, e)).error == Some(NotFound))
            && Apply(t, Decline(id, username)).error == Some(NotFound)
  {
  }

  /** One declined leaves both, and can only come back by an update. */
  lemma DeclineLeaves(s: Store, id: ID, username: string)
    requires Apply(s, Decline(id, username)).error == None
    ensures var t := Apply(s, Decline(id, username)).store;
            && MemberIDs(t, username, false) == MemberIDs(s, username, false) - {id}
            && MemberIDs(t, username, true) == MemberIDs(s, username, true)
            && id in MemberIDs(s, username, false) && id !in MemberIDs(s, username, true)
            && (forall e :: Apply(t, Accept(id, username, e)).error == Some(NotFound))
  {
  }

  // ---- Over runs -----------------------------------------------------------------------------------

  /** Step `i` is an update of `id` that succeeds and enables it. */
  ghost predicate EnabledAt(ops: seq<Op>, i: nat, id: ID) {
    && i < |ops| && ops[i].Update? && ops[i].upd.workspaceID == id && ops[i].upd.enabled
    && Apply(Run(ops[..i]), ops[i]).error == None
  }

  ghost predicate EverEnabled(ops: seq<Op>, n: nat, id: ID) {
    exists i: nat :: i < n && EnabledAt(ops, i, id)
  }

  lemma EnabledByThen(ops: seq<Op>, n: nat, id: ID)
    requires 0 < n
    ensures EverEnabled(ops, n, id) <==> EverEnabled(ops, n - 1, id) || EnabledAt(ops, n - 1, id)
  {
  }

  /** A stored workspace is listed for the worker exactly if it has ever been enabled. */
  lemma {:induction false} CreatedIffEverEnabled(ops: seq<Op>, n: nat, id: ID)
    requires n <= |ops| && id in Run(ops[..n]).data
    ensures id in CreatedIDs(Run(ops[..n])) <==> EverEnabled(ops, n, id)
  {
    if n > 0 {
      RunPrefix(ops, n);
      EnabledByThen(ops, n, id);
      if id in Run(ops[..n - 1]).data {
        RunsStayGood(ops[..n - 1]);
        CreatedIffEverEnabled(ops, n - 1, id);
        CreatedStep(Run(ops[..n - 1]), ops[n - 1], id);
      } else {
        NeverEnabledBefore(ops, n - 1, id);
      }
    }
  }

  lemma CreatedStep(s: Store, op: Op, id: ID)
    requires Good(s) && id in s.data && id in Apply(s, op).store.data
    ensures id in CreatedIDs(Apply(s, op).store) <==>
              id in CreatedIDs(s)
              || (op.Update? && op.upd.workspaceID == id && op.upd.enabled && Apply(s, op).error == None)
  {
  }

  /** An id about to be issued has had no updates. */
  lemma NeverEnabledBefore(ops: seq<Op>, n: nat, id: ID)
    requires n < |ops| && id !in Run(ops[..n]).data && id in Apply(Run(ops[..n]), ops[n]).store.data
    ensures !EverEnabled(ops, n + 1, id)
    ensures id !in CreatedIDs(Apply(Run(ops[..n]), ops[n]).store)
  {
    RunsStayGood(ops[..n]);
    PresenceChanges(Run(ops[..n]), ops[n], id);
    forall i: nat | i < n + 1 ensures !EnabledAt(ops, i, id) {
      if i <= n && EnabledAt(ops, i, id) {
        RunsStayGood(ops[..i]);
        NextIDNeverDecreases(ops, i, n);
      }
    }
  }
}
