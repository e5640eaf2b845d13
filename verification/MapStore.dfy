/**
 The workspace service as a map from ID to entry: the simple form both
 implementations are measured against. An entry's member carries `Some(email)` once
 accepted and `None` while the invitation is pending.
 */
module MapStore {
  import opened Basics
  import opened Model

  const MAX_BIGINT := 0x7fff_ffff_ffff_ffff

  datatype Entry = Entry(
    created: bool, enabled: bool, nodegroup: Nodegroup, userdata: string,
    quotas: map<Resource, nat>, users: map<string, Option<string>>,
    request: Option<WorkspaceUpdate>)

  datatype Store = Store(data: map<ID, Entry>, nextID: ID)

  const EMPTY := Store(map[], 1)

  datatype Op =
    | Create(ws: Workspace, email: string)
    | Update(upd: WorkspaceUpdate)
    | RequestUpdate(upd: WorkspaceUpdate)
    | Delete(id: ID)
    | Accept(id: ID, username: string, email: string)
    | Decline(id: ID, username: string)

  datatype Applied = Applied(store: Store, error: Option<Error>)

  ghost predicate FitsBigint(quotas: map<Resource, nat>) {
    forall r | r in quotas :: quotas[r] <= MAX_BIGINT
  }

  ghost function SortedRequest(upd: WorkspaceUpdate): WorkspaceUpdate {
    upd.(users := Sort(upd.users, Leq))
  }

  /** The creator is accepted with their email, everyone else is invited. */
  ghost function InitialMembers(names: seq<string>, email: string): map<string, Option<string>>
    requires names != []
  {
    map u | u in names :: if u == names[0] then Some(email) else None
  }

  /** Members who stay keep their acceptance, new ones are invited. */
  ghost function UpdatedMembers(users: map<string, Option<string>>, names: seq<string>): map<string, Option<string>> {
    map u | u in names :: if u in users then users[u] else None
  }

  ghost function InitialEntry(id: ID, ws: Workspace, email: string): Entry
    requires ws.users != []
  {
    Entry(false, false, ws.nodegroup, ws.userdata, ws.quotas,
          InitialMembers(Usernames(ws.users), email),
          Some(SortedRequest(InitialRequest(ws).(workspaceID := id))))
  }

  ghost function UpdatedEntry(e: Entry, upd: WorkspaceUpdate): Entry {
    Entry(e.created || upd.enabled, upd.enabled, upd.nodegroup, upd.userdata, upd.quotas,
          UpdatedMembers(e.users, upd.users), None)
  }

  ghost predicate Pending(s: Store, id: ID, username: string) {
    id in s.data && username in s.data[id].users && s.data[id].users[username] == None
  }

  ghost predicate AcceptedWith(s: Store, id: ID, username: string, email: string) {
    id in s.data && username in s.data[id].users && s.data[id].users[username] == Some(email)
  }

  ghost function WithUsers(s: Store, id: ID, users: map<string, Option<string>>): Store
    requires id in s.data
  {
    s.(data := s.data[id := s.data[id].(users := users)])
  }

  ghost function ApplyCreate(s: Store, ws: Workspace, email: string): Applied {
    if !ValidWorkspace(ws) then Applied(s, Some(Invalid))
    else if s.nextID > MAX_BIGINT then Applied(s, Some(Failed))
    else
      var t := s.(nextID := s.nextID + 1); // a sequence does not roll back
      if !FitsBigint(ws.quotas) then Applied(t, Some(Failed))
      else Applied(t.(data := s.data[s.nextID := InitialEntry(s.nextID, ws, email)]), None)
  }

  ghost function ApplyUpdate(s: Store, upd: WorkspaceUpdate): Applied {
    if !ValidUpdate(upd) then Applied(s, Some(Invalid))
    else if upd.workspaceID !in s.data then Applied(s, Some(NotFound))
    else if !FitsBigint(upd.quotas) then Applied(s, Some(Failed))
    else
      var e := UpdatedEntry(s.data[upd.workspaceID], upd);
      Applied(s.(data := s.data[upd.workspaceID := e]), None)
  }

  ghost function ApplyRequest(s: Store, upd: WorkspaceUpdate): Applied {
    if !ValidUpdate(upd) || upd.byUser == "" || upd.byUser !in upd.users then Applied(s, Some(Invalid))
    else if upd.workspaceID !in s.data || upd.byUser !in s.data[upd.workspaceID].users then
      Applied(s, Some(NotFound))
    else
      var e := s.data[upd.workspaceID].(request := Some(SortedRequest(upd)));
      Applied(s.(data := s.data[upd.workspaceID := e]), None)
  }

  ghost function ApplyDelete(s: Store, id: ID): Applied {
    if id !in s.data then Applied(s, Some(NotFound))
    else Applied(s.(data := s.data - {id}), None)
  }

  ghost function ApplyAccept(s: Store, id: ID, username: string, email: string): Applied {
    if !Pending(s, id, username) then Applied(s, Some(NotFound))
    else Applied(WithUsers(s, id, s.data[id].users[username := Some(email)]), None)
  }

  ghost function ApplyDecline(s: Store, id: ID, username: string): Applied {
    if !Pending(s, id, username) then Applied(s, Some(NotFound))
    else Applied(WithUsers(s, id, s.data[id].users - {username}), None)
  }

  ghost function Apply(s: Store, op: Op): Applied {
    match op
    case Create(ws, email) => ApplyCreate(s, ws, email)
    case Update(upd) => ApplyUpdate(s, upd)
    case RequestUpdate(upd) => ApplyRequest(s, upd)
    case Delete(id) => ApplyDelete(s, id)
    case Accept(id, username, email) => ApplyAccept(s, id, username, email)
    case Decline(id, username) => ApplyDecline(s, id, username)
  }

  // ---- What a reader sees -----------------------------------------------

  function Coalesce(email: Option<string>): string {
    if email.Some? then email.value else ""
  }

  ghost function NamesOf(users: map<string, Option<string>>): (names: seq<string>)
    ensures SortedBy(names, Leq) && NoDuplicates(names) && Elements(names) == users.Keys
  {
    LeqIsTotalOrder();
    SortedSetElements(users.Keys, Leq);
    SortedSet(users.Keys, Leq)
  }

  ghost function MembersOf(users: map<string, Option<string>>): (members: seq<WorkspaceUser>)
    ensures Usernames(members) == NamesOf(users)
  {
    var names := NamesOf(users);
    assert forall i | 0 <= i < |names| :: names[i] in Elements(names);
    var members := seq(|names|, i requires 0 <= i < |names| => WorkspaceUser(names[i], Coalesce(users[names[i]])));
    assert Usernames(members) == names;
    members
  }

  ghost function View(id: ID, e: Entry): Workspace {
    Workspace(id, e.created, e.enabled, e.nodegroup, e.userdata, e.quotas, MembersOf(e.users), e.request)
  }

  // ---- Listings -----------------------------------------------------------

  ghost function OrderedIDs(ids: set<ID>): (r: seq<ID>)
    ensures SortedBy(r, IdLeq) && NoDuplicates(r) && Elements(r) == ids
  {
    SortedSetElements(ids, IdLeq);
    SortedSet(ids, IdLeq)
  }

  ghost predicate Ascending(ids: seq<ID>) {
    forall i, j | 0 <= i < j < |ids| :: ids[i] < ids[j]
  }

  lemma AscendingIsOrdered(ids: seq<ID>, all: set<ID>)
    requires Ascending(ids) && Elements(ids) == all
    ensures ids == OrderedIDs(all)
  {
    assert SortedBy(ids, IdLeq);
    SortedListIsSortedSet(ids, all, IdLeq);
    SortedListIsSortedSet(OrderedIDs(all), all, IdLeq);
  }

  ghost function CreatedIDs(s: Store): set<ID> {
    set id | id in s.data && s.data[id].created
  }

  /** The ids a user's listings select: accepted memberships, or pending invitations. */
  ghost function MemberIDs(s: Store, username: string, accepted: bool): set<ID> {
    set id | id in s.data && username in s.data[id].users && s.data[id].users[username].Some? == accepted
  }

  ghost function QuotasIn(s: Store, id: ID): map<Resource, nat> {
    if id in s.data then s.data[id].quotas else map[]
  }

  ghost function UsersIn(s: Store, id: ID): map<string, Option<string>> {
    if id in s.data then s.data[id].users else map[]
  }

  ghost function RequestIn(s: Store, id: ID): Option<WorkspaceUpdate> {
    if id in s.data then s.data[id].request else None
  }

  /** An entry put together from four committed states, as separate statements see them. */
  ghost function TornEntry(rows: Store, quotas: Store, users: Store, requests: Store, id: ID): Entry
    requires id in rows.data
  {
    rows.data[id].(quotas := QuotasIn(quotas, id), users := UsersIn(users, id), request := RequestIn(requests, id))
  }

  ghost function TornListing(
      rows: Store, quotas: Store, users: Store, requests: Store, ids: set<ID>): (r: seq<Workspace>)
    requires ids <= rows.data.Keys
    ensures |r| == |OrderedIDs(ids)|
  {
    var order := OrderedIDs(ids);
    assert forall i | 0 <= i < |order| :: order[i] in Elements(order);
    seq(|order|, i requires 0 <= i < |order| => View(order[i], TornEntry(rows, quotas, users, requests, order[i])))
  }

  /** The workspaces of `ids` in one state, in ascending id order. */
  ghost function StoreListing(s: Store, ids: set<ID>): (r: seq<Workspace>)
    requires ids <= s.data.Keys
    ensures |r| == |OrderedIDs(ids)|
  {
    var order := OrderedIDs(ids);
    assert forall i | 0 <= i < |order| :: order[i] in Elements(order);
    seq(|order|, i requires 0 <= i < |order| => View(order[i], s.data[order[i]]))
  }

  lemma UntornListing(s: Store, ids: set<ID>)
    requires ids <= s.data.Keys
    ensures TornListing(s, s, s, s, ids) == StoreListing(s, ids)
  {
    var order := OrderedIDs(ids);
    forall i | 0 <= i < |order|
      ensures order[i] in s.data && TornEntry(s, s, s, s, order[i]) == s.data[order[i]]
    {
      assert order[i] in Elements(order);
    }
  }

  /** What a listing of `ids` yields when its four statements see these states. */
  ghost function ListFrom(
      ids: set<ID>, rows: Store, quotas: Store, users: Store, requests: Store): (r: Result<seq<Workspace>>) {
    if ids <= rows.data.Keys then Ok(TornListing(rows, quotas, users, requests, ids)) else Err(NotFound)
  }

  /** What ListCreatedWorkspaces yields when its five statements see these states. */
  ghost function ListCreated(
      ids: Store, rows: Store, quotas: Store, users: Store, requests: Store): Result<seq<Workspace>> {
    ListFrom(CreatedIDs(ids), rows, quotas, users, requests)
  }

  /** The same for one workspace. */
  ghost function GetFrom(id: ID, rows: Store, quotas: Store, users: Store, requests: Store): Result<Workspace> {
    if id in rows.data then Ok(View(id, TornEntry(rows, quotas, users, requests, id))) else Err(NotFound)
  }

  lemma UntornFrom(s: Store, ids: set<ID>, id: ID)
    ensures ids <= s.data.Keys ==> ListFrom(ids, s, s, s, s) == Ok(StoreListing(s, ids))
    ensures GetFrom(id, s, s, s, s) == if id in s.data then Ok(View(id, s.data[id])) else Err(NotFound)
  {
    if ids <= s.data.Keys {
      UntornListing(s, ids);
    }
    assert id in s.data ==> TornEntry(s, s, s, s, id) == s.data[id];
  }
}
