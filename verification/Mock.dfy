/** The in-memory service used in development: where it agrees with the map store, and exactly where it does not. */
module Mock {
  import opened Basics
  import opened Model
  import opened MapStore
  import opened StoreRuns

  // ---- Users in order --------------------------------------------------------------------

  /** By name, then by email; names are distinct wherever this sorts. */
  predicate UserLeq(a: WorkspaceUser, b: WorkspaceUser) {
    if a.username == b.username then Leq(a.email, b.email) else Leq(a.username, b.username)
  }

  lemma UserLeqIsTotalOrder()
    ensures TotalOrder(UserLeq)
  {
    LeqIsTotalOrder();
    forall x: WorkspaceUser, y: WorkspaceUser | UserLeq(x, y) && UserLeq(y, x) ensures x == y {
      assert x.username == y.username;
    }
    forall x: WorkspaceUser, y: WorkspaceUser, z: WorkspaceUser | UserLeq(x, y) && UserLeq(y, z) ensures UserLeq(x, z) {
      assert Leq(x.username, y.username) || x.username == y.username;
      assert Leq(y.username, z.username) || y.username == z.username;
    }
  }

  ghost predicate Ordered(users: seq<WorkspaceUser>) {
    SortedBy(Usernames(users), Leq) && NoDuplicates(Usernames(users))
  }

  lemma UsernamesOf(users: seq<WorkspaceUser>, name: string)
    ensures name in Usernames(users) <==> exists u :: u in users && u.username == name
  {
    if name in Usernames(users) {
      var i :| 0 <= i < |users| && Usernames(users)[i] == name;
      assert users[i] in users;
    }
    if u :| u in users && u.username == name {
      var i :| 0 <= i < |users| && users[i] == u;
      assert Usernames(users)[i] == name;
    }
  }

  lemma SortKeepsUsers(users: seq<WorkspaceUser>)
    ensures forall u :: u in Sort(users, UserLeq) <==> u in users
  {
    var sorted := Sort(users, UserLeq);
    forall u ensures u in sorted <==> u in users {
      assert u in sorted <==> u in multiset(sorted);
      assert u in users <==> u in multiset(users);
    }
  }

  lemma SortKeepsNames(users: seq<WorkspaceUser>)
    requires NoDuplicates(Usernames(users))
    ensures NoDuplicates(Usernames(Sort(users, UserLeq)))
  {
    var names, sorted := Usernames(users), Usernames(Sort(users, UserLeq));
    SortKeepsUsers(users);
    forall n ensures n in sorted <==> n in names {
      UsernamesOf(Sort(users, UserLeq), n);
      UsernamesOf(users, n);
    }
    assert Elements(sorted) == Elements(names);
    NoDuplicatesIsSet(names);
    SetSizeMeansNoDuplicates(sorted);
  }

  lemma SortOrdersNames(users: seq<WorkspaceUser>)
    ensures SortedBy(Usernames(Sort(users, UserLeq)), Leq)
  {
    var sorted := Sort(users, UserLeq);
    UserLeqIsTotalOrder();
    LeqIsTotalOrder();
    SortSorts(users, UserLeq);
    forall i, j | 0 <= i < j < |sorted| ensures Leq(Usernames(sorted)[i], Usernames(sorted)[j]) {
      assert UserLeq(sorted[i], sorted[j]);
      LeqTotal(sorted[i].username, sorted[i].username);
    }
  }

  lemma SortUsersOrders(users: seq<WorkspaceUser>)
    requires NoDuplicates(Usernames(users))
    ensures Ordered(Sort(users, UserLeq))
    ensures forall u :: u in Sort(users, UserLeq) <==> u in users
  {
    SortOrdersNames(users);
    SortKeepsNames(users);
    SortKeepsUsers(users);
  }

  // ---- What a stored workspace stands for ---------------------------------------------------

  function Acceptance(email: string): Option<string> {
    if email == "" then None else Some(email)
  }

  ghost function EmailIn(users: seq<WorkspaceUser>, name: string): string
    requires name in Usernames(users)
  {
    var i :| 0 <= i < |users| && users[i].username == name;
    users[i].email
  }

  ghost function MembersIn(users: seq<WorkspaceUser>): map<string, Option<string>> {
    map n | n in Usernames(users) :: Acceptance(EmailIn(users, n))
  }

  ghost function EntryFor(ws: Workspace): Entry {
    Entry(ws.created, ws.enabled, ws.nodegroup, ws.userdata, ws.quotas, MembersIn(ws.users), ws.request)
  }

  lemma EmailInAt(users: seq<WorkspaceUser>, i: nat)
    requires i < |users| && NoDuplicates(Usernames(users))
    ensures users[i].username in Usernames(users) && EmailIn(users, users[i].username) == users[i].email
  {
    assert Usernames(users)[i] == users[i].username;
    var j :| 0 <= j < |users| && users[j].username == users[i].username &&
      EmailIn(users, users[i].username) == users[j].email;
    assert Usernames(users)[j] == Usernames(users)[i];
  }

  /** An ordered list of users is the list its members are shown as. */
  lemma OrderedIsShown(users: seq<WorkspaceUser>)
    requires Ordered(users)
    ensures users == MembersOf(MembersIn(users))
  {
    var m := MembersIn(users);
    LeqIsTotalOrder();
    assert m.Keys == Elements(Usernames(users));
    SortedListIsSortedSet(Usernames(users), m.Keys, Leq);
    SortedListIsSortedSet(NamesOf(m), m.Keys, Leq);
    var shown := MembersOf(m);
    assert Usernames(shown) == Usernames(users);
    forall i: nat | i < |users| ensures users[i] == shown[i] {
      assert Usernames(shown)[i] == Usernames(users)[i];
      MemberAt(m, i);
      EmailInAt(users, i);
    }
  }

  /** Two lists with the same users stand for the same members. */
  lemma SameMembers(a: seq<WorkspaceUser>, b: seq<WorkspaceUser>)
    requires NoDuplicates(Usernames(a)) && NoDuplicates(Usernames(b))
    requires forall u :: u in a <==> u in b
    ensures MembersIn(a) == MembersIn(b)
  {
    forall n ensures n in Usernames(a) <==> n in Usernames(b) {
      UsernamesOf(a, n);
      UsernamesOf(b, n);
    }
    forall n | n in Usernames(a) ensures EmailIn(a, n) == EmailIn(b, n) {
      var i :| 0 <= i < |a| && Usernames(a)[i] == n;
      EmailInAt(a, i);
      assert a[i] in b;
      var j :| 0 <= j < |b| && b[j] == a[i];
      EmailInAt(b, j);
    }
  }

  lemma MemberEmail(users: seq<WorkspaceUser>, u: WorkspaceUser)
    requires NoDuplicates(Usernames(users)) && u in users
    ensures u.username in MembersIn(users) && MembersIn(users)[u.username] == Acceptance(u.email)
  {
    var i :| 0 <= i < |users| && users[i] == u;
    EmailInAt(users, i);
  }

  // ---- Helpers of the service -------------------------------------------------------------------

  method ContainsUser(users: seq<WorkspaceUser>, username: string) returns (r: bool)
    ensures r <==> username in Usernames(users)
  {
    for i := 0 to |users|
      invariant username !in Usernames(users)[..i]
    {
      assert Usernames(users)[i] == users[i].username;
      if users[i].username == username {
        return true;
      }
      assert Usernames(users)[..i + 1] == Usernames(users)[..i] + [users[i].username];
    }
    assert Usernames(users)[..|users|] == Usernames(users);
    return false;
  }

  /** A user counts as accepted once they have an email. */
  method UserHasAccepted(users: seq<WorkspaceUser>, username: string) returns (r: bool)
    requires NoDuplicates(Usernames(users))
    ensures r <==> username in MembersIn(users) && MembersIn(users)[username].Some?
  {
    for i := 0 to |users|
      invariant forall j | 0 <= j < i :: users[j].username == username ==> users[j].email == ""
    {
      if users[i].username == username && users[i].email != "" {
        MemberEmail(users, users[i]);
        return true;
      }
    }
    if username in Usernames(users) {
      UsernamesOf(users, username);
      var u :| u in users && u.username == username;
      MemberEmail(users, u);
    }
    return false;
  }

  ghost predicate EmailsKept(users: seq<WorkspaceUser>, n: nat, existing: map<string, string>) {
    && n <= |users|
    && (forall j | 0 <= j < n && users[j].email != "" ::
          users[j].username in existing && existing[users[j].username] == users[j].email)
    && (forall k | k in existing ::
          exists j :: 0 <= j < n && users[j].username == k && users[j].email == existing[k] != "")
  }

  function EmailOr(emails: map<string, string>, name: string): string {
    if name in emails then emails[name] else ""
  }

  function EmailAmong(members: map<string, Option<string>>, name: string): string {
    if name in members then Coalesce(members[name]) else ""
  }

  /** The emails to preserve: those of accepted users. */
  method ExistingEmails(users: seq<WorkspaceUser>) returns (existing: map<string, string>)
    requires NoDuplicates(Usernames(users))
    ensures forall n :: EmailOr(existing, n) == EmailAmong(MembersIn(users), n)
  {
    existing := map[];
    for i := 0 to |users|
      invariant EmailsKept(users, i, existing)
    {
      ghost var before := existing;
      if users[i].email != "" {
        assert forall j | 0 <= j < i :: Usernames(users)[j] != Usernames(users)[i];
        existing := existing[users[i].username := users[i].email];
        forall k | k in existing
          ensures exists j :: 0 <= j < i + 1 && users[j].username == k && users[j].email == existing[k] != ""
        {
          if k != users[i].username {
            var j :| 0 <= j < i && users[j].username == k && users[j].email == before[k] != "";
            assert users[j].email == existing[k];
          }
        }
      }
    }
    forall n
      ensures EmailOr(existing, n) == EmailAmong(MembersIn(users), n)
    {
      ExistingIsMember(users, existing, n);
    }
  }

  lemma ExistingIsMember(users: seq<WorkspaceUser>, existing: map<string, string>, n: string)
    requires NoDuplicates(Usernames(users)) && EmailsKept(users, |users|, existing)
    ensures EmailOr(existing, n) == EmailAmong(MembersIn(users), n)
  {
    if n in existing {
      var j :| 0 <= j < |users| && users[j].username == n && users[j].email == existing[n] != "";
      MemberEmail(users, users[j]);
    } else if n in Usernames(users) {
      UsernamesOf(users, n);
      var u :| u in users && u.username == n;
      MemberEmail(users, u);
    }
  }

  // ---- The service -----------------------------------------------------------------------------

  ghost predicate Stored(id: ID, ws: Workspace) {
    ws.id == id && Ordered(ws.users)
  }

  ghost function StoreOf(data: map<ID, Workspace>, nextID: ID): Store {
    Store(map id | id in data :: EntryFor(data[id]), nextID)
  }

  lemma StorePut(data: map<ID, Workspace>, nextID: ID, id: ID, ws: Workspace)
    ensures StoreOf(data[id := ws], nextID) == Store(StoreOf(data, nextID).data[id := EntryFor(ws)], nextID)
  {
    assert StoreOf(data[id := ws], nextID).data == StoreOf(data, nextID).data[id := EntryFor(ws)];
  }

  lemma ShownAsStored(id: ID, ws: Workspace)
    requires Stored(id, ws)
    ensures ws == View(id, EntryFor(ws))
  {
    OrderedIsShown(ws.users);
  }

  /** The members a new workspace gets here: the input's own emails count, except the creator's. */
  ghost function CreatedMembers(users: seq<WorkspaceUser>, email: string): map<string, Option<string>>
    requires users != []
  {
    map n | n in Usernames(users) :: if n == users[0].username then Acceptance(email) else Acceptance(EmailIn(users, n))
  }

  ghost function CreatedEntry(id: ID, ws: Workspace, email: string): Entry
    requires ws.users != []
  {
    Entry(ws.created, false, ws.nodegroup, ws.userdata, ws.quotas, CreatedMembers(ws.users, email),
          Some(InitialRequest(ws).(workspaceID := id)))
  }

  /** Which inputs the production service gives the same entry for. */
  ghost predicate FreshInput(ws: Workspace, email: string) {
    && !ws.created && email != ""
    && (forall i | 0 < i < |ws.users| :: ws.users[i].email == "")
    && SortedBy(Usernames(ws.users), Leq)
  }

  lemma CreatedMembersAgreeIff(users: seq<WorkspaceUser>, email: string)
    requires users != [] && NoDuplicates(Usernames(users))
    ensures CreatedMembers(users, email) == InitialMembers(Usernames(users), email)
       <==> email != "" && forall i | 0 < i < |users| :: users[i].email == ""
  {
    var mine, theirs, names := CreatedMembers(users, email), InitialMembers(Usernames(users), email), Usernames(users);
    assert names[0] in names;
    if email != "" && forall i | 0 < i < |users| :: users[i].email == "" {
      forall n | n in names ensures mine[n] == theirs[n] {
        var i :| 0 <= i < |users| && names[i] == n;
        EmailInAt(users, i);
      }
    }
    if mine == theirs {
      assert mine[names[0]] == theirs[names[0]];
      forall i | 0 < i < |users| ensures users[i].email == "" {
        EmailInAt(users, i);
        assert names[i] != names[0];
        assert mine[names[i]] == theirs[names[i]];
      }
    }
  }

  lemma SortedSubmissionIff(names: seq<string>)
    ensures Sort(names, Leq) == names <==> SortedBy(names, Leq)
  {
    LeqIsTotalOrder();
    SortSorts(names, Leq);
    if SortedBy(names, Leq) { SortOfSorted(names, Leq); }
  }

  /** The two services store the same new workspace exactly for fresh inputs in order, such as the controller's. */
  lemma CreationsAgreeIff(id: ID, ws: Workspace, email: string)
    requires ValidWorkspace(ws)
    ensures CreatedEntry(id, ws, email) == InitialEntry(id, ws, email) <==> FreshInput(ws, email)
  {
    CreatedMembersAgreeIff(ws.users, email);
    SortedSubmissionIff(Usernames(ws.users));
    var mine, theirs := CreatedEntry(id, ws, email), InitialEntry(id, ws, email);
    assert mine.request.value.users == Usernames(ws.users);
    assert theirs.request.value.users == Sort(Usernames(ws.users), Leq);
    assert mine.request == theirs.request <==> mine.request.value.users == theirs.request.value.users;
  }

  /** On such inputs, within the column's range, creating here is creating in the map store, errors included. */
  lemma CreationsAgree(s: Store, ws: Workspace, email: string)
    requires ValidWorkspace(ws) && s.nextID <= MAX_BIGINT && FitsBigint(ws.quotas)
    ensures ApplyCreate(s, ws, email) ==
            Applied(Store(s.data[s.nextID := CreatedEntry(s.nextID, ws, email)], s.nextID + 1), None)
       <==> FreshInput(ws, email)
  {
    CreationsAgreeIff(s.nextID, ws, email);
    var theirs, mine := InitialEntry(s.nextID, ws, email), CreatedEntry(s.nextID, ws, email);
    if s.data[s.nextID := theirs] == s.data[s.nextID := mine] {
      assert s.data[s.nextID := theirs][s.nextID] == s.data[s.nextID := mine][s.nextID];
    }
  }

  class MockWorkspaces {
    var nextID: ID
    var data: map<ID, Workspace>

    ghost predicate Valid()
      reads this
    {
      forall id | id in data :: id < nextID && Stored(id, data[id])
    }

    ghost function Contents(): Store
      reads this
    {
      StoreOf(data, nextID)
    }

    constructor ()
      ensures Valid() && Contents() == Store(map[], 0)
    {
      nextID := 0;
      data := map[];
    }

    method GetWorkspace(id: ID) returns (r: Result<Workspace>)
      requires Valid()
      ensures r == if id in Contents().data then Ok(View(id, Contents().data[id])) else Err(NotFound)
    {
      if id !in data {
        return Err(NotFound);
      }
      ShownAsStored(id, data[id]);
      return Ok(data[id]);
    }

    method GetUserWorkspace(id: ID, user: string) returns (r: Result<Workspace>)
      requires Valid()
      ensures r == if id in Contents().data && user in Contents().data[id].users &&
                      Contents().data[id].users[user].Some?
                   then Ok(View(id, Contents().data[id])) else Err(NotFound)
    {
      if id !in data {
        return Err(NotFound);
      }
      var accepted := UserHasAccepted(data[id].users, user);
      if !accepted {
        return Err(NotFound);
      }
      ShownAsStored(id, data[id]);
      return Ok(data[id]);
    }

    method DeleteWorkspace(id: ID) returns (error: Option<Error>)
      requires Valid()
      modifies this
      ensures Valid()
      ensures Contents() == ApplyDelete(old(Contents()), id).store
      ensures error == ApplyDelete(old(Contents()), id).error
    {
      if id !in data {
        return Some(NotFound);
      }
      data := data - {id};
      assert Contents().data == old(Contents()).data - {id};
      return None;
    }

    method RequestUpdateWorkspace(upd: WorkspaceUpdate) returns (r: Result<Workspace>)
      requires Valid()
      modifies this
      ensures Valid()
      ensures Contents() == ApplyRequest(old(Contents()), upd).store
      ensures match ApplyRequest(old(Contents()), upd).error
              case Some(e) => r == Err(e)
              case None => r == Ok(View(upd.workspaceID, Contents().data[upd.workspaceID]))
    {
      var valid := UpdateValid(upd);
      if !valid || upd.byUser == "" || upd.byUser !in upd.users {
        return Err(Invalid);
      }
      var id := upd.workspaceID;
      if id !in data {
        return Err(NotFound);
      }
      var member := ContainsUser(data[id].users, upd.byUser);
      if !member {
        return Err(NotFound);
      }
      r := StoreRequest(id, upd);
    }

    method StoreRequest(id: ID, upd: WorkspaceUpdate) returns (r: Result<Workspace>)
      requires Valid() && id in data
      modifies this
      ensures Valid()
      ensures Contents() == old(Contents()).(data :=
                old(Contents()).data[id := old(Contents()).data[id].(request := Some(SortedRequest(upd)))])
      ensures r == Ok(View(id, Contents().data[id]))
    {
      var ws := Requesting(data[id], upd);
      StorePut(data, nextID, id, ws);
      ShownAsStored(id, ws);
      data := data[id := ws];
      return Ok(ws);
    }

    /** No BIGINT column here: an oversized quantity is stored, where the production service rolls back. */
    method UpdateWorkspace(upd: WorkspaceUpdate) returns (r: Result<Workspace>)
      requires Valid()
      modifies this
      ensures Valid()
      ensures r.Ok? <==> ValidUpdate(upd) && upd.workspaceID in old(Contents()).data
      ensures r.Err? ==> r == Err(if ValidUpdate(upd) then NotFound else Invalid) && Contents() == old(Contents())
      ensures r.Ok? ==>
                var id := upd.workspaceID;
                Contents() ==
                  old(Contents()).(data := old(Contents()).data[id := UpdatedEntry(old(Contents()).data[id], upd)])
                && r.value == View(id, Contents().data[id])
      ensures FitsBigint(upd.quotas) ==> Contents() == ApplyUpdate(old(Contents()), upd).store
    {
      var valid := UpdateValid(upd);
      if !valid {
        return Err(Invalid);
      }
      var id := upd.workspaceID;
      if id !in data {
        return Err(NotFound);
      }
      var ws := Updated(data[id], upd);
      StorePut(data, nextID, id, ws);
      ShownAsStored(id, ws);
      data := data[id := ws];
      return Ok(ws);
    }

    method CreateWorkspace(ws: Workspace, creatorEmail: string) returns (r: Result<Workspace>)
      requires Valid()
      modifies this
      ensures Valid()
      ensures r.Ok? <==> ValidWorkspace(ws)
      ensures r.Err? ==> r == Err(Invalid) && Contents() == old(Contents())
      ensures r.Ok? ==>
                var id := old(nextID);
                && id !in old(Contents()).data
                && Contents() == Store(old(Contents()).data[id := CreatedEntry(id, ws, creatorEmail)], id + 1)
                && r.value == View(id, Contents().data[id])
    {
      var valid := WorkspaceValid(ws);
      if !valid {
        return Err(Invalid);
      }
      var id := nextID;
      nextID := nextID + 1;
      var newWS := Created(id, ws, creatorEmail);
      StorePut(data, nextID, id, newWS);
      ShownAsStored(id, newWS);
      data := data[id := newWS];
      return Ok(newWS);
    }
  }

  lemma ListsUpdated(users: seq<WorkspaceUser>, was: seq<WorkspaceUser>, names: seq<string>)
    requires NoDuplicates(names) && NoDuplicates(Usernames(was)) && Usernames(users) == names
    requires forall i | 0 <= i < |names| ::
               users[i].email == EmailAmong(MembersIn(was), names[i])
    ensures MembersIn(users) == UpdatedMembers(MembersIn(was), names)
  {
    forall n | n in names ensures MembersIn(users)[n] == UpdatedMembers(MembersIn(was), names)[n] {
      var i :| 0 <= i < |names| && names[i] == n;
      EmailInAt(users, i);
    }
  }

  method Requesting(ws: Workspace, upd: WorkspaceUpdate) returns (r: Workspace)
    ensures r.id == ws.id && r.users == ws.users
    ensures EntryFor(r) == EntryFor(ws).(request := Some(SortedRequest(upd)))
  {
    r := ws.(request := Some(upd.(users := Sort(upd.users, Leq))));
  }

  method ListUsers(names: seq<string>, existing: map<string, string>) returns (users: seq<WorkspaceUser>)
    ensures Usernames(users) == names
    ensures forall i | 0 <= i < |names| :: users[i].email == EmailOr(existing, names[i])
  {
    var list := new WorkspaceUser[|names|](_ => WorkspaceUser("", ""));
    for i := 0 to |names|
      invariant forall j | 0 <= j < i ::
                  list[j] == WorkspaceUser(names[j], EmailOr(existing, names[j]))
    {
      var u := names[i];
      list[i] := WorkspaceUser(u, if u in existing then existing[u] else "");
    }
    users := list[..];
  }

  /** The workspace an update leaves: emails of accepted users are preserved. */
  method Updated(ws: Workspace, upd: WorkspaceUpdate) returns (r: Workspace)
    requires Ordered(ws.users) && ValidUpdate(upd)
    ensures r.id == ws.id && Ordered(r.users)
    ensures EntryFor(r) == UpdatedEntry(EntryFor(ws), upd)
  {
    var existing := ExistingEmails(ws.users);
    var users := ListUsers(upd.users, existing);
    var sorted := Sort(users, UserLeq);
    ListsUpdated(users, ws.users, upd.users);
    SortUsersOrders(users);
    SameMembers(users, sorted);
    r := Workspace(ws.id, ws.created || upd.enabled, upd.enabled,
                   upd.nodegroup, upd.userdata, upd.quotas, sorted, None);
  }

  method Created(id: ID, ws: Workspace, creatorEmail: string) returns (r: Workspace)
    requires ValidWorkspace(ws)
    ensures r.id == id && Ordered(r.users)
    ensures EntryFor(r) == CreatedEntry(id, ws, creatorEmail)
  {
    var users := ws.users[0 := WorkspaceUser(ws.users[0].username, creatorEmail)];
    assert Usernames(users) == Usernames(ws.users);
    var request := InitialRequest(ws).(workspaceID := id);
    var sorted := Sort(users, UserLeq);
    CreatorAccepted(ws.users, users, creatorEmail);
    SortUsersOrders(users);
    SameMembers(users, sorted);
    r := Workspace(id, ws.created, false, ws.nodegroup, ws.userdata, ws.quotas, sorted, Some(request));
  }

  lemma CreatorAccepted(was: seq<WorkspaceUser>, users: seq<WorkspaceUser>, email: string)
    requires was != [] && NoDuplicates(Usernames(was)) && Usernames(users) == Usernames(was)
    requires users == was[0 := WorkspaceUser(was[0].username, email)]
    ensures MembersIn(users) == CreatedMembers(was, email)
  {
    forall n | n in Usernames(was) ensures MembersIn(users)[n] == CreatedMembers(was, email)[n] {
      var i :| 0 <= i < |was| && Usernames(was)[i] == n;
      EmailInAt(users, i);
      EmailInAt(was, i);
      assert i > 0 ==> Usernames(was)[i] != Usernames(was)[0];
    }
  }
}
