/** The page's preview of a requested change, against what approving the request does. */
module Preview {
  import opened Basics
  import opened Model
  import opened MapStore
  import opened StoreRuns

  /** A later user of the same name wins, as in a map filled in order. */
  function EmailOf(users: seq<WorkspaceUser>, username: string): string {
    if users == [] then ""
    else if users[|users| - 1].username == username then users[|users| - 1].email
    else EmailOf(users[..|users| - 1], username)
  }

  function Previewed(ws: Workspace): Workspace {
    if ws.request == None then ws
    else
      var req := ws.request.value;
      ws.(enabled := req.enabled, nodegroup := req.nodegroup, userdata := req.userdata, quotas := req.quotas,
          users := seq(|req.users|,
                     i requires 0 <= i < |req.users| => WorkspaceUser(req.users[i], EmailOf(ws.users, req.users[i]))))
  }

  /** wsUpdated. */
  method WsUpdated(ws: Workspace) returns (r: Workspace)
    ensures r == Previewed(ws)
    ensures ws.request == None ==> r == ws
    ensures r.id == ws.id && r.created == ws.created && r.request == ws.request
    ensures ws.request.Some? ==>
              var req := ws.request.value;
              && r.enabled == req.enabled && r.nodegroup == req.nodegroup && r.userdata == req.userdata
              && r.quotas == req.quotas && Usernames(r.users) == req.users
  {
    if ws.request == None {
      return ws;
    }
    var req := ws.request.value;
    r := ws.(enabled := req.enabled, nodegroup := req.nodegroup, userdata := req.userdata, quotas := req.quotas);
    var existing: map<string, string> := map[];
    for i := 0 to |ws.users|
      invariant forall u :: EmailOf(ws.users[..i], u) == if u in existing then existing[u] else ""
    {
      assert ws.users[..i + 1][..i] == ws.users[..i];
      existing := existing[ws.users[i].username := ws.users[i].email];
    }
    assert ws.users[..|ws.users|] == ws.users;
    var users := new WorkspaceUser[|req.users|](_ => WorkspaceUser("", ""));
    for i := 0 to |req.users|
      invariant forall j | 0 <= j < i :: users[j] == WorkspaceUser(req.users[j], EmailOf(ws.users, req.users[j]))
    {
      var username := req.users[i];
      users[i] := WorkspaceUser(username, if username in existing then existing[username] else "");
    }
    r := r.(users := users[..]);
  }

  lemma {:induction false} EmailOfPresent(users: seq<WorkspaceUser>, i: nat)
    requires i < |users| && NoDuplicates(Usernames(users))
    ensures EmailOf(users, users[i].username) == users[i].email
  {
    var n := |users| - 1;
    if i < n {
      assert Usernames(users)[i] != Usernames(users)[n];
      assert forall j, k | 0 <= j < k < n :: Usernames(users)[j] != Usernames(users)[k];
      EmailOfPresent(users[..n], i);
    }
  }

  lemma {:induction false} EmailOfAbsent(users: seq<WorkspaceUser>, username: string)
    requires username !in Usernames(users)
    ensures EmailOf(users, username) == ""
  {
    if users != [] {
      var n := |users| - 1;
      assert Usernames(users)[n] != username;
      assert forall j | 0 <= j < n :: Usernames(users[..n])[j] == Usernames(users)[j];
      EmailOfAbsent(users[..n], username);
    }
  }

  /** The page's lookup finds what the store holds. */
  lemma EmailInView(users: map<string, Option<string>>, username: string)
    ensures EmailOf(MembersOf(users), username) == Coalesce(if username in users then users[username] else None)
  {
    var members := MembersOf(users);
    assert Usernames(members) == NamesOf(users);
    if username in users {
      var i := MemberExists(users, username);
      MemberAt(users, i);
      EmailOfPresent(members, i);
    } else {
      assert username in Usernames(members) ==> username in Elements(NamesOf(users));
      EmailOfAbsent(members, username);
    }
  }

  /** The members an update leaves, in the request's own order, which is sorted. */
  lemma UpdatedInOrder(users: map<string, Option<string>>, names: seq<string>)
    requires SortedBy(names, Leq) && NoDuplicates(names)
    ensures NamesOf(UpdatedMembers(users, names)) == names
  {
    LeqIsTotalOrder();
    var updated := UpdatedMembers(users, names);
    assert updated.Keys == Elements(names);
    SortedListIsSortedSet(names, updated.Keys, Leq);
    SortedListIsSortedSet(NamesOf(updated), updated.Keys, Leq);
  }

  lemma PreviewedMembers(users: map<string, Option<string>>, names: seq<string>, i: nat)
    requires SortedBy(names, Leq) && NoDuplicates(names) && i < |names|
    ensures |MembersOf(UpdatedMembers(users, names))| == |names|
    ensures MembersOf(UpdatedMembers(users, names))[i] == WorkspaceUser(names[i], EmailOf(MembersOf(users), names[i]))
  {
    UpdatedInOrder(users, names);
    var updated := UpdatedMembers(users, names);
    assert Usernames(MembersOf(updated)) == names;
    MemberAt(updated, i);
    EmailInView(users, names[i]);
  }

  /**
   What a user sees as the outcome of a stored request is what approving it yields, but
   for the request being cleared and the workspace created. It can be approved exactly
   when its quantities fit the column.
   */
  lemma PreviewIsApproval(s: Store, id: ID)
    requires Good(s) && id in s.data && s.data[id].request.Some?
    ensures var e := s.data[id];
            var a := ApplyUpdate(s, e.request.value);
            && (a.error == None <==> FitsBigint(e.request.value.quotas))
            && (a.error != None ==> a == Applied(s, Some(Failed)))
            && (a.error == None ==>
                  View(id, a.store.data[id])
                  == Previewed(View(id, e)).(created := e.created || e.request.value.enabled, request := None))
  {
    var e := s.data[id];
    var req := e.request.value;
    var a := ApplyUpdate(s, req);
    assert GoodEntry(id, e) && GoodRequest(id, req);
    if a.error == None {
      var approved, preview := View(id, a.store.data[id]).users, Previewed(View(id, e)).users;
      UpdatedInOrder(e.users, req.users);
      assert |approved| == |req.users| == |preview| by {
        assert Usernames(approved) == req.users;
      }
      forall i: nat | i < |req.users| ensures approved[i] == preview[i] {
        PreviewedMembers(e.users, req.users, i);
      }
      assert approved == preview;
    }
  }

  /** A request with an oversized quantity is accepted and stored, and then can never be approved as it stands. */
  lemma OversizedRequestIsStuck(s: Store, upd: WorkspaceUpdate)
    requires Good(s) && ApplyRequest(s, upd).error == None && !FitsBigint(upd.quotas)
    ensures var t := ApplyRequest(s, upd).store;
            && upd.workspaceID in t.data
            && t.data[upd.workspaceID].request == Some(SortedRequest(upd))
            && ApplyUpdate(t, SortedRequest(upd)) == Applied(t, Some(Failed))
  {
    ApplyKeepsGood(s, RequestUpdate(upd));
    PreviewIsApproval(ApplyRequest(s, upd).store, upd.workspaceID);
  }
}
