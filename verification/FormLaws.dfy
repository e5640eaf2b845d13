/** From form to store: what a successful request leaves for a reader, in the words of the form. */
module FormLaws {
  import opened Basics
  import opened Model
  import opened MapStore
  import opened StoreLaws
  import opened Controller

  /** Each quota is the form's field of that name. */
  ghost predicate AsEntered(quotas: map<string, nat>, q: QuotaFields) {
    && quotas.Keys == {"requests.nvidia.com/gpu", "requests.nvidia.com/gpumem", "requests.storage",
                       "requests.memory", "limits.memory", "requests.cpu", "limits.cpu"}
    && quotas["requests.nvidia.com/gpu"] == q.gpu && quotas["requests.nvidia.com/gpumem"] == q.gpuMemory
    && quotas["requests.storage"] == q.storage
    && quotas["requests.memory"] == q.memoryRequest && quotas["limits.memory"] == q.memoryLimit
    && quotas["requests.cpu"] == q.cpuRequest && quotas["limits.cpu"] == q.cpuLimit
  }

  lemma QuotasAsEntered(q: QuotaFields)
    ensures AsEntered(QuotasOf(q), q)
  {
  }

  /** Some field called "user-" and anything holds this name, but for space around it. */
  ghost predicate IsEntered(fields: map<string, string>, username: string) {
    exists k :: NamesUser(fields, k) && TrimSpace(fields[k]) == username
  }

  lemma EnteredAreUsers(users: seq<string>, fields: map<string, string>, username: string)
    requires AreUsersOf(users, fields, fields.Keys)
    ensures username in users <==> IsEntered(fields, username)
  {
    assert username in users <==> multiset(users)[username] > 0;
    if IsEntered(fields, username) {
      var k :| NamesUser(fields, k) && TrimSpace(fields[k]) == username;
      assert k in KeysNaming(fields, fields.Keys, username);
    }
    if username in users {
      assert KeysNaming(fields, fields.Keys, username) != {};
      var k :| k in KeysNaming(fields, fields.Keys, username);
    }
  }

  /** The attributes are the form's. */
  ghost predicate MatchesForm(
    nodegroup: string, userdata: string, quotas: map<string, nat>, names: seq<string>, form: Form)
  {
    && nodegroup == form.nodegroup && userdata == form.userdata && AsEntered(quotas, form.quotas)
    && forall u :: u in names <==> IsEntered(form.fields, u)
  }

  lemma FormUpdateMatches(upd: WorkspaceUpdate, user: User, id: ID, form: Form, enabled: bool)
    requires IsFormUpdate(upd, user, id, form, enabled)
    ensures upd.workspaceID == id && upd.byUser == user.username && upd.enabled == enabled
    ensures MatchesForm(upd.nodegroup, upd.userdata, upd.quotas, upd.users, form)
  {
    QuotasAsEntered(form.quotas);
    forall u ensures u in upd.users <==> IsEntered(form.fields, u) {
      EnteredAreUsers(upd.users, form.fields, u);
    }
  }

  /** An administrator's update is in force as entered, and nothing is pending. */
  lemma UpdateFormIsCommitted(s: Store, t: Store, user: User, id: ID, form: Form, op: Op)
    requires form.action == "update" && Permits(user, id, form, op) && Did(s, t, Some(op), Redirect)
    ensures id in s.data && id in t.data
    ensures var r := Get(t, id);
            && r.enabled == (form.enabled == "on") && r.created == (s.data[id].created || r.enabled)
            && MatchesForm(r.nodegroup, r.userdata, r.quotas, Usernames(r.users), form)
            && UsersBecome(Get(s, id), r, op.upd.users) && r.request == None
  {
    FormUpdateMatches(op.upd, user, id, form, form.enabled == "on");
    UpdatedReadsBack(s, op.upd);
    var names := Usernames(Get(t, id).users);
    forall u ensures u in names <==> u in op.upd.users {
      assert u in Elements(names) <==> u in Elements(op.upd.users);
    }
  }

  /** A member's request is pending as entered, for an enabled workspace, and nothing else has changed. */
  lemma RequestFormIsStored(s: Store, t: Store, user: User, id: ID, form: Form, op: Op)
    requires form.action == "request" && Permits(user, id, form, op) && Did(s, t, Some(op), Redirect)
    ensures id in s.data && id in t.data && form.nodegroup in user.groups
    ensures var was, r := Get(s, id), Get(t, id);
            && r.request.Some? && r.(request := was.request) == was
            && var req := r.request.value;
            && req.workspaceID == id && req.byUser == user.username && req.enabled
            && MatchesForm(req.nodegroup, req.userdata, req.quotas, req.users, form)
            && user.username in Usernames(was.users) && IsEntered(form.fields, user.username)
  {
    FormUpdateMatches(op.upd, user, id, form, true);
    RequestedReadsBack(s, op.upd);
    RequestFails(s, op.upd);
    var req := Get(t, id).request.value;
    PermutedElements(req.users, op.upd.users);
    forall u ensures u in req.users <==> u in op.upd.users {
      assert u in Elements(req.users) <==> u in Elements(op.upd.users);
    }
  }

  /** An administrator's deletion removes that workspace; other workspaces are untouched by any form. */
  lemma OtherWorkspacesUntouched(s: Store, t: Store, user: User, id: ID, form: Form, op: Op, resp: Response, other: ID)
    requires Permits(user, id, form, op) && Did(s, t, Some(op), resp) && other != id
    ensures other in t.data <==> other in s.data
    ensures other in s.data ==> t.data[other] == s.data[other]
    ensures form.action == "delete" && resp == Redirect ==> id in s.data && id !in t.data
  {
    OthersUntouched(s, op, other);
    if form.action == "delete" { DeletedIsGone(s, id); }
  }

  /** A new workspace waits for approval of what was entered, its user accepted; approving it puts that in force. */
  lemma NewWorkspaceIsAsEntered(s: Store, user: User, nodegroup: string, userdata: string, q: QuotaFields)
    requires Apply(s, Create(RequestedWorkspace(user, nodegroup, userdata, q), user.email)).error == None
    ensures s.nextID in Apply(s, Create(RequestedWorkspace(user, nodegroup, userdata, q), user.email)).store.data
    ensures var t := Apply(s, Create(RequestedWorkspace(user, nodegroup, userdata, q), user.email)).store;
            var r := Get(t, s.nextID);
            && !r.created && !r.enabled && |r.users| == 1 && HasUser(r, user.username, user.email)
            && r.request.Some?
            && var req := r.request.value;
            && req.byUser == user.username && req.enabled && req.users == [user.username]
            && req.nodegroup == nodegroup && req.userdata == userdata && AsEntered(req.quotas, q)
  {
    var ws := RequestedWorkspace(user, nodegroup, userdata, q);
    CreatedReadsBack(s, ws, user.email);
    QuotasAsEntered(q);
    var req := Get(Apply(s, Create(ws, user.email)).store, s.nextID).request.value;
    PermutedElements(req.users, Usernames(ws.users));
    assert req.users[0] in Elements(req.users);
  }

  /** One notice if an update flips the flag as it was read, saying which way; none otherwise. */
  lemma NoticeSays(seen: Store, op: Option<Op>, resp: Response, id: ID, approved: bool)
    ensures NoticesOf(seen, op, resp) == [Approval(id, approved)] <==>
              && resp == Redirect && op.Some? && op.value.Update? && op.value.upd.workspaceID == id
              && id in seen.data && seen.data[id].enabled != approved && op.value.upd.enabled == approved
    ensures |NoticesOf(seen, op, resp)| <= 1 && Requested(id) !in NoticesOf(seen, op, resp)
  {
  }
}
