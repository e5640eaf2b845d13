/** The handlers: which steps commit, which enqueue, which notify. */
module Controller {
  import opened Basics
  import opened Model
  import opened MapStore
  import opened StoreRuns
  import opened IdCodec
  import opened Projection
  import opened Database
  import opened Postgres
  import opened Worker

  datatype User = User(username: string, email: string, groups: seq<string>) {
    predicate IsAdmin() {
      "bacchus" in groups
    }
  }

  datatype Response = Redirect | BadRequest | Forbidden | NoSuchPage | StoreError(error: Error)

  datatype Notice = Requested(id: ID) | Approval(id: ID, approved: bool)

  /** Outgoing mail; whether an attempt gets through is only logged. */
  class Mailer {
    var attempts: seq<Notice>

    method Send(n: Notice)
      modifies this
      ensures attempts == old(attempts) + [n]
    {
      attempts := attempts + [n];
    }
  }

  // ---- Forms --------------------------------------------------------------------------

  datatype QuotaFields = QuotaFields(
    gpu: UInt64, gpuMemory: UInt64, storage: UInt64, memoryRequest: UInt64, memoryLimit: UInt64,
    cpuRequest: UInt64, cpuLimit: UInt64)

  function QuotasOf(q: QuotaFields): (quotas: map<Resource, nat>)
    ensures quotas.Keys == RESOURCES
    ensures quotas["requests.nvidia.com/gpu"] == q.gpu && quotas["requests.nvidia.com/gpumem"] == q.gpuMemory
    ensures quotas["requests.storage"] == q.storage
    ensures quotas["requests.memory"] == q.memoryRequest && quotas["limits.memory"] == q.memoryLimit
    ensures quotas["requests.cpu"] == q.cpuRequest && quotas["limits.cpu"] == q.cpuLimit
  {
    map["requests.nvidia.com/gpu" := q.gpu, GPU_MEMORY_REQUEST := q.gpuMemory, STORAGE_REQUEST := q.storage,
        "requests.cpu" := q.cpuRequest, "limits.cpu" := q.cpuLimit,
        MEMORY_REQUEST := q.memoryRequest, MEMORY_LIMIT := q.memoryLimit]
  }

  /** `fields` holds the first value of each form parameter. */
  datatype Form = Form(
    action: string, enabled: string, nodegroup: string, userdata: string, quotas: QuotaFields,
    fields: map<string, string>)

  /** unicode.IsSpace. */
  predicate IsSpace(c: char) {
    var n := c as int;
    || 9 <= n <= 13 || n == 0x20 || n == 0x85 || n == 0xA0 || n == 0x1680
    || 0x2000 <= n <= 0x200A || n == 0x2028 || n == 0x2029 || n == 0x202F || n == 0x205F || n == 0x3000
  }

  predicate AllSpace(s: string) {
    forall i | 0 <= i < |s| :: IsSpace(s[i])
  }

  /** strings.TrimSpace. */
  function TrimSpace(s: string): (t: string)
    ensures t != "" ==> !IsSpace(t[0]) && !IsSpace(t[|t| - 1])
  {
    if s == [] then s
    else if IsSpace(s[0]) then TrimSpace(s[1..])
    else if IsSpace(s[|s| - 1]) then TrimSpace(s[..|s| - 1])
    else s
  }

  /** Space around text is removed, and only that. */
  lemma {:induction false} TrimSpaceKeepsText(before: string, text: string, after: string)
    requires AllSpace(before) && AllSpace(after)
    requires text != "" ==> !IsSpace(text[0]) && !IsSpace(text[|text| - 1])
    ensures TrimSpace(before + text + after) == text
    decreases |before| + |after|
  {
    var s := before + text + after;
    if before != "" {
      assert s[1..] == before[1..] + text + after;
      TrimSpaceKeepsText(before[1..], text, after);
    } else if after != "" {
      if text == "" {
        assert s[1..] == "" + text + after[1..];
        TrimSpaceKeepsText("", text, after[1..]);
      } else {
        assert s[..|s| - 1] == before + text + after[..|after| - 1];
        TrimSpaceKeepsText(before, text, after[..|after| - 1]);
      }
    } else {
      assert s == text;
    }
  }

  predicate NamesUser(fields: map<string, string>, k: string) {
    k in fields && "user-" <= k && TrimSpace(fields[k]) != ""
  }

  /** A field names a user if it is called "user-" and anything, and is more than space. */
  lemma NamesUserIff(fields: map<string, string>, k: string)
    ensures NamesUser(fields, k) <==>
              k in fields && (exists rest :: k == "user-" + rest)
              && exists i :: 0 <= i < |fields[k]| && !IsSpace(fields[k][i])
  {
    if "user-" <= k { assert k == "user-" + k[5..]; }
    if k in fields { TrimmedAwayIff(fields[k]); }
  }

  lemma {:induction false} TrimmedAwayIff(s: string)
    ensures TrimSpace(s) == "" <==> AllSpace(s)
  {
    if s != [] {
      if IsSpace(s[0]) {
        TrimmedAwayIff(s[1..]);
        assert s == [s[0]] + s[1..];
      } else if IsSpace(s[|s| - 1]) {
        TrimmedAwayIff(s[..|s| - 1]);
      }
    }
  }

  /** The fields, among `keys`, that name this user. */
  ghost function KeysNaming(fields: map<string, string>, keys: set<string>, username: string): set<string> {
    set k | k in keys && NamesUser(fields, k) && TrimSpace(fields[k]) == username
  }

  /** Each user as often as fields name them, in no particular order. */
  ghost predicate AreUsersOf(users: seq<string>, fields: map<string, string>, keys: set<string>) {
    forall u :: multiset(users)[u] == |KeysNaming(fields, keys, u)|
  }

  lemma OneMoreKey(users: seq<string>, fields: map<string, string>, keys: set<string>, k: string)
    requires AreUsersOf(users, fields, keys) && k in fields && k !in keys
    ensures AreUsersOf(if NamesUser(fields, k) then users + [TrimSpace(fields[k])] else users, fields, keys + {k})
  {
    var more := if NamesUser(fields, k) then users + [TrimSpace(fields[k])] else users;
    forall u ensures multiset(more)[u] == |KeysNaming(fields, keys + {k}, u)| {
      if NamesUser(fields, k) && TrimSpace(fields[k]) == u {
        assert KeysNaming(fields, keys + {k}, u) == KeysNaming(fields, keys, u) + {k};
      } else {
        assert KeysNaming(fields, keys + {k}, u) == KeysNaming(fields, keys, u);
      }
    }
  }

  /** The loop over the form's fields, in the order the map yields them. */
  method CollectUsers(fields: map<string, string>) returns (users: seq<string>)
    ensures AreUsersOf(users, fields, fields.Keys)
  {
    users := [];
    var left := fields.Keys;
    while left != {}
      invariant left <= fields.Keys && AreUsersOf(users, fields, fields.Keys - left)
      decreases left
    {
      var k :| k in left;
      OneMoreKey(users, fields, fields.Keys - left, k);
      if "user-" <= k {
        var username := TrimSpace(fields[k]);
        if username != "" {
          users := users + [username];
        }
      }
      assert fields.Keys - (left - {k}) == fields.Keys - left + {k};
      left := left - {k};
    }
    assert fields.Keys - left == fields.Keys;
  }

  function CheckNodegroups(user: User, nodegroup: string): (r: Response)
    ensures r == Redirect <==> nodegroup in NODEGROUPS && nodegroup in user.groups
    ensures r == BadRequest <==> nodegroup !in NODEGROUPS
  {
    if nodegroup !in NODEGROUPS then BadRequest
    else if nodegroup in user.groups then Redirect
    else Forbidden
  }

  // ---- Requesting a workspace ------------------------------------------------------------

  function RequestedWorkspace(user: User, nodegroup: string, userdata: string, q: QuotaFields): Workspace {
    Workspace(0, false, false, nodegroup, userdata, QuotasOf(q), [WorkspaceUser(user.username, user.email)], None)
  }

  lemma RequestedIsValid(user: User, nodegroup: string, userdata: string, q: QuotaFields)
    ensures ValidWorkspace(RequestedWorkspace(user, nodegroup, userdata, q)) <==> nodegroup in NODEGROUPS
  {
    assert |Usernames(RequestedWorkspace(user, nodegroup, userdata, q).users)| == 1;
  }

  /** `subscribers` is what the mailing list answers, if it does. */
  method HandleRequestWorkspace(
    repo: WorkspacesRepository, mail: Mailer, subscribers: Option<seq<string>>,
    user: User, nodegroup: string, userdata: string, q: QuotaFields)
    returns (resp: Response)
    requires repo.Valid()
    modifies repo, mail
    ensures repo.Valid()
    ensures resp == BadRequest <==> nodegroup !in NODEGROUPS
    ensures resp == Forbidden <==> nodegroup in NODEGROUPS && nodegroup !in user.groups
    ensures resp in {BadRequest, Forbidden} ==> repo.Contents() == old(repo.Contents())
    ensures resp !in {BadRequest, Forbidden} ==>
              var a := ApplyCreate(old(repo.Contents()), RequestedWorkspace(user, nodegroup, userdata, q), user.email);
              repo.Contents() == a.store && resp == if a.error == None then Redirect else StoreError(a.error.value)
    ensures resp != Redirect || subscribers == None || subscribers == Some([]) ==> mail.attempts == old(mail.attempts)
    ensures resp == Redirect && subscribers.Some? && subscribers.value != [] ==>
              mail.attempts == old(mail.attempts) + [Requested(old(repo.Contents()).nextID)]
  {
    var ws := RequestedWorkspace(user, nodegroup, userdata, q);
    RequestedIsValid(user, nodegroup, userdata, q);
    var valid := WorkspaceValid(ws);
    if !valid {
      return BadRequest;
    }
    var allowed := CheckNodegroups(user, nodegroup);
    if allowed != Redirect {
      return allowed;
    }
    var created := repo.CreateWorkspace(ws, user.email);
    if created.Err? {
      return StoreError(created.error);
    }
    if subscribers.Some? && subscribers.value != [] {
      mail.Send(Requested(created.value.id));
    }
    return Redirect;
  }

  // ---- Updating ----------------------------------------------------------------------------

  /** The store's answer passed on. */
  ghost predicate Answers(a: Applied, after: Store, resp: Response) {
    after == a.store && resp == if a.error == None then Redirect else StoreError(a.error.value)
  }

  method HandleDelete(repo: WorkspacesRepository, queue: Queue, user: User, id: ID) returns (resp: Response)
    requires repo.Valid()
    modifies repo, queue
    ensures repo.Valid()
    ensures !user.IsAdmin() ==> resp == Forbidden && repo.Contents() == old(repo.Contents())
    ensures user.IsAdmin() ==> Answers(ApplyDelete(old(repo.Contents()), id), repo.Contents(), resp)
    ensures queue.slot == (old(queue.slot) || resp == Redirect)
  {
    if !user.IsAdmin() {
      return Forbidden;
    }
    var error := repo.DeleteWorkspace(id);
    if error != None {
      return StoreError(error.value);
    }
    queue.Enqueue();
    return Redirect;
  }

  /** A user's own request: always for an enabled workspace, in a nodegroup the user belongs to. */
  method HandleUpdateRequest(repo: WorkspacesRepository, user: User, upd: WorkspaceUpdate) returns (resp: Response)
    requires repo.Valid() && ValidUpdate(upd)
    modifies repo
    ensures repo.Valid()
    ensures upd.nodegroup !in user.groups ==> resp == Forbidden && repo.Contents() == old(repo.Contents())
    ensures upd.nodegroup in user.groups ==>
              Answers(ApplyRequest(old(repo.Contents()), upd.(enabled := true)), repo.Contents(), resp)
  {
    var allowed := CheckNodegroups(user, upd.nodegroup);
    if allowed != Redirect {
      return allowed;
    }
    var updated := repo.RequestUpdateWorkspace(upd.(enabled := true));
    if updated.Err? {
      return StoreError(updated.error);
    }
    return Redirect;
  }

  /** UpdateWorkspace, as far as the handler looks at what it returns. */
  method CommitUpdate(repo: WorkspacesRepository, upd: WorkspaceUpdate) returns (error: Option<Error>, enabled: bool)
    requires repo.Valid()
    modifies repo
    ensures repo.Valid()
    ensures repo.Contents() == ApplyUpdate(old(repo.Contents()), upd).store
    ensures error == ApplyUpdate(old(repo.Contents()), upd).error
    ensures error == None ==> enabled == upd.enabled
  {
    ghost var s := repo.Contents();
    var updated := repo.UpdateWorkspace(upd);
    EnabledAsAsked(s, upd, updated);
    if updated.Err? {
      return Some(updated.error), false;
    }
    return None, updated.value.enabled;
  }

  lemma EnabledAsAsked(s: Store, upd: WorkspaceUpdate, r: Result<Workspace>)
    requires Returned(r, ApplyUpdate(s, upd), upd.workspaceID)
    ensures r.Ok? <==> ApplyUpdate(s, upd).error == None
    ensures r.Err? ==> ApplyUpdate(s, upd).error == Some(r.error)
    ensures r.Ok? ==> r.value.enabled == upd.enabled
  {
  }

  /** One notice when the enabled flag flips, none otherwise. */
  function Notices(id: ID, was: bool, now: bool): seq<Notice> {
    if was == now then [] else [Approval(id, now)]
  }

  method Notify(mail: Mailer, id: ID, wasEnabled: bool, enabled: bool)
    modifies mail
    ensures mail.attempts == old(mail.attempts) + Notices(id, wasEnabled, enabled)
  {
    if !wasEnabled && enabled {
      mail.Send(Approval(id, true));
    } else if wasEnabled && !enabled {
      mail.Send(Approval(id, false));
    }
  }

  method HandleUpdateAction(
      repo: WorkspacesRepository, queue: Queue, mail: Mailer, user: User, wasEnabled: bool,
      upd: WorkspaceUpdate)
    returns (resp: Response)
    requires repo.Valid()
    modifies repo, queue, mail
    ensures repo.Valid()
    ensures !user.IsAdmin() ==> resp == Forbidden && repo.Contents() == old(repo.Contents())
    ensures user.IsAdmin() ==> Answers(ApplyUpdate(old(repo.Contents()), upd), repo.Contents(), resp)
    ensures queue.slot == (old(queue.slot) || resp == Redirect)
    ensures mail.attempts == old(mail.attempts)
           + if resp == Redirect then Notices(upd.workspaceID, wasEnabled, upd.enabled) else []
  {
    if !user.IsAdmin() {
      return Forbidden;
    }
    var error, enabled := CommitUpdate(repo, upd);
    if error != None {
      return StoreError(error.value);
    }
    queue.Enqueue();
    Notify(mail, upd.workspaceID, wasEnabled, enabled);
    return Redirect;
  }

  /** The update as collected, whatever order the form's fields came in. */
  ghost predicate IsFormUpdate(upd: WorkspaceUpdate, user: User, id: ID, form: Form, enabled: bool) {
    && upd == WorkspaceUpdate(id, user.username, enabled, form.nodegroup,
                                form.userdata, QuotasOf(form.quotas), upd.users)
    && AreUsersOf(upd.users, form.fields, form.fields.Keys)
  }

  /**
   The committed states the four statements of the handler's first read find: other handlers
   may commit between them, and between the read and the update.
   */
  datatype Reading = Reading(rows: Tables, quotas: Tables, users: Tables, requests: Tables) {
    ghost predicate Valid() {
      Consistent(quotas) && Consistent(users) && Consistent(requests)
    }
  }

  /** What a form may ask of the store on behalf of this user. */
  ghost predicate Permits(user: User, id: ID, form: Form, op: Op) {
    match op
    case Delete(i) => i == id && form.action == "delete" && user.IsAdmin()
    case Update(upd) =>
      form.action == "update" && user.IsAdmin() && IsFormUpdate(upd, user, id, form, form.enabled == "on")
    case RequestUpdate(upd) =>
      form.action == "request" && form.nodegroup in user.groups && IsFormUpdate(upd, user, id, form, true)
    case _ => false
  }

  /** The operation the handler ran, if it got that far. */
  ghost predicate Did(s: Store, t: Store, op: Option<Op>, resp: Response) {
    if op.None? then t == s && resp != Redirect else Answers(Apply(s, op.value), t, resp)
  }

  /** What every update a form stands for has to be. */
  ghost predicate ValidForm(form: Form) {
    && (form.nodegroup == "undergraduate" || form.nodegroup == "graduate")
    && (exists k :: NamesUser(form.fields, k))
    && (forall k, l | NamesUser(form.fields, k) && NamesUser(form.fields, l) ::
          TrimSpace(form.fields[k]) == TrimSpace(form.fields[l]) ==> k == l)
  }

  lemma CountsAtMostOne(users: seq<string>)
    ensures NoDuplicates(users) <==> forall u :: multiset(users)[u] <= 1
  {
    if NoDuplicates(users) {
      NoDuplicatesIsSet(users);
    }
    if i, j :| 0 <= i < j < |users| && users[i] == users[j] {
      assert users == users[..j] + [users[j]] + users[j + 1..];
      assert users[i] in users[..j];
      assert multiset(users)[users[i]] >= 2;
    }
  }

  lemma SizeAtMostOne<T>(a: set<T>)
    ensures |a| <= 1 <==> forall x, y | x in a && y in a :: x == y
  {
    if |a| > 1 {
      var x :| x in a;
      assert |a - {x}| > 0;
      var y :| y in a - {x};
    }
    forall x, y | x in a && y in a ensures |a| <= 1 ==> x == y {
      if x != y {
        assert y in a - {x};
        assert |a - {x}| == |a| - 1;
      }
    }
  }

  /** Validity does not depend on the order the fields are visited in. */
  lemma FormValidity(upd: WorkspaceUpdate, user: User, id: ID, form: Form, enabled: bool)
    requires IsFormUpdate(upd, user, id, form, enabled)
    ensures ValidUpdate(upd) <==> ValidForm(form)
  {
    var keys := form.fields.Keys;
    CountsAtMostOne(upd.users);
    forall u ensures multiset(upd.users)[u] <= 1 <==>
                       forall k, l | k in KeysNaming(form.fields, keys, u) && l in KeysNaming(form.fields, keys, u) ::
                         k == l
    {
      SizeAtMostOne(KeysNaming(form.fields, keys, u));
    }
    SomeUserNamed(upd.users, form.fields);
    EachNamedOnce(form.fields);
  }

  lemma SomeUserNamed(users: seq<string>, fields: map<string, string>)
    requires AreUsersOf(users, fields, fields.Keys)
    ensures users != [] <==> exists k :: NamesUser(fields, k)
  {
    if users != [] {
      assert multiset(users)[users[0]] > 0;
      assert KeysNaming(fields, fields.Keys, users[0]) != {};
      var k :| k in KeysNaming(fields, fields.Keys, users[0]);
    }
    if k :| NamesUser(fields, k) {
      assert k in KeysNaming(fields, fields.Keys, TrimSpace(fields[k]));
      assert multiset(users)[TrimSpace(fields[k])] > 0;
    }
  }

  lemma EachNamedOnce(fields: map<string, string>)
    ensures (forall u, k, l | k in KeysNaming(fields, fields.Keys, u) && l in KeysNaming(fields, fields.Keys, u) ::
               k == l)
       <==> (forall k, l | NamesUser(fields, k) && NamesUser(fields, l) ::
               TrimSpace(fields[k]) == TrimSpace(fields[l]) ==> k == l)
  {
    if k, l :| NamesUser(fields, k) && NamesUser(fields, l) && TrimSpace(fields[k]) == TrimSpace(fields[l]) && k != l {
      var u := TrimSpace(fields[k]);
      assert k in KeysNaming(fields, fields.Keys, u) && l in KeysNaming(fields, fields.Keys, u);
    }
  }

  /** Which operation is run, or why none is: the checks in the order the handler makes them. */
  ghost predicate Decided(seen: Store, user: User, id: ID, form: Form, op: Option<Op>, resp: Response) {
    if form.action == "delete" then
      if user.IsAdmin() then op == Some(Delete(id)) else op == None && resp == Forbidden
    else if id !in seen.data then op == None && resp == StoreError(NotFound)
    else if !ValidForm(form) then op == None && resp == BadRequest
    else if form.action == "request" then
      if form.nodegroup in user.groups then op.Some? && op.value.RequestUpdate? else op == None && resp == Forbidden
    else if form.action == "update" then
      if user.IsAdmin() then op.Some? && op.value.Update? else op == None && resp == Forbidden
    else op == None && resp == BadRequest
  }

  /** By the enabled flag as it was read. */
  ghost function NoticesOf(s: Store, op: Option<Op>, resp: Response): seq<Notice> {
    if resp == Redirect && op.Some? && op.value.Update? && op.value.upd.workspaceID in s.data then
      Notices(op.value.upd.workspaceID, s.data[op.value.upd.workspaceID].enabled, op.value.upd.enabled)
    else []
  }

  /** The operation took effect, and is one the worker is told about. */
  ghost predicate Enqueued(op: Option<Op>, resp: Response) {
    resp == Redirect && op.Some? && Enqueues(op.value)
  }

  lemma NoNotice(before: seq<Notice>, s: Store, op: Option<Op>, resp: Response)
    requires op.Some? ==> !op.value.Update?
    ensures before + NoticesOf(s, op, resp) == before
  {
  }

  method ReadForm(user: User, id: ID, form: Form) returns (upd: WorkspaceUpdate)
    ensures IsFormUpdate(upd, user, id, form, form.enabled == "on")
  {
    var users := CollectUsers(form.fields);
    upd := WorkspaceUpdate(id, user.username, form.enabled == "on", form.nodegroup, form.userdata,
                           QuotasOf(form.quotas), users);
  }

  method HandleRequestForm(
      repo: WorkspacesRepository, ghost s: Store, ghost seen: Store, user: User, id: ID, form: Form,
      upd: WorkspaceUpdate)
    returns (resp: Response, ghost op: Option<Op>)
    requires repo.Valid() && repo.Contents() == s && form.action == "request" && ValidUpdate(upd)
    requires IsFormUpdate(upd, user, id, form, form.enabled == "on") && id in seen.data && ValidForm(form)
    modifies repo
    ensures repo.Valid()
    ensures Did(s, repo.Contents(), op, resp)
    ensures op.Some? ==> op.value == RequestUpdate(upd.(enabled := true)) && Permits(user, id, form, op.value)
    ensures !Enqueued(op, resp)
    ensures Decided(seen, user, id, form, op, resp)
  {
    assert Apply(s, RequestUpdate(upd.(enabled := true))) == ApplyRequest(s, upd.(enabled := true));
    resp := HandleUpdateRequest(repo, user, upd);
    op := if upd.nodegroup in user.groups then Some(RequestUpdate(upd.(enabled := true))) else None;
  }

  method HandleUpdateForm(
    repo: WorkspacesRepository, queue: Queue, mail: Mailer, ghost s: Store, ghost seen: Store, user: User, id: ID,
    wasEnabled: bool, form: Form, upd: WorkspaceUpdate)
    returns (resp: Response, ghost op: Option<Op>)
    requires repo.Valid() && repo.Contents() == s && form.action == "update"
    requires IsFormUpdate(upd, user, id, form, form.enabled == "on") && ValidForm(form)
    requires id in seen.data && wasEnabled == seen.data[id].enabled
    modifies repo, queue, mail
    ensures repo.Valid()
    ensures Did(s, repo.Contents(), op, resp)
    ensures op.Some? ==> op.value == Update(upd) && Permits(user, id, form, op.value)
    ensures Decided(seen, user, id, form, op, resp)
    ensures queue.slot == (old(queue.slot) || Enqueued(op, resp))
    ensures mail.attempts == old(mail.attempts) + NoticesOf(seen, op, resp)
  {
    assert Apply(s, Update(upd)) == ApplyUpdate(s, upd);
    resp := HandleUpdateAction(repo, queue, mail, user, wasEnabled, upd);
    op := if user.IsAdmin() then Some(Update(upd)) else None;
  }

  /** A user's request, or an action there is none of. */
  method HandleOtherForm(
      repo: WorkspacesRepository, ghost s: Store, ghost seen: Store, user: User, id: ID, form: Form,
      upd: WorkspaceUpdate)
    returns (resp: Response, ghost op: Option<Op>)
    requires repo.Valid() && repo.Contents() == s && form.action !in {"delete", "update"} && ValidUpdate(upd)
    requires IsFormUpdate(upd, user, id, form, form.enabled == "on") && id in seen.data && ValidForm(form)
    modifies repo
    ensures repo.Valid()
    ensures Did(s, repo.Contents(), op, resp)
    ensures op.Some? ==> op.value.RequestUpdate? && Permits(user, id, form, op.value)
    ensures Decided(seen, user, id, form, op, resp)
    ensures !Enqueued(op, resp)
  {
    if form.action != "request" {
      return BadRequest, None;
    }
    resp, op := HandleRequestForm(repo, s, seen, user, id, form, upd);
  }

  /** A valid update, by the action asked for. */
  method HandleValid(
    repo: WorkspacesRepository, queue: Queue, mail: Mailer, ghost s: Store, ghost seen: Store, user: User, id: ID,
    wasEnabled: bool, form: Form, upd: WorkspaceUpdate)
    returns (resp: Response, ghost op: Option<Op>)
    requires repo.Valid() && repo.Contents() == s && form.action != "delete"
    requires id in seen.data && wasEnabled == seen.data[id].enabled
    requires IsFormUpdate(upd, user, id, form, form.enabled == "on") && ValidUpdate(upd) && ValidForm(form)
    modifies repo, queue, mail
    ensures repo.Valid()
    ensures Did(s, repo.Contents(), op, resp)
    ensures op.Some? ==> Permits(user, id, form, op.value)
    ensures Decided(seen, user, id, form, op, resp)
    ensures queue.slot == (old(queue.slot) || Enqueued(op, resp))
    ensures mail.attempts == old(mail.attempts) + NoticesOf(seen, op, resp)
  {
    if form.action == "update" {
      resp, op := HandleUpdateForm(repo, queue, mail, s, seen, user, id, wasEnabled, form, upd);
      return;
    }
    ghost var before := mail.attempts;
    resp, op := HandleOtherForm(repo, s, seen, user, id, form, upd);
    NoNotice(before, seen, op, resp);
  }

  /** A request or an update of the workspace as it was read. */
  method HandleForm(
    repo: WorkspacesRepository, queue: Queue, mail: Mailer, ghost s: Store, ghost seen: Store, user: User, id: ID,
    wasEnabled: bool, form: Form)
    returns (resp: Response, ghost op: Option<Op>)
    requires repo.Valid() && repo.Contents() == s && form.action != "delete"
    requires id in seen.data && wasEnabled == seen.data[id].enabled
    modifies repo, queue, mail
    ensures repo.Valid()
    ensures Did(s, repo.Contents(), op, resp)
    ensures op.Some? ==> Permits(user, id, form, op.value)
    ensures Decided(seen, user, id, form, op, resp)
    ensures queue.slot == (old(queue.slot) || Enqueued(op, resp))
    ensures mail.attempts == old(mail.attempts) + NoticesOf(seen, op, resp)
  {
    var upd := ReadForm(user, id, form);
    var valid := UpdateValid(upd);
    FormValidity(upd, user, id, form, form.enabled == "on");
    if !valid {
      NoNotice(mail.attempts, seen, None, BadRequest);
      return BadRequest, None;
    }
    resp, op := HandleValid(repo, queue, mail, s, seen, user, id, wasEnabled, form, upd);
  }

  /** After the path parameter is parsed. */
  method HandleParsed(
    repo: WorkspacesRepository, queue: Queue, mail: Mailer, user: User, id: ID, form: Form, seen: Reading)
    returns (resp: Response, ghost op: Option<Op>)
    requires repo.Valid() && seen.Valid()
    modifies repo, queue, mail
    ensures repo.Valid()
    ensures Did(old(repo.Contents()), repo.Contents(), op, resp)
    ensures op.Some? ==> Permits(user, id, form, op.value)
    ensures Decided(Abstraction(seen.rows), user, id, form, op, resp)
    ensures queue.slot == (old(queue.slot) || Enqueued(op, resp))
    ensures mail.attempts == old(mail.attempts) + NoticesOf(Abstraction(seen.rows), op, resp)
  {
    if form.action == "delete" {
      resp := HandleDelete(repo, queue, user, id);
      op := if user.IsAdmin() then Some(Delete(id)) else None;
      return;
    }
    var oldWS := WorkspacesRepository.GetWorkspace(seen.rows, seen.quotas, seen.users, seen.requests, id);
    if oldWS.Err? {
      return StoreError(oldWS.error), None;
    }
    resp, op := HandleForm(repo, queue, mail, repo.Contents(), Abstraction(seen.rows), user, id,
                           oldWS.value.enabled, form);
  }

  method HandleUpdateWorkspace(
    c: Permutation, repo: WorkspacesRepository, queue: Queue, mail: Mailer, user: User, param: string, form: Form,
    seen: Reading)
    returns (resp: Response, ghost op: Option<Op>)
    requires repo.Valid() && seen.Valid()
    modifies repo, queue, mail
    ensures repo.Valid()
    ensures Did(old(repo.Contents()), repo.Contents(), op, resp)
    ensures op.Some? ==> ParseOf(c, param).Ok? && Permits(user, ParseOf(c, param).value, form, op.value)
    ensures ParseOf(c, param).Err? ==> op == None && resp == NoSuchPage
    ensures ParseOf(c, param).Ok? ==>
              Decided(Abstraction(seen.rows), user, ParseOf(c, param).value, form, op, resp)
    ensures ParseOf(c, param).Ok? && form.action == "delete" ==>
              op == if "bacchus" in user.groups then Some(Delete(ParseOf(c, param).value)) else None
    ensures ParseOf(c, param).Ok? && form.action != "delete" ==>
              var known := ParseOf(c, param).value in Abstraction(seen.rows).data;
              && (!known ==> op == None && resp == StoreError(NotFound))
              && (known && !ValidForm(form) ==> op == None && resp == BadRequest)
              && (form.action == "request" && known && ValidForm(form) ==>
                    (op.Some? <==> form.nodegroup in user.groups))
              && (form.action == "update" && known && ValidForm(form) ==> (op.Some? <==> "bacchus" in user.groups))
    ensures op.Some? && (op.value.Update? || op.value.Delete?) ==> "bacchus" in user.groups
    ensures resp == Forbidden ==> op == None && (form.action == "request" || "bacchus" !in user.groups)
    ensures resp == BadRequest ==> op == None && form.action != "delete"
    ensures resp == BadRequest && ValidForm(form) ==> form.action !in {"request", "update"}
    ensures queue.slot == (old(queue.slot) || Enqueued(op, resp))
    ensures mail.attempts == old(mail.attempts) + NoticesOf(Abstraction(seen.rows), op, resp)
  {
    var parsed := ParseID(c, param);
    if parsed.Err? {
      return NoSuchPage, None;
    }
    resp, op := HandleParsed(repo, queue, mail, user, parsed.value, form, seen);
  }

  // ---- What the specification says about handlers ------------------------------------------------

  lemma SameUsers(a: seq<string>, b: seq<string>, fields: map<string, string>)
    requires AreUsersOf(a, fields, fields.Keys) && AreUsersOf(b, fields, fields.Keys)
    ensures multiset(a) == multiset(b)
  {
    forall u ensures multiset(a)[u] == multiset(b)[u] {
      assert multiset(a)[u] == |KeysNaming(fields, fields.Keys, u)|;
    }
  }

  /** A form asks for one thing: the order its fields are visited in makes no difference to the store. */
  lemma FormDeterminesEffect(s: Store, user: User, id: ID, form: Form, a: Op, b: Op)
    requires Permits(user, id, form, a) && Permits(user, id, form, b)
    ensures Apply(s, a) == Apply(s, b)
  {
    if a.Update? || a.RequestUpdate? {
      SameUsers(a.upd.users, b.upd.users, form.fields);
    }
    if a.Update? {
      UpdateIgnoresUserOrder(s, a.upd, b.upd);
    } else if a.RequestUpdate? {
      RequestIgnoresUserOrder(s, a.upd, b.upd);
    }
  }

  /** What changes the worker's view is enqueued, and only an administrator can cause it. */
  lemma VisibleChangeIsEnqueued(s: Store, t: Store, user: User, id: ID, form: Form, op: Option<Op>, resp: Response)
    requires Good(s) && Did(s, t, op, resp) && (op.Some? ==> Permits(user, id, form, op.value))
    requires VisibleStore(t) != VisibleStore(s)
    ensures resp == Redirect && Enqueues(op.value) && user.IsAdmin()
  {
    if op.Some? {
      if Apply(s, op.value).error != None {
        FailedSteps(s, op.value);
      } else if op.value.RequestUpdate? {
        QuietSteps(s, op.value);
      }
    }
  }

  /** The notice is the one due exactly if the flag the update replaced is still the one that was read. */
  lemma NoticeIsDueIff(s: Store, t: Store, seen: Store, upd: WorkspaceUpdate, resp: Response)
    requires Did(s, t, Some(Update(upd)), resp) && resp == Redirect && upd.workspaceID in seen.data
    ensures upd.workspaceID in s.data
    ensures NoticesOf(seen, Some(Update(upd)), resp) == NoticesOf(s, Some(Update(upd)), resp)
       <==> seen.data[upd.workspaceID].enabled == s.data[upd.workspaceID].enabled
  {
    var was, now := seen.data[upd.workspaceID].enabled, s.data[upd.workspaceID].enabled;
    assert |Notices(upd.workspaceID, was, upd.enabled)| == if was == upd.enabled then 0 else 1;
    assert |Notices(upd.workspaceID, now, upd.enabled)| == if now == upd.enabled then 0 else 1;
  }

  // ---- Invitations ---------------------------------------------------------------------------

  method HandleAcceptInvitation(c: Permutation, repo: WorkspacesRepository, user: User, param: string)
    returns (resp: Response)
    requires repo.Valid()
    modifies repo
    ensures repo.Valid()
    ensures resp == Redirect <==>
              ParseOf(c, param).Ok? && Pending(old(repo.Contents()), ParseOf(c, param).value, user.username)
    ensures resp == Redirect ==> AcceptedWith(repo.Contents(), ParseOf(c, param).value, user.username, user.email)
    ensures resp == Redirect ==>
              repo.Contents() ==
                ApplyAccept(old(repo.Contents()), ParseOf(c, param).value, user.username, user.email).store
    ensures resp != Redirect ==> resp == if ParseOf(c, param).Err? then NoSuchPage else StoreError(NotFound)
    ensures resp != Redirect ==> repo.Contents() == old(repo.Contents())
  {
    var parsed := ParseID(c, param);
    if parsed.Err? {
      return NoSuchPage;
    }
    var error := repo.AcceptInvitation(parsed.value, user.username, user.email);
    return if error != None then StoreError(error.value) else Redirect;
  }

  method HandleDeclineInvitation(c: Permutation, repo: WorkspacesRepository, user: User, param: string)
    returns (resp: Response)
    requires repo.Valid()
    modifies repo
    ensures repo.Valid()
    ensures resp == Redirect <==>
              ParseOf(c, param).Ok? && Pending(old(repo.Contents()), ParseOf(c, param).value, user.username)
    ensures resp == Redirect ==>
              repo.Contents() == ApplyDecline(old(repo.Contents()), ParseOf(c, param).value, user.username).store
    ensures resp != Redirect ==> resp == if ParseOf(c, param).Err? then NoSuchPage else StoreError(NotFound)
    ensures resp != Redirect ==> repo.Contents() == old(repo.Contents())
  {
    var parsed := ParseID(c, param);
    if parsed.Err? {
      return NoSuchPage;
    }
    var error := repo.DeclineInvitation(parsed.value, user.username);
    return if error != None then StoreError(error.value) else Redirect;
  }
}
