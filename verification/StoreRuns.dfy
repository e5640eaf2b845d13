/** What every run of store operations keeps, whatever the operations and their arguments. */
module StoreRuns {
  import opened Basics
  import opened Model
  import opened MapStore

  /** The store after a run of operations on a fresh database, failed ones included. */
  ghost function Run(ops: seq<Op>): Store {
    if ops == [] then EMPTY
    else Apply(Run(ops[..|ops| - 1]), ops[|ops| - 1]).store
  }

  lemma RunPrefix(ops: seq<Op>, k: nat)
    requires 0 < k <= |ops|
    ensures Run(ops[..k]) == Apply(Run(ops[..k - 1]), ops[k - 1]).store
  {
    assert ops[..k][..k - 1] == ops[..k - 1];
  }

  lemma RunSnoc(ops: seq<Op>, op: Op)
    ensures Run(ops + [op]) == Apply(Run(ops), op).store
  {
    assert (ops + [op])[..|ops|] == ops;
  }

  // ---- Invariant --------------------------------------------------------

  ghost predicate GoodRequest(id: ID, upd: WorkspaceUpdate) {
    && ValidUpdate(upd)
    && upd.workspaceID == id
    && upd.byUser in upd.users
    && SortedBy(upd.users, Leq)
  }

  ghost predicate GoodEntry(id: ID, e: Entry) {
    && e.nodegroup in NODEGROUPS
    && e.quotas.Keys <= RESOURCES
    && FitsBigint(e.quotas)
    && (e.enabled ==> e.created)
    && (e.request.Some? ==> GoodRequest(id, e.request.value))
  }

  ghost predicate Good(s: Store) {
    && 1 <= s.nextID
    && forall id | id in s.data :: 1 <= id < s.nextID && id <= MAX_BIGINT && GoodEntry(id, s.data[id])
  }

  lemma SortedRequestIsGood(id: ID, upd: WorkspaceUpdate)
    requires ValidUpdate(upd) && upd.byUser in upd.users && upd.workspaceID == id
    ensures GoodRequest(id, SortedRequest(upd))
  {
    LeqIsTotalOrder();
    SortSorts(upd.users, Leq);
    var sorted := Sort(upd.users, Leq);
    SortKeepsDistinct(upd.users);
    assert upd.byUser in multiset(sorted);
  }

  lemma SortKeepsDistinct(names: seq<string>)
    requires NoDuplicates(names)
    ensures NoDuplicates(Sort(names, Leq))
    ensures Elements(Sort(names, Leq)) == Elements(names)
  {
    var sorted := Sort(names, Leq);
    forall x ensures x in sorted <==> x in names {
      assert x in sorted <==> x in multiset(sorted);
      assert x in names <==> x in multiset(names);
    }
    assert Elements(sorted) == Elements(names);
    NoDuplicatesIsSet(names);
    SetSizeMeansNoDuplicates(sorted);
  }

  lemma CreateKeepsGood(s: Store, ws: Workspace, email: string)
    requires Good(s)
    ensures Good(ApplyCreate(s, ws, email).store)
  {
    var a := ApplyCreate(s, ws, email);
    if a.error == None {
      SortedRequestIsGood(s.nextID, InitialRequest(ws).(workspaceID := s.nextID));
      assert GoodEntry(s.nextID, InitialEntry(s.nextID, ws, email));
    }
  }

  lemma ApplyKeepsGood(s: Store, op: Op)
    requires Good(s)
    ensures Good(Apply(s, op).store)
  {
    match op
    case Create(ws, email) => CreateKeepsGood(s, ws, email);
    case RequestUpdate(upd) =>
      if Apply(s, op).error == None {
        SortedRequestIsGood(upd.workspaceID, upd);
      }
    case Update(_) =>
    case Delete(_) =>
    case Accept(_, _, _) =>
    case Decline(_, _) =>
  }

  lemma {:induction false} RunsStayGood(ops: seq<Op>)
    ensures Good(Run(ops))
  {
    if ops != [] {
      RunsStayGood(ops[..|ops| - 1]);
      ApplyKeepsGood(Run(ops[..|ops| - 1]), ops[|ops| - 1]);
    }
  }

  /** A stored workspace reads back valid exactly when it still has a member. */
  lemma ViewIsValidIffInhabited(ops: seq<Op>, id: ID)
    requires id in Run(ops).data
    ensures ValidWorkspace(View(id, Run(ops).data[id])) <==> Run(ops).data[id].users != map[]
  {
    RunsStayGood(ops);
    var e := Run(ops).data[id];
    var names := NamesOf(e.users);
    assert Usernames(View(id, e).users) == names;
    if e.users == map[] {
      assert e.users.Keys == {};
      NoDuplicatesIsSet(names);
    } else {
      var u :| u in e.users;
      assert u in Elements(names);
    }
  }

  /** Only a decline by the last member empties a workspace. */
  lemma OnlyLastDeclineEmpties(s: Store, op: Op, id: ID)
    requires id in Apply(s, op).store.data
    requires id in s.data ==> s.data[id].users != map[]
    ensures Apply(s, op).store.data[id].users == map[] <==>
            op.Decline? && op.id == id && Pending(s, id, op.username) && s.data[id].users.Keys == {op.username}
  {
    var t := Apply(s, op).store;
    match op
    case Create(ws, email) =>
      if Apply(s, op).error == None && id == s.nextID {
        assert Usernames(ws.users)[0] in t.data[id].users;
      }
    case Update(upd) =>
      if Apply(s, op).error == None && id == upd.workspaceID {
        assert upd.users[0] in t.data[id].users;
      }
    case RequestUpdate(_) =>
    case Delete(_) =>
    case Accept(i, u, e) =>
      if Pending(s, i, u) && i == id { assert u in t.data[id].users; }
    case Decline(i, u) =>
      if Pending(s, i, u) && i == id {
        assert t.data[id].users.Keys == s.data[id].users.Keys - {u};
        if s.data[id].users.Keys != {u} {
          var v :| v in s.data[id].users && v != u;
          assert v in t.data[id].users;
        }
      }
  }

  // ---- Identity and the created latch ------------------------------------

  lemma StepGrowsNextID(s: Store, op: Op)
    ensures s.nextID <= Apply(s, op).store.nextID
  {
  }

  lemma {:induction false} NextIDNeverDecreases(ops: seq<Op>, k: nat, n: nat)
    requires k <= n <= |ops|
    ensures Run(ops[..k]).nextID <= Run(ops[..n]).nextID
  {
    if k < n {
      NextIDNeverDecreases(ops, k, n - 1);
      RunPrefix(ops, n);
      StepGrowsNextID(Run(ops[..n - 1]), ops[n - 1]);
    }
  }

  ghost predicate Exists(ops: seq<Op>, n: nat, id: ID) {
    n <= |ops| && id in Run(ops[..n]).data
  }

  ghost predicate IsCreated(ops: seq<Op>, n: nat, id: ID) {
    n <= |ops| && id in Run(ops[..n]).data && Run(ops[..n]).data[id].created
  }

  lemma StepExistence(ops: seq<Op>, n: nat, id: ID)
    requires 0 < n <= |ops|
    ensures Exists(ops, n, id) ==> Exists(ops, n - 1, id) || id == Run(ops[..n - 1]).nextID
  {
    RunPrefix(ops, n);
  }

  lemma StepCreated(s: Store, op: Op, id: ID)
    requires Good(s) && id in s.data && s.data[id].created && id in Apply(s, op).store.data
    ensures Apply(s, op).store.data[id].created
  {
  }

  /** IDs are never reused, so an ID once issued and absent stays absent. */
  lemma {:induction false} DeletedStaysDeleted(ops: seq<Op>, k: nat, n: nat, id: ID)
    requires k <= n <= |ops| && id < Run(ops[..k]).nextID && !Exists(ops, k, id)
    ensures !Exists(ops, n, id)
  {
    if k < n {
      DeletedStaysDeleted(ops, k, n - 1, id);
      NextIDNeverDecreases(ops, k, n - 1);
      StepExistence(ops, n, id);
    }
  }

  /** Once created, a workspace stays created for as long as it exists. */
  lemma {:induction false} CreatedLatches(ops: seq<Op>, k: nat, n: nat, id: ID)
    requires k <= n <= |ops| && IsCreated(ops, k, id) && Exists(ops, n, id)
    ensures IsCreated(ops, n, id)
  {
    if k < n {
      if !Exists(ops, n - 1, id) {
        RunsStayGood(ops[..k]);
        NextIDNeverDecreases(ops, k, n - 1);
        DeletedStaysDeleted(ops, n - 1, n, id);
      }
      CreatedLatches(ops, k, n - 1, id);
      RunsStayGood(ops[..n - 1]);
      RunPrefix(ops, n);
      StepCreated(Run(ops[..n - 1]), ops[n - 1], id);
    }
  }

  // ---- Provenance of acceptance -----------------------------------------

  /** `op` is the operation that accepts `username` with `email`. */
  ghost predicate Grants(s: Store, op: Op, id: ID, username: string, email: string) {
    || (op.Create? && id == s.nextID && op.ws.users != [] && op.ws.users[0].username == username && op.email == email)
    || (op == Accept(id, username, email) && Pending(s, id, username))
  }

  lemma AcceptanceIsGranted(s: Store, op: Op, id: ID, username: string, email: string)
    requires AcceptedWith(Apply(s, op).store, id, username, email)
    ensures AcceptedWith(s, id, username, email) || Grants(s, op, id, username, email)
  {
    match op
    case Create(ws, _) =>
      if Apply(s, op).error == None {
        assert Usernames(ws.users)[0] == ws.users[0].username;
      }
    case Update(_) =>
    case RequestUpdate(_) =>
    case Delete(_) =>
    case Accept(_, _, _) =>
    case Decline(_, _) =>
  }

  /** After the first `j` operations, `username` is accepted with `email`. */
  ghost predicate HeldAt(ops: seq<Op>, j: nat, id: ID, username: string, email: string) {
    j <= |ops| && AcceptedWith(Run(ops[..j]), id, username, email)
  }

  ghost predicate GrantedAt(ops: seq<Op>, i: nat, id: ID, username: string, email: string) {
    i < |ops| && Grants(Run(ops[..i]), ops[i], id, username, email)
  }

  /** An accepted member was granted that email at some step, and held it ever since. */
  lemma {:induction false} AcceptanceProvenance(ops: seq<Op>, n: nat, id: ID, username: string, email: string)
    requires HeldAt(ops, n, id, username, email)
    ensures exists i: nat ::
              && i < n
              && GrantedAt(ops, i, id, username, email)
              && forall j: nat | i < j <= n :: HeldAt(ops, j, id, username, email)
  {
    StepAcceptance(ops, n, id, username, email);
    if GrantedAt(ops, n - 1, id, username, email) {
      assert forall j: nat | n - 1 < j <= n :: HeldAt(ops, j, id, username, email);
    } else {
      AcceptanceProvenance(ops, n - 1, id, username, email);
      var i: nat :|
        && i < n - 1
        && GrantedAt(ops, i, id, username, email)
        && forall j: nat | i < j <= n - 1 :: HeldAt(ops, j, id, username, email);
      assert forall j: nat | i < j <= n :: HeldAt(ops, j, id, username, email);
    }
  }

  lemma StepAcceptance(ops: seq<Op>, n: nat, id: ID, username: string, email: string)
    requires HeldAt(ops, n, id, username, email)
    ensures n > 0
    ensures HeldAt(ops, n - 1, id, username, email) || GrantedAt(ops, n - 1, id, username, email)
  {
    if n > 0 {
      RunPrefix(ops, n);
      AcceptanceIsGranted(Run(ops[..n - 1]), ops[n - 1], id, username, email);
    }
  }

  /** The one operation that ends an acceptance of a surviving workspace is an update without the member. */
  lemma AcceptanceEndsByUpdate(s: Store, op: Op, id: ID, username: string, email: string)
    requires Good(s) && AcceptedWith(s, id, username, email) && id in Apply(s, op).store.data
    ensures AcceptedWith(Apply(s, op).store, id, username, email) <==>
            !(op.Update? && Apply(s, op).error == None && op.upd.workspaceID == id && username !in op.upd.users)
  {
  }

  ghost predicate IsMember(ops: seq<Op>, n: nat, id: ID, username: string) {
    n <= |ops| && id in Run(ops[..n]).data && username in Run(ops[..n]).data[id].users
  }

  ghost predicate GrantedBetween(ops: seq<Op>, j: nat, n: nat, id: ID, username: string) {
    exists i: nat, email :: j <= i < n && GrantedAt(ops, i, id, username, email)
  }

  /** Whoever was not a member is accepted later only by an acceptance in between. */
  lemma AcceptedAfterAbsence(ops: seq<Op>, j: nat, n: nat, id: ID, username: string, email: string)
    requires j <= n && HeldAt(ops, n, id, username, email)
    ensures !IsMember(ops, j, id, username) ==> GrantedBetween(ops, j, n, id, username)
  {
    AcceptanceProvenance(ops, n, id, username, email);
    var i: nat :|
      && i < n
      && GrantedAt(ops, i, id, username, email)
      && forall k: nat | i < k <= n :: HeldAt(ops, k, id, username, email);
    if i < j {
      assert HeldAt(ops, j, id, username, email);
    }
  }

  /** A member dropped at some point and there again later is invited, unless accepted anew since. */
  lemma DroppedThenReaddedIsPending(ops: seq<Op>, j: nat, n: nat, id: ID, username: string)
    requires j <= n <= |ops| && IsMember(ops, n, id, username)
    ensures !IsMember(ops, j, id, username) && !GrantedBetween(ops, j, n, id, username) ==>
              Pending(Run(ops[..n]), id, username)
  {
    var acceptance := Run(ops[..n]).data[id].users[username];
    if acceptance.Some? {
      assert HeldAt(ops, n, id, username, acceptance.value);
      AcceptedAfterAbsence(ops, j, n, id, username, acceptance.value);
    }
  }

  // ---- NULL against the empty string ------------------------------------

  lemma MemberAt(users: map<string, Option<string>>, i: nat)
    ensures i < |MembersOf(users)| ==>
              MembersOf(users)[i].username in users
              && MembersOf(users)[i].email == Coalesce(users[MembersOf(users)[i].username])
  {
    if i < |MembersOf(users)| {
      assert NamesOf(users)[i] in Elements(NamesOf(users));
    }
  }

  lemma MemberExists(users: map<string, Option<string>>, username: string) returns (i: nat)
    requires username in users
    ensures i < |MembersOf(users)| && MembersOf(users)[i].username == username
  {
    assert username in Elements(NamesOf(users));
    i :| i < |NamesOf(users)| && NamesOf(users)[i] == username;
  }

  /** Membership listings test for NULL, the model tests for "". They part at a stored empty email. */
  lemma AcceptanceTestsAgreeIffNoEmptyEmail(users: map<string, Option<string>>)
    ensures (forall i | 0 <= i < |MembersOf(users)| ::
               MembersOf(users)[i].username in users
               && (MembersOf(users)[i].IsAccepted() <==> users[MembersOf(users)[i].username].Some?))
       <==> (forall u | u in users :: users[u] != Some(""))
  {
    forall i: nat | i < |MembersOf(users)|
      ensures MembersOf(users)[i].username in users
      ensures MembersOf(users)[i].email == Coalesce(users[MembersOf(users)[i].username])
    {
      MemberAt(users, i);
    }
    if u :| u in users && users[u] == Some("") {
      var i := MemberExists(users, u);
      assert !MembersOf(users)[i].IsAccepted();
    }
  }

  ghost predicate SuppliesEmail(op: Op) {
    (op.Create? || op.Accept?) ==> op.email != ""
  }

  /** With non-empty emails going in, the two tests agree in every reachable state. */
  lemma {:induction false} NonEmptyEmailsPersist(ops: seq<Op>, id: ID, username: string, email: string)
    requires forall op | op in ops :: SuppliesEmail(op)
    requires AcceptedWith(Run(ops), id, username, email)
    ensures email != ""
  {
    assert ops[..|ops|] == ops;
    AcceptanceProvenance(ops, |ops|, id, username, email);
    var i: nat :| GrantedAt(ops, i, id, username, email);
    assert GrantedAt(ops, i, id, username, email);
    assert ops[i] in ops;
  }

  // ---- Order of submitted users -----------------------------------------

  lemma PermutedUpdatesEquallyValid(a: WorkspaceUpdate, b: WorkspaceUpdate)
    requires multiset(a.users) == multiset(b.users) && a == b.(users := a.users)
    ensures ValidUpdate(a) <==> ValidUpdate(b)
    ensures SortedRequest(a) == SortedRequest(b)
    ensures forall u :: u in a.users <==> u in b.users
  {
    PermutedElements(a.users, b.users);
    LeqIsTotalOrder();
    SortIgnoresOrder(a.users, b.users, Leq);
    forall u ensures u in a.users <==> u in b.users {
      assert u in a.users <==> u in Elements(a.users);
    }
  }

  /** A form delivers its users in arbitrary order; an update does not depend on it. */
  lemma UpdateIgnoresUserOrder(s: Store, a: WorkspaceUpdate, b: WorkspaceUpdate)
    requires multiset(a.users) == multiset(b.users) && a == b.(users := a.users)
    ensures ApplyUpdate(s, a) == ApplyUpdate(s, b)
  {
    PermutedUpdatesEquallyValid(a, b);
    if a.workspaceID in s.data {
      var e := s.data[a.workspaceID];
      assert UpdatedMembers(e.users, a.users) == UpdatedMembers(e.users, b.users);
      assert UpdatedEntry(e, a) == UpdatedEntry(e, b);
    }
  }

  /** Nor does a request for one. */
  lemma RequestIgnoresUserOrder(s: Store, a: WorkspaceUpdate, b: WorkspaceUpdate)
    requires multiset(a.users) == multiset(b.users) && a == b.(users := a.users)
    ensures ApplyRequest(s, a) == ApplyRequest(s, b)
  {
    PermutedUpdatesEquallyValid(a, b);
  }
}
