/**
 Reading workspaces back: one pass per table fills the listed workspaces through an index.
 Each table is a parameter of its own, because under READ COMMITTED each statement of
 the listing transaction may see a different committed state.
 */
module WorkspaceScan {
  import opened Basics
  import opened Model
  import opened MapStore
  import opened StoreRuns
  import opened Database

  // ---- What a listing is --------------------------------------------------

  /** One workspace per id, in ascending id order, each assembled by direct lookup. */
  ghost function Listing(
    workspaces: map<ID, WorkspaceRow>, quotas: map<(ID, Resource), nat>,
    users: map<(ID, string), Option<string>>, requests: map<ID, RequestRow>, ids: set<ID>): (r: seq<Workspace>)
    requires ids <= workspaces.Keys
    ensures |r| == |ids|
  {
    var order := OrderedIDs(ids);
    NoDuplicatesIsSet(order);
    assert forall i | 0 <= i < |order| :: order[i] in Elements(order);
    seq(|order|, i requires 0 <= i < |order| =>
      View(order[i], EntryOf(workspaces[order[i]], quotas, users, requests, order[i])))
  }

  // ---- SELECT statements ----------------------------------------------------

  lemma LeastID(ids: set<ID>)
    requires ids != {}
    ensures exists id: ID :: id in ids && forall x: ID | x in ids :: id <= x
  {
    HasLeast(ids, IdLeq);
    var m :| IsLeast(m, ids, IdLeq);
    assert forall x: ID | x in ids :: IdLeq(m, x);
  }

  /** ORDER BY id. */
  method OrderIDs(all: set<ID>) returns (ids: seq<ID>)
    ensures ids == OrderedIDs(all)
  {
    var left := all;
    ids := [];
    while left != {}
      invariant Ascending(ids)
      invariant Elements(ids) + left == all
      invariant forall i, x | 0 <= i < |ids| && x in left :: ids[i] < x
      decreases left
    {
      LeastID(left);
      var id: ID :| id in left && forall x | x in left :: id <= x;
      assert Elements(ids + [id]) == Elements(ids) + {id};
      ids := ids + [id];
      left := left - {id};
    }
    AscendingIsOrdered(ids, all);
  }

  /** A workspace as scanned from its own row, with nothing filled in yet. */
  function Blank(id: ID, row: WorkspaceRow): Workspace {
    Workspace(id, row.created, row.enabled, row.nodegroup, row.userdata, map[], [], None)
  }

  function Found(workspaces: map<ID, WorkspaceRow>, ids: seq<ID>): set<ID> {
    set id | id in ids && id in workspaces
  }

  /** The rows of `ids` in ascending order of id. */
  ghost predicate IsScan(wss: seq<Workspace>, workspaces: map<ID, WorkspaceRow>, ids: set<ID>) {
    && |wss| == |OrderedIDs(ids)|
    && forall i | 0 <= i < |wss| :: ScannedAs(wss[i], OrderedIDs(ids)[i], workspaces)
  }

  ghost predicate ScannedAs(ws: Workspace, id: ID, workspaces: map<ID, WorkspaceRow>) {
    id in workspaces && ws == Blank(id, workspaces[id])
  }

  method SelectWorkspaces(workspaces: map<ID, WorkspaceRow>, ids: seq<ID>) returns (wss: seq<Workspace>)
    ensures IsScan(wss, workspaces, Found(workspaces, ids))
  {
    var order := OrderIDs(Found(workspaces, ids));
    assert forall i | 0 <= i < |order| :: order[i] in Elements(order);
    wss := seq(|order|, i requires 0 <= i < |order| => Blank(order[i], workspaces[order[i]]));
  }

  function KeysFor<V>(t: map<(ID, string), V>, ids: set<ID>): set<(ID, string)> {
    set k | k in t && k.0 in ids
  }

  /** ORDER BY username; rows of different workspaces with one username come in any order. */
  method SelectUsers(users: map<(ID, string), Option<string>>, ids: seq<ID>) returns (rows: seq<(ID, string)>)
    ensures NoDuplicates(rows) && Elements(rows) == KeysFor(users, Elements(ids))
    ensures forall i, j | 0 <= i < j < |rows| :: Leq(rows[i].1, rows[j].1)
  {
    var left := KeysFor(users, Elements(ids));
    rows := [];
    while left != {}
      invariant NoDuplicates(rows) && Elements(rows) + left == KeysFor(users, Elements(ids))
      invariant Elements(rows) !! left
      invariant forall i, j | 0 <= i < j < |rows| :: Leq(rows[i].1, rows[j].1)
      invariant forall i, k | 0 <= i < |rows| && k in left :: Leq(rows[i].1, k.1)
      decreases left
    {
      HasLeastName(left);
      var k :| k in left && forall x | x in left :: Leq(k.1, x.1);
      assert k !in Elements(rows);
      assert Elements(rows + [k]) == Elements(rows) + {k};
      rows := rows + [k];
      left := left - {k};
    }
  }

  lemma HasLeastName(keys: set<(ID, string)>)
    requires keys != {}
    ensures exists k :: k in keys && forall x | x in keys :: Leq(k.1, x.1)
  {
    LeqIsTotalOrder();
    var names := set k | k in keys :: k.1;
    var k0 :| k0 in keys;
    assert k0.1 in names;
    HasLeast(names, Leq);
    var n :| IsLeast(n, names, Leq);
    var k :| k in keys && k.1 == n;
    forall x | x in keys ensures Leq(k.1, x.1) {
      assert x.1 in names;
    }
  }

  // ---- Filling through the index ---------------------------------------------

  /** wsind maps each listed id to its slot. */
  ghost predicate Indexes(wsind: map<ID, int>, wss: seq<Workspace>) {
    && (forall i | 0 <= i < |wss| :: wss[i].id in wsind && wsind[wss[i].id] == i)
    && (forall id | id in wsind :: 0 <= wsind[id] < |wss| && wss[wsind[id]].id == id)
  }

  ghost function WithQuotas(wss: seq<Workspace>, quotas: map<(ID, Resource), nat>): seq<Workspace> {
    seq(|wss|, i requires 0 <= i < |wss| => wss[i].(quotas := RowsOf(quotas, wss[i].id)))
  }

  lemma SlotOf(wsind: map<ID, int>, wss: seq<Workspace>, id: ID)
    requires Indexes(wsind, wss) && id in wsind
    ensures 0 <= wsind[id] < |wss| && wss[wsind[id]].id == id
    ensures forall i | 0 <= i < |wss| && i != wsind[id] :: wss[i].id != id
  {
  }

  /** The quotas recorded for one workspace by the rows so far. */
  ghost function Collected(rows: seq<(ID, Resource)>, quotas: map<(ID, Resource), nat>, id: ID): map<Resource, nat>
    requires forall k | k in rows :: k in quotas
  {
    if rows == [] then map[]
    else
      var k := rows[|rows| - 1];
      var before := Collected(rows[..|rows| - 1], quotas, id);
      if k.0 == id then before[k.1 := quotas[k]] else before
  }

  lemma {:induction false} CollectedRows(
    rows: seq<(ID, Resource)>, quotas: map<(ID, Resource), nat>, id: ID)
    requires forall k | k in rows :: k in quotas
    ensures forall n :: n in Collected(rows, quotas, id) <==> (id, n) in rows
    ensures forall n | n in Collected(rows, quotas, id) :: Collected(rows, quotas, id)[n] == quotas[(id, n)]
  {
    if rows != [] {
      var k, init := rows[|rows| - 1], rows[..|rows| - 1];
      assert rows == init + [k] && k == (k.0, k.1);
      CollectedRows(init, quotas, id);
    }
  }

  ghost function WithCollected(
    wss: seq<Workspace>, rows: seq<(ID, Resource)>, quotas: map<(ID, Resource), nat>): seq<Workspace>
    requires forall k | k in rows :: k in quotas
  {
    seq(|wss|, i requires 0 <= i < |wss| => wss[i].(quotas := Collected(rows, quotas, wss[i].id)))
  }

  function SetQuota(ws: Workspace, resource: Resource, quantity: nat): Workspace {
    ws.(quotas := ws.quotas[resource := quantity])
  }

  lemma QuotaStep(
    wss: seq<Workspace>, slot: nat, rows: seq<(ID, string)>, k: (ID, Resource), quotas: map<(ID, Resource), nat>)
    requires slot < |wss| && (forall i | 0 <= i < |wss| && i != slot :: wss[i].id != wss[slot].id)
    requires (forall x | x in rows :: x in quotas) && k in quotas && k.0 == wss[slot].id
    ensures WithCollected(wss, rows, quotas)[slot := SetQuota(WithCollected(wss, rows, quotas)[slot], k.1, quotas[k])]
         == WithCollected(wss, rows + [k], quotas)
  {
    assert (rows + [k])[..|rows|] == rows;
  }

  method FillQuotas(
    wss: array<Workspace>, wsind: map<ID, int>, quotas: map<(ID, Resource), nat>, ids: seq<ID>)
    requires Indexes(wsind, wss[..]) && wsind.Keys == Elements(ids)
    requires forall i | 0 <= i < wss.Length :: wss[i].quotas == map[]
    modifies wss
    ensures wss[..] == WithQuotas(old(wss[..]), quotas)
  {
    var rows := AnyOrder(KeysFor(quotas, Elements(ids)));
    forall k | k in rows ensures k in quotas && k.0 in wsind {
      assert k in Elements(rows);
    }
    ghost var start := wss[..];
    assert Indexes(wsind, start);
    assert wss[..] == WithCollected(start, [], quotas);
    for n := 0 to |rows|
      invariant wss[..] == WithCollected(start, rows[..n], quotas)
    {
      var k := rows[n];
      assert k in rows && k.0 in wsind;
      var slot := wsind[k.0];
      SlotOf(wsind, start, k.0);
      QuotaStep(start, slot, rows[..n], k, quotas);
      ghost var was := wss[..];
      wss[slot] := SetQuota(wss[slot], k.1, quotas[k]);
      assert wss[..] == was[slot := SetQuota(was[slot], k.1, quotas[k])];
      assert rows[..n + 1] == rows[..n] + [k];
    }
    assert rows[..|rows|] == rows;
    AllCollected(start, rows, quotas, Elements(ids));
  }

  lemma AllCollected(wss: seq<Workspace>, rows: seq<(ID, string)>, quotas: map<(ID, Resource), nat>, ids: set<ID>)
    requires (forall k | k in rows :: k in quotas)
    requires Elements(rows) == KeysFor(quotas, ids) && forall i | 0 <= i < |wss| :: wss[i].id in ids
    ensures WithCollected(wss, rows, quotas) == WithQuotas(wss, quotas)
  {
    forall i | 0 <= i < |wss| ensures Collected(rows, quotas, wss[i].id) == RowsOf(quotas, wss[i].id) {
      CollectedAll(rows, quotas, ids, wss[i].id);
    }
  }

  lemma CollectedAll(rows: seq<(ID, string)>, quotas: map<(ID, Resource), nat>, ids: set<ID>, id: ID)
    requires (forall k | k in rows :: k in quotas)
    requires Elements(rows) == KeysFor(quotas, ids) && id in ids
    ensures Collected(rows, quotas, id) == RowsOf(quotas, id)
  {
    CollectedRows(rows, quotas, id);
    forall n ensures n in Collected(rows, quotas, id) <==> n in RowsOf(quotas, id) {
      assert (id, n) in rows <==> (id, n) in Elements(rows);
    }
  }

  /** The members appended for one workspace by the rows so far. */
  ghost function Appended(rows: seq<(ID, string)>, users: map<(ID, string), Option<string>>, id: ID): seq<WorkspaceUser>
    requires forall k | k in rows :: k in users
  {
    if rows == [] then []
    else
      var k := rows[|rows| - 1];
      Appended(rows[..|rows| - 1], users, id)
      + if k.0 == id then [WorkspaceUser(k.1, Coalesce(users[k]))] else []
  }

  ghost predicate OrderedRows(rows: seq<(ID, string)>) {
    && NoDuplicates(rows)
    && forall i, j | 0 <= i < j < |rows| :: Leq(rows[i].1, rows[j].1)
  }

  lemma {:induction false} AppendedMember(
    rows: seq<(ID, string)>, users: map<(ID, string), Option<string>>, id: ID)
    requires forall k | k in rows :: k in users
    ensures forall m | m in Appended(rows, users, id) ::
              (id, m.username) in rows && m.email == Coalesce(users[(id, m.username)])
    ensures forall k | k in rows && k.0 == id ::
              WorkspaceUser(k.1, Coalesce(users[k])) in Appended(rows, users, id)
  {
    if rows != [] {
      AppendedMember(rows[..|rows| - 1], users, id);
      assert rows == rows[..|rows| - 1] + [rows[|rows| - 1]];
    }
  }

  /** The last row's name comes after all the names before it. */
  lemma LastNameIsGreatest(
    init: seq<(ID, string)>, k: (ID, string), users: map<(ID, string), Option<string>>, name: string)
    requires (forall r | r in init :: r in users) && OrderedRows(init + [k])
    requires name in Usernames(Appended(init, users, k.0))
    ensures Leq(name, k.1) && name != k.1
  {
    var before := Appended(init, users, k.0);
    AppendedMember(init, users, k.0);
    var i :| 0 <= i < |before| && Usernames(before)[i] == name;
    assert before[i] in before;
    var j :| 0 <= j < |init| && init[j] == (k.0, name);
    assert (init + [k])[j] == (k.0, name) && (init + [k])[|init|] == k;
  }

  lemma {:induction false} AppendedOrdered(
    rows: seq<(ID, string)>, users: map<(ID, string), Option<string>>, id: ID)
    requires (forall k | k in rows :: k in users) && OrderedRows(rows)
    ensures SortedBy(Usernames(Appended(rows, users, id)), Leq)
    ensures NoDuplicates(Usernames(Appended(rows, users, id)))
  {
    if rows != [] {
      var k, init := rows[|rows| - 1], rows[..|rows| - 1];
      AppendedOrdered(init, users, id);
      if k.0 == id {
        var names := Usernames(Appended(init, users, id));
        assert rows == init + [k] && Usernames(Appended(rows, users, id)) == names + [k.1];
        forall i | 0 <= i < |names| ensures Leq(names[i], k.1) && names[i] != k.1 {
          LastNameIsGreatest(init, k, users, names[i]);
        }
      }
    }
  }

  lemma AppendedNames(rows: seq<(ID, string)>, users: map<(ID, string), Option<string>>, ids: set<ID>, id: ID)
    requires (forall k | k in rows :: k in users) && OrderedRows(rows)
    requires Elements(rows) == KeysFor(users, ids) && id in ids
    ensures Usernames(Appended(rows, users, id)) == NamesOf(RowsOf(users, id))
  {
    var got, mine := Appended(rows, users, id), RowsOf(users, id);
    AppendedMember(rows, users, id);
    AppendedOrdered(rows, users, id);
    forall n ensures n in Usernames(got) <==> n in mine {
      if n in Usernames(got) {
        var i :| 0 <= i < |got| && Usernames(got)[i] == n;
        assert got[i] in got;
      }
      if n in mine {
        assert (id, n) in Elements(rows);
        var m := WorkspaceUser(n, Coalesce(users[(id, n)]));
        var i :| 0 <= i < |got| && got[i] == m;
        assert Usernames(got)[i] == n;
      }
    }
    LeqIsTotalOrder();
    assert Elements(Usernames(got)) == mine.Keys;
    SortedListIsSortedSet(Usernames(got), mine.Keys, Leq);
    SortedListIsSortedSet(NamesOf(mine), mine.Keys, Leq);
  }

  lemma AppendedAll(rows: seq<(ID, string)>, users: map<(ID, string), Option<string>>, ids: set<ID>, id: ID)
    requires (forall k | k in rows :: k in users) && OrderedRows(rows)
    requires Elements(rows) == KeysFor(users, ids) && id in ids
    ensures Appended(rows, users, id) == MembersOf(RowsOf(users, id))
  {
    var got, want := Appended(rows, users, id), MembersOf(RowsOf(users, id));
    AppendedNames(rows, users, ids, id);
    AppendedMember(rows, users, id);
    assert |got| == |Usernames(got)| == |want|;
    forall i: nat | i < |got| ensures got[i] == want[i] {
      MemberAt(RowsOf(users, id), i);
      assert got[i] in got;
      assert Usernames(got)[i] == Usernames(want)[i];
    }
  }

  ghost function WithAppended(
    wss: seq<Workspace>, rows: seq<(ID, string)>, users: map<(ID, string), Option<string>>): seq<Workspace>
    requires forall k | k in rows :: k in users
  {
    seq(|wss|, i requires 0 <= i < |wss| => wss[i].(users := Appended(rows, users, wss[i].id)))
  }

  ghost function WithMembers(wss: seq<Workspace>, users: map<(ID, string), Option<string>>): seq<Workspace> {
    seq(|wss|, i requires 0 <= i < |wss| => wss[i].(users := MembersOf(RowsOf(users, wss[i].id))))
  }

  function AddUser(ws: Workspace, user: WorkspaceUser): Workspace {
    ws.(users := ws.users + [user])
  }

  lemma UserStep(
    wss: seq<Workspace>, slot: nat, rows: seq<(ID, string)>, k: (ID, string), users: map<(ID, string), Option<string>>)
    requires slot < |wss| && (forall i | 0 <= i < |wss| && i != slot :: wss[i].id != wss[slot].id)
    requires (forall x | x in rows :: x in users) && k in users && k.0 == wss[slot].id
    ensures WithAppended(wss, rows, users)[slot :=
              AddUser(WithAppended(wss, rows, users)[slot], WorkspaceUser(k.1, Coalesce(users[k])))]
         == WithAppended(wss, rows + [k], users)
  {
    assert (rows + [k])[..|rows|] == rows;
    forall i | 0 <= i < |wss|
      ensures WithAppended(wss, rows + [k], users)[i]
           == if i == slot then AddUser(WithAppended(wss, rows, users)[i], WorkspaceUser(k.1, Coalesce(users[k])))
              else WithAppended(wss, rows, users)[i]
    {
      if i != slot {
        assert Appended(rows + [k], users, wss[i].id) == Appended(rows, users, wss[i].id) + [];
      }
    }
  }

  lemma AllAppended(
      wss: seq<Workspace>, rows: seq<(ID, string)>, users: map<(ID, string), Option<string>>, ids: set<ID>)
    requires (forall k | k in rows :: k in users) && OrderedRows(rows)
    requires Elements(rows) == KeysFor(users, ids) && forall i | 0 <= i < |wss| :: wss[i].id in ids
    ensures WithAppended(wss, rows, users) == WithMembers(wss, users)
  {
    forall i | 0 <= i < |wss| ensures Appended(rows, users, wss[i].id) == MembersOf(RowsOf(users, wss[i].id)) {
      AppendedAll(rows, users, ids, wss[i].id);
    }
  }

  method FillUsers(
    wss: array<Workspace>, wsind: map<ID, int>, users: map<(ID, string), Option<string>>, ids: seq<ID>)
    requires Indexes(wsind, wss[..]) && wsind.Keys == Elements(ids)
    requires forall i | 0 <= i < wss.Length :: wss[i].users == []
    modifies wss
    ensures wss[..] == WithMembers(old(wss[..]), users)
  {
    var rows := SelectUsers(users, ids);
    forall k | k in rows ensures k in users && k.0 in wsind {
      assert k in Elements(rows);
    }
    ghost var start := wss[..];
    assert Indexes(wsind, start);
    assert wss[..] == WithAppended(start, [], users);
    for n := 0 to |rows|
      invariant wss[..] == WithAppended(start, rows[..n], users)
    {
      var k := rows[n];
      assert k in rows && k.0 in wsind;
      var slot := wsind[k.0];
      SlotOf(wsind, start, k.0);
      var user := WorkspaceUser(k.1, Coalesce(users[k]));
      UserStep(start, slot, rows[..n], k, users);
      ghost var was := wss[..];
      wss[slot] := AddUser(wss[slot], user);
      assert wss[..] == was[slot := AddUser(was[slot], user)];
      assert rows[..n + 1] == rows[..n] + [k];
    }
    assert rows[..|rows|] == rows;
    AllAppended(start, rows, users, Elements(ids));
  }

  ghost function WithRequests(wss: seq<Workspace>, requests: map<ID, RequestRow>, seen: set<ID>): seq<Workspace> {
    seq(|wss|, i requires 0 <= i < |wss| =>
      wss[i].(request := if wss[i].id in seen then RequestOf(requests, wss[i].id) else None))
  }

  method FillRequests(
    wss: array<Workspace>, wsind: map<ID, int>, requests: map<ID, RequestRow>, ids: seq<ID>)
    requires Indexes(wsind, wss[..]) && wsind.Keys == Elements(ids)
    requires forall i | 0 <= i < wss.Length :: wss[i].request == None
    modifies wss
    ensures wss[..] == WithRequests(old(wss[..]), requests, requests.Keys)
  {
    var rows := AnyOrder(set id | id in ids && id in requests);
    ghost var start := wss[..];
    assert wss[..] == WithRequests(start, requests, {});
    for n := 0 to |rows|
      invariant wss[..] == WithRequests(start, requests, Elements(rows[..n]))
    {
      var id := rows[n];
      assert id in Elements(rows);
      var upd := requests[id].data;
      upd := upd.(users := Sort(upd.users, Leq));
      wss[wsind[id]] := wss[wsind[id]].(request := Some(upd));
      assert rows[..n + 1] == rows[..n] + [id];
      assert Elements(rows[..n + 1]) == Elements(rows[..n]) + {id};
    }
    assert rows[..|rows|] == rows;
    assert forall i | 0 <= i < |start| :: start[i].id in wsind;
    assert wss[..] == WithRequests(start, requests, requests.Keys);
  }

  /** The mapping for quick lookup. */
  method IndexByID(wss: seq<Workspace>) returns (wsind: map<ID, int>)
    requires forall i, j | 0 <= i < j < |wss| :: wss[i].id != wss[j].id
    ensures Indexes(wsind, wss)
  {
    wsind := map[];
    for i := 0 to |wss|
      invariant forall j | 0 <= j < i :: wss[j].id in wsind && wsind[wss[j].id] == j
      invariant forall id | id in wsind :: 0 <= wsind[id] < i && wss[wsind[id]].id == id
    {
      wsind := wsind[wss[i].id := i];
    }
  }

  lemma ScanHasDistinctIDs(wss: seq<Workspace>, workspaces: map<ID, WorkspaceRow>, ids: set<ID>)
    requires IsScan(wss, workspaces, ids)
    ensures forall i, j | 0 <= i < j < |wss| :: wss[i].id != wss[j].id
    ensures |wss| == |ids|
  {
    var order := OrderedIDs(ids);
    NoDuplicatesIsSet(order);
    forall i, j | 0 <= i < j < |wss| ensures wss[i].id != wss[j].id {
      assert ScannedAs(wss[i], order[i], workspaces) && ScannedAs(wss[j], order[j], workspaces);
    }
  }

  lemma ScanIsUnfilled(wss: seq<Workspace>, workspaces: map<ID, WorkspaceRow>, ids: set<ID>)
    requires IsScan(wss, workspaces, ids)
    ensures Unfilled(wss)
  {
    forall i | 0 <= i < |wss| ensures wss[i].quotas == map[] && wss[i].users == [] && wss[i].request == None {
      assert ScannedAs(wss[i], OrderedIDs(ids)[i], workspaces);
    }
  }

  lemma IndexedIDs(wss: seq<Workspace>, wsind: map<ID, int>, workspaces: map<ID, WorkspaceRow>, ids: set<ID>)
    requires IsScan(wss, workspaces, ids) && Indexes(wsind, wss)
    ensures wsind.Keys == ids
  {
    var order := OrderedIDs(ids);
    forall id | id in ids ensures id in wsind {
      assert id in Elements(order);
      var i :| 0 <= i < |order| && order[i] == id;
      assert ScannedAs(wss[i], order[i], workspaces);
    }
    forall id | id in wsind ensures id in ids {
      var i := wsind[id];
      assert ScannedAs(wss[i], order[i], workspaces);
      assert order[i] in Elements(order);
    }
  }

  // ---- queryWorkspaces ---------------------------------------------------------

  method QueryWorkspaces(
    workspaces: map<ID, WorkspaceRow>, quotas: map<(ID, Resource), nat>,
    users: map<(ID, string), Option<string>>, requests: map<ID, RequestRow>, ids: seq<ID>)
    returns (r: Result<seq<Workspace>>)
    ensures r.Ok? <==> NoDuplicates(ids) && Elements(ids) <= workspaces.Keys
    ensures r.Ok? ==> r.value == Listing(workspaces, quotas, users, requests, Elements(ids))
    ensures r.Err? ==> r.error == NotFound
  {
    var rows := SelectWorkspaces(workspaces, ids);
    ScanHasDistinctIDs(rows, workspaces, Found(workspaces, ids));
    CountFound(ids, workspaces.Keys, |rows|);
    if |rows| != |ids| {
      return Err(NotFound);
    }
    assert Found(workspaces, ids) == Elements(ids);
    var wsind := IndexByID(rows);
    IndexedIDs(rows, wsind, workspaces, Elements(ids));
    ScanIsUnfilled(rows, workspaces, Elements(ids));
    var filled := FillAll(rows, wsind, quotas, users, requests, ids);
    FilledIsListing(rows, workspaces, quotas, users, requests, Elements(ids));
    r := Ok(filled);
  }

  ghost predicate Unfilled(wss: seq<Workspace>) {
    forall i | 0 <= i < |wss| :: wss[i].quotas == map[] && wss[i].users == [] && wss[i].request == None
  }

  ghost function Filled(
    rows: seq<Workspace>, quotas: map<(ID, Resource), nat>,
    users: map<(ID, string), Option<string>>, requests: map<ID, RequestRow>): seq<Workspace>
  {
    WithRequests(WithMembers(WithQuotas(rows, quotas), users), requests, requests.Keys)
  }

  method FillAll(
    rows: seq<Workspace>, wsind: map<ID, int>, quotas: map<(ID, Resource), nat>,
    users: map<(ID, string), Option<string>>, requests: map<ID, RequestRow>, ids: seq<ID>)
    returns (filled: seq<Workspace>)
    requires Indexes(wsind, rows) && wsind.Keys == Elements(ids) && Unfilled(rows)
    ensures filled == Filled(rows, quotas, users, requests)
  {
    var wss := new Workspace[|rows|](i requires 0 <= i < |rows| => rows[i]);
    assert wss[..] == rows;
    FillQuotas(wss, wsind, quotas, ids);
    ghost var withQuotas := WithQuotas(rows, quotas);
    KeepsIndex(wsind, rows, withQuotas);
    assert forall i | 0 <= i < wss.Length :: wss[i] == withQuotas[i];
    FillUsers(wss, wsind, users, ids);
    ghost var withMembers := WithMembers(withQuotas, users);
    KeepsIndex(wsind, withQuotas, withMembers);
    assert forall i | 0 <= i < wss.Length :: wss[i] == withMembers[i];
    FillRequests(wss, wsind, requests, ids);
    filled := wss[..];
  }

  lemma KeepsIndex(wsind: map<ID, int>, a: seq<Workspace>, b: seq<Workspace>)
    requires Indexes(wsind, a) && |a| == |b| && forall i | 0 <= i < |a| :: a[i].id == b[i].id
    ensures Indexes(wsind, b)
  {
  }

  lemma FilledIsListing(
    rows: seq<Workspace>, workspaces: map<ID, WorkspaceRow>, quotas: map<(ID, Resource), nat>,
    users: map<(ID, string), Option<string>>, requests: map<ID, RequestRow>, ids: set<ID>)
    requires ids <= workspaces.Keys && IsScan(rows, workspaces, ids)
    ensures Filled(rows, quotas, users, requests) == Listing(workspaces, quotas, users, requests, ids)
  {
    var order, filled := OrderedIDs(ids), Filled(rows, quotas, users, requests);
    NoDuplicatesIsSet(order);
    forall i | 0 <= i < |rows|
      ensures order[i] in workspaces
      ensures filled[i] == View(order[i], EntryOf(workspaces[order[i]], quotas, users, requests, order[i]))
    {
      assert ScannedAs(rows[i], order[i], workspaces);
    }
    assert |filled| == |Listing(workspaces, quotas, users, requests, ids)|;
  }

  lemma CountFound(ids: seq<ID>, present: set<ID>, count: nat)
    requires count == |set id | id in ids && id in present|
    ensures count == |ids| <==> NoDuplicates(ids) && Elements(ids) <= present
  {
    var found := set id | id in ids && id in present;
    assert found <= Elements(ids);
    SubsetSize(found, Elements(ids));
    SetSizeMeansNoDuplicates(ids);
    if NoDuplicates(ids) {
      NoDuplicatesIsSet(ids);
    }
    if Elements(ids) <= present {
      assert found == Elements(ids);
    }
  }

  lemma {:induction false} SubsetSize<T>(a: set<T>, b: set<T>)
    requires a <= b
    ensures |a| <= |b| && (|a| == |b| ==> a == b)
  {
    if a != {} {
      var x :| x in a;
      SubsetSize(a - {x}, b - {x});
    }
  }
}
