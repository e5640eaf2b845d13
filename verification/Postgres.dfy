/**
 The Postgres repository. Each method runs its statements row by row on a transaction's
 copy of the tables and publishes the copy only on success; every method is proved to do
 to the map store exactly what MapStore says, errors and results included.
 */
module Postgres {
  import opened Basics
  import opened Model
  import opened MapStore
  import opened Database
  import opened WorkspaceScan

  // ---- Row-by-row statements ---------------------------------------------------

  /** INSERT ... ON CONFLICT DO UPDATE for each quota, in any order. None if a quantity is no BIGINT. */
  method UpsertQuotas(t: map<(ID, Resource), nat>, id: ID, quotas: map<Resource, nat>)
    returns (r: Option<map<(ID, Resource), nat>>)
    ensures r.Some? <==> FitsBigint(quotas)
    ensures r.Some? ==> SameElsewhere(t, r.value, id)
    ensures r.Some? ==> forall n :: (id, n) in r.value <==> (id, n) in t || n in quotas
    ensures r.Some? ==> forall n | (id, n) in r.value ::
                        r.value[(id, n)] == if n in quotas then quotas[n] else t[(id, n)]
  {
    var out := t;
    var left := quotas.Keys;
    while left != {}
      invariant left <= quotas.Keys
      invariant forall q | q in quotas && q !in left :: quotas[q] <= MAX_BIGINT
      invariant SameElsewhere(t, out, id)
      invariant forall n :: (id, n) in out <==> (id, n) in t || (n in quotas && n !in left)
      invariant forall n | (id, n) in out ::
                  out[(id, n)] == if n in quotas && n !in left then quotas[n] else t[(id, n)]
      decreases left
    {
      var resource :| resource in left;
      if quotas[resource] > MAX_BIGINT {
        return None;
      }
      out := out[(id, resource) := quotas[resource]];
      left := left - {resource};
    }
    return Some(out);
  }

  /** INSERT ... ON CONFLICT DO NOTHING for each user. */
  method InviteUsers(t: map<(ID, string), Option<string>>, id: ID, names: seq<string>)
    returns (out: map<(ID, string), Option<string>>)
    ensures SameElsewhere(t, out, id)
    ensures forall n :: (id, n) in out <==> (id, n) in t || n in names
    ensures forall n | (id, n) in out :: out[(id, n)] == if (id, n) in t then t[(id, n)] else None
  {
    out := t;
    for i := 0 to |names|
      invariant SameElsewhere(t, out, id)
      invariant forall n :: (id, n) in out <==> (id, n) in t || n in names[..i]
      invariant forall n | (id, n) in out :: out[(id, n)] == if (id, n) in t then t[(id, n)] else None
    {
      if (id, names[i]) !in out {
        out := out[(id, names[i]) := None];
      }
      assert names[..i + 1] == names[..i] + [names[i]];
    }
    assert names[..|names|] == names;
  }

  /** The members of a new workspace: the first gets the email, the others NULL. */
  method InsertMembers(t: map<(ID, string), Option<string>>, id: ID, users: seq<WorkspaceUser>, creatorEmail: string)
    returns (out: map<(ID, string), Option<string>>)
    requires users != [] && NoDuplicates(Usernames(users)) && RowsAre(t, id, map[])
    ensures SameElsewhere(t, out, id)
    ensures RowsAre(out, id, InitialMembers(Usernames(users), creatorEmail))
  {
    out := t;
    ghost var names := Usernames(users);
    for i := 0 to |users|
      invariant SameElsewhere(t, out, id)
      invariant forall n :: (id, n) in out <==> n in names[..i]
      invariant forall n | (id, n) in out :: out[(id, n)] == if n == names[0] then Some(creatorEmail) else None
    {
      var email := if i == 0 then Some(creatorEmail) else None;
      assert users[i].username == names[i] && names[..i + 1] == names[..i] + [names[i]];
      out := out[(id, users[i].username) := email];
    }
    assert names[..|users|] == names;
  }

  /** DELETE the quotas no longer named, then upsert the others. */
  method ReplaceQuotas(t: map<(ID, Resource), nat>, id: ID, quotas: map<Resource, nat>)
    returns (r: Option<map<(ID, Resource), nat>>)
    ensures r.Some? <==> FitsBigint(quotas)
    ensures r.Some? ==> SameElsewhere(t, r.value, id) && RowsAre(r.value, id, quotas)
  {
    r := UpsertQuotas(DeleteExcept(t, id, quotas.Keys), id, quotas);
  }

  /** The surviving rows of a member list, plus NULL rows for the new names. */
  ghost predicate MembersUpdated(
    before: map<(ID, string), Option<string>>, after: map<(ID, string), Option<string>>, id: ID, names: seq<string>)
  {
    && SameElsewhere(before, after, id)
    && (forall n :: (id, n) in after <==> n in names)
    && (forall n | (id, n) in after :: after[(id, n)] == if (id, n) in before then before[(id, n)] else None)
  }

  /** DELETE the users no longer named, then invite the others unless they are there. */
  method ReplaceMembers(t: map<(ID, string), Option<string>>, id: ID, names: seq<string>)
    returns (out: map<(ID, string), Option<string>>)
    ensures MembersUpdated(t, out, id, names)
  {
    out := InviteUsers(DeleteExcept(t, id, Elements(names)), id, names);
  }

  // ---- What each operation's statements leave in the tables ----------------------

  /** The keys of `b` are those of `a`, but for rows of `id`, which exists in `b`. */
  lemma StaysConsistent(a: Tables, b: Tables, id: ID)
    requires Consistent(a) && OthersKept(a, b, id)
    requires id in b.workspaces ==> id < b.nextID
    requires id !in b.workspaces ==> RowsAre(b.quotas, id, map[]) && RowsAre(b.users, id, map[]) && id !in b.requests
    requires a.nextID <= b.nextID
    ensures Consistent(b)
  {
    forall other | other != id ensures other in a.workspaces <==> other in b.workspaces {
      assert other in a.workspaces <==> other in a.workspaces - {id};
      assert other in b.workspaces <==> other in b.workspaces - {id};
    }
    forall other | other != id && other in b.requests ensures other in a.requests {
      assert other in b.requests - {id};
    }
    forall k | k in b.quotas ensures k.0 in b.workspaces {
      assert k == (k.0, k.1);
    }
    forall k | k in b.users ensures k.0 in b.workspaces {
      assert k == (k.0, k.1);
    }
  }

  function InsertedRows(
    db: Tables, ws: Workspace, quotas: map<(ID, Resource), nat>, users: map<(ID, string), Option<string>>): Tables
    requires ws.users != []
  {
    var id := db.nextID;
    var upd := InitialRequest(ws).(workspaceID := id);
    Tables(db.workspaces[id := WorkspaceRow(false, false, ws.nodegroup, ws.userdata)],
           quotas, users, db.requests[id := RequestRow(upd.byUser, upd)], id + 1)
  }

  lemma NoRowsYet(db: Tables)
    requires Consistent(db)
    ensures RowsAre(db.quotas, db.nextID, map[]) && RowsAre(db.users, db.nextID, map[])
    ensures db.nextID !in db.workspaces && db.nextID !in db.requests
  {
  }

  lemma InsertionShows(
    db: Tables, ws: Workspace, email: string,
    quotas: map<(ID, Resource), nat>, users: map<(ID, string), Option<string>>)
    requires ws.users != [] && RowsAre(quotas, db.nextID, ws.quotas)
    requires RowsAre(users, db.nextID, InitialMembers(Usernames(ws.users), email))
    ensures Shows(InsertedRows(db, ws, quotas, users), db.nextID, InitialEntry(db.nextID, ws, email))
  {
  }

  lemma InsertionCreates(
    db: Tables, ws: Workspace, email: string,
    quotas: map<(ID, Resource), nat>, users: map<(ID, string), Option<string>>)
    requires Consistent(db) && ws.users != []
    requires SameElsewhere(db.quotas, quotas, db.nextID) && RowsAre(quotas, db.nextID, ws.quotas)
    requires SameElsewhere(db.users, users, db.nextID) &&
             RowsAre(users, db.nextID, InitialMembers(Usernames(ws.users), email))
    ensures Consistent(InsertedRows(db, ws, quotas, users))
    ensures Abstraction(InsertedRows(db, ws, quotas, users)).data
         == Abstraction(db).data[db.nextID := InitialEntry(db.nextID, ws, email)]
  {
    var tx := InsertedRows(db, ws, quotas, users);
    assert OthersKept(db, tx, db.nextID);
    InsertionShows(db, ws, email, quotas, users);
    AbstractionOfChange(db, tx, db.nextID, InitialEntry(db.nextID, ws, email));
    StaysConsistent(db, tx, db.nextID);
  }

  function UpdatedRows(
    db: Tables, upd: WorkspaceUpdate, quotas: map<(ID, Resource), nat>, users: map<(ID, string), Option<string>>)
    : Tables
    requires upd.workspaceID in db.workspaces
  {
    var id := upd.workspaceID;
    var row := WorkspaceRow(db.workspaces[id].created || upd.enabled, upd.enabled, upd.nodegroup, upd.userdata);
    Tables(db.workspaces[id := row], quotas, users, db.requests - {id}, db.nextID)
  }

  lemma MembersUpdatedRows(
    before: map<(ID, string), Option<string>>, after: map<(ID, string), Option<string>>, id: ID, names: seq<string>,
    users: map<string, Option<string>>)
    requires MembersUpdated(before, after, id, names) && RowsAre(before, id, users)
    ensures RowsAre(after, id, UpdatedMembers(users, names))
  {
  }

  lemma UpdateUpdates(
    db: Tables, e: Entry, upd: WorkspaceUpdate,
    quotas: map<(ID, Resource), nat>, users: map<(ID, string), Option<string>>)
    requires Consistent(db) && Shows(db, upd.workspaceID, e)
    requires SameElsewhere(db.quotas, quotas, upd.workspaceID) && RowsAre(quotas, upd.workspaceID, upd.quotas)
    requires MembersUpdated(db.users, users, upd.workspaceID, upd.users)
    ensures Consistent(UpdatedRows(db, upd, quotas, users))
    ensures Abstraction(UpdatedRows(db, upd, quotas, users)).data
         == Abstraction(db).data[upd.workspaceID := UpdatedEntry(e, upd)]
  {
    var id, tx := upd.workspaceID, UpdatedRows(db, upd, quotas, users);
    MembersUpdatedRows(db.users, users, id, upd.users, e.users);
    assert Shows(tx, id, UpdatedEntry(e, upd));
    AbstractionOfChange(db, tx, id, UpdatedEntry(e, upd));
    StaysConsistent(db, tx, id);
  }

  lemma RequestRequests(db: Tables, e: Entry, upd: WorkspaceUpdate)
    requires Consistent(db) && Shows(db, upd.workspaceID, e)
    ensures Consistent(WithRequestRow(db, upd))
    ensures Abstraction(WithRequestRow(db, upd)).data
         == Abstraction(db).data[upd.workspaceID := e.(request := Some(SortedRequest(upd)))]
  {
    var id, tx := upd.workspaceID, WithRequestRow(db, upd);
    assert Shows(tx, id, e.(request := Some(SortedRequest(upd))));
    AbstractionOfChange(db, tx, id, e.(request := Some(SortedRequest(upd))));
  }

  function WithRequestRow(db: Tables, upd: WorkspaceUpdate): Tables {
    db.(requests := db.requests[upd.workspaceID := RequestRow(upd.byUser, upd)])
  }

  lemma MembersWritten(
    db: Tables, id: ID, e: Entry, users: map<(ID, string), Option<string>>, members: map<string, Option<string>>)
    requires Consistent(db) && Shows(db, id, e)
    requires SameElsewhere(db.users, users, id) && RowsAre(users, id, members)
    ensures Consistent(db.(users := users))
    ensures Abstraction(db.(users := users)).data == Abstraction(db).data[id := e.(users := members)]
  {
    var tx := db.(users := users);
    assert Shows(tx, id, e.(users := members));
    AbstractionOfChange(db, tx, id, e.(users := members));
    StaysConsistent(db, tx, id);
  }

  lemma AcceptWrites(db: Tables, id: ID, e: Entry, username: string, email: string)
    requires Consistent(db) && Shows(db, id, e)
    ensures Consistent(db.(users := db.users[(id, username) := Some(email)]))
    ensures Abstraction(db.(users := db.users[(id, username) := Some(email)])).data
         == Abstraction(db).data[id := e.(users := e.users[username := Some(email)])]
  {
    MembersWritten(db, id, e, db.users[(id, username) := Some(email)], e.users[username := Some(email)]);
  }

  lemma DeclineWrites(db: Tables, id: ID, e: Entry, username: string)
    requires Consistent(db) && Shows(db, id, e)
    ensures Consistent(db.(users := db.users - {(id, username)}))
    ensures Abstraction(db.(users := db.users - {(id, username)})).data
         == Abstraction(db).data[id := e.(users := e.users - {username})]
  {
    MembersWritten(db, id, e, db.users - {(id, username)}, e.users - {username});
  }

  function RemovedRows(db: Tables, id: ID): Tables {
    Tables(db.workspaces - {id}, DeleteAll(db.quotas, id), DeleteAll(db.users, id), db.requests - {id}, db.nextID)
  }

  lemma RemovalRemoves(db: Tables, id: ID)
    requires Consistent(db)
    ensures Consistent(RemovedRows(db, id))
    ensures Abstraction(RemovedRows(db, id)).data == Abstraction(db).data - {id}
  {
    var tx := RemovedRows(db, id);
    assert tx.workspaces - {id} == db.workspaces - {id};
    assert tx.requests - {id} == db.requests - {id};
    AbstractionOfRemoval(db, tx, id);
    StaysConsistent(db, tx, id);
  }

  lemma MemberRow(db: Tables, id: ID, username: string)
    requires Consistent(db)
    ensures (id, username) in db.users <==> id in Abstraction(db).data && username in Abstraction(db).data[id].users
    ensures (id, username) in db.users ==> Abstraction(db).data[id].users[username] == db.users[(id, username)]
  {
    if id in db.workspaces {
      ShowsOwnEntry(db, id);
    }
  }

  // ---- Listings -------------------------------------------------------------------

  lemma PiecesOf(db: Tables, id: ID)
    requires Consistent(db)
    ensures RowsOf(db.quotas, id) == QuotasIn(Abstraction(db), id)
    ensures RowsOf(db.users, id) == UsersIn(Abstraction(db), id)
    ensures RequestOf(db.requests, id) == RequestIn(Abstraction(db), id)
  {
    if id !in db.workspaces {
      RowsAreUnique(db.quotas, id, map[]);
      RowsAreUnique(db.users, id, map[]);
    }
  }

  lemma TornEntryOfTables(rows: Tables, quotas: Tables, users: Tables, requests: Tables, id: ID)
    requires Consistent(quotas) && Consistent(users) && Consistent(requests) && id in rows.workspaces
    ensures EntryOf(rows.workspaces[id], quotas.quotas, users.users, requests.requests, id)
         == TornEntry(Abstraction(rows), Abstraction(quotas), Abstraction(users), Abstraction(requests), id)
  {
    PiecesOf(quotas, id);
    PiecesOf(users, id);
    PiecesOf(requests, id);
  }

  lemma TornListingOfTables(rows: Tables, quotas: Tables, users: Tables, requests: Tables, ids: set<ID>)
    requires Consistent(quotas) && Consistent(users) && Consistent(requests) && ids <= rows.workspaces.Keys
    ensures Listing(rows.workspaces, quotas.quotas, users.users, requests.requests, ids)
         == TornListing(Abstraction(rows), Abstraction(quotas), Abstraction(users), Abstraction(requests), ids)
  {
    NoDuplicatesIsSet(OrderedIDs(ids));
    forall i: nat | i < |ids|
      ensures Listing(rows.workspaces, quotas.quotas, users.users, requests.requests, ids)[i]
           == TornListing(Abstraction(rows), Abstraction(quotas), Abstraction(users), Abstraction(requests), ids)[i]
    {
      TornListingAt(rows, quotas, users, requests, ids, i);
    }
  }

  lemma TornListingAt(rows: Tables, quotas: Tables, users: Tables, requests: Tables, ids: set<ID>, i: nat)
    requires Consistent(quotas) && Consistent(users) && Consistent(requests) && ids <= rows.workspaces.Keys
    requires i < |ids| == |OrderedIDs(ids)|
    ensures Listing(rows.workspaces, quotas.quotas, users.users, requests.requests, ids)[i]
         == TornListing(Abstraction(rows), Abstraction(quotas), Abstraction(users), Abstraction(requests), ids)[i]
  {
    var id := OrderedIDs(ids)[i];
    assert id in Elements(OrderedIDs(ids));
    TornEntryOfTables(rows, quotas, users, requests, id);
  }

  lemma MemberRowsAreMemberIDs(db: Tables, username: string, accepted: bool, ids: set<ID>)
    requires Consistent(db)
    requires ids == set k | k in db.users && k.1 == username && db.users[k].Some? == accepted :: k.0
    ensures ids == MemberIDs(Abstraction(db), username, accepted)
  {
    forall id ensures id in ids <==> id in MemberIDs(Abstraction(db), username, accepted) {
      MemberRow(db, id, username);
      if (id, username) in db.users && db.users[(id, username)].Some? == accepted {
        assert id in ids;
      }
    }
  }

  lemma NothingToList(rows: Store, quotas: Store, users: Store, requests: Store)
    ensures ListFrom({}, rows, quotas, users, requests) == Ok([])
  {
    NoDuplicatesIsSet(OrderedIDs({}));
  }

  // ---- The repository ---------------------------------------------------------------

  /** What the caller gets back from an operation on workspace `id`. */
  ghost predicate Returned(r: Result<Workspace>, a: Applied, id: ID) {
    match a.error
    case Some(e) => r == Err(e)
    case None => id in a.store.data && r == Ok(View(id, a.store.data[id]))
  }

  class WorkspacesRepository {
    var db: Tables

    ghost predicate Valid()
      reads this
    {
      Consistent(db)
    }

    ghost function Contents(): Store
      reads this
    {
      Abstraction(db)
    }

    constructor ()
      ensures Valid() && Contents() == EMPTY
    {
      db := Tables(map[], map[], map[], map[], 1);
      new;
      assert Abstraction(db).data == map[];
    }

    static method QueryWorkspace(rows: Tables, quotas: Tables, users: Tables, requests: Tables, id: ID)
      returns (r: Result<Workspace>)
      requires Consistent(quotas) && Consistent(users) && Consistent(requests)
      ensures r == GetFrom(id, Abstraction(rows), Abstraction(quotas), Abstraction(users), Abstraction(requests))
    {
      var wss := QueryWorkspaces(rows.workspaces, quotas.quotas, users.users, requests.requests, [id]);
      assert Elements([id]) == {id};
      if wss.Err? {
        return Err(wss.error);
      }
      AscendingIsOrdered([id], {id});
      TornEntryOfTables(rows, quotas, users, requests, id);
      return Ok(wss.value[0]);
    }

    /** Within a transaction that has its rows to itself. */
    static method QueryOwn(tx: Tables, id: ID) returns (r: Result<Workspace>)
      requires Consistent(tx)
      ensures r == if id in tx.workspaces then Ok(View(id, Abstraction(tx).data[id])) else Err(NotFound)
    {
      r := QueryWorkspace(tx, tx, tx, tx, id);
      UntornFrom(Abstraction(tx), {}, id);
    }

    static method ListIDs(ids: set<ID>, rows: Tables, quotas: Tables, users: Tables, requests: Tables)
      returns (r: Result<seq<Workspace>>)
      requires Consistent(quotas) && Consistent(users) && Consistent(requests)
      ensures r == ListFrom(ids, Abstraction(rows), Abstraction(quotas), Abstraction(users), Abstraction(requests))
    {
      var order := AnyOrder(ids);
      r := QueryWorkspaces(rows.workspaces, quotas.quotas, users.users, requests.requests, order);
      assert Abstraction(rows).data.Keys == rows.workspaces.Keys;
      if r.Ok? {
        TornListingOfTables(rows, quotas, users, requests, ids);
      }
    }

    // The transactions below only read. Under READ COMMITTED each of their five statements may
    // see a different committed state.

    static method ListAllWorkspaces(ids: Tables, rows: Tables, quotas: Tables, users: Tables, requests: Tables)
      returns (r: Result<seq<Workspace>>)
      requires Consistent(quotas) && Consistent(users) && Consistent(requests)
      ensures r == ListFrom(Abstraction(ids).data.Keys, Abstraction(rows), Abstraction(quotas),
                            Abstraction(users), Abstraction(requests))
      ensures ids == rows == quotas == users == requests ==>
                r == Ok(StoreListing(Abstraction(ids), Abstraction(ids).data.Keys))
    {
      assert Abstraction(ids).data.Keys == ids.workspaces.Keys;
      r := ListIDs(ids.workspaces.Keys, rows, quotas, users, requests);
      UntornFrom(Abstraction(ids), Abstraction(ids).data.Keys, 0);
    }

    /** Accepted memberships only. */
    static method ListUserWorkspaces(
        members: Tables, rows: Tables, quotas: Tables, users: Tables, requests: Tables, user: string)
      returns (r: Result<seq<Workspace>>)
      requires Consistent(members) && Consistent(quotas) && Consistent(users) && Consistent(requests)
      ensures r == ListFrom(MemberIDs(Abstraction(members), user, true), Abstraction(rows), Abstraction(quotas),
                            Abstraction(users), Abstraction(requests))
      ensures members == rows == quotas == users == requests ==>
                r == Ok(StoreListing(Abstraction(members), MemberIDs(Abstraction(members), user, true)))
    {
      var ids := set k | k in members.users && k.1 == user && members.users[k].Some? :: k.0;
      assert ids == set k | k in members.users && k.1 == user && members.users[k].Some? == true :: k.0;
      MemberRowsAreMemberIDs(members, user, true, ids);
      r := ListIDs(ids, rows, quotas, users, requests);
      UntornFrom(Abstraction(members), ids, 0);
    }

    /** Pending invitations only. */
    static method ListUserInvitations(
        members: Tables, rows: Tables, quotas: Tables, users: Tables, requests: Tables, user: string)
      returns (r: Result<seq<Workspace>>)
      requires Consistent(members) && Consistent(quotas) && Consistent(users) && Consistent(requests)
      ensures r == ListFrom(MemberIDs(Abstraction(members), user, false), Abstraction(rows), Abstraction(quotas),
                            Abstraction(users), Abstraction(requests))
      ensures members == rows == quotas == users == requests ==>
                r == Ok(StoreListing(Abstraction(members), MemberIDs(Abstraction(members), user, false)))
    {
      var ids := set k | k in members.users && k.1 == user && members.users[k].None? :: k.0;
      assert ids == set k | k in members.users && k.1 == user && members.users[k].Some? == false :: k.0;
      MemberRowsAreMemberIDs(members, user, false, ids);
      if ids == {} {
        NothingToList(Abstraction(rows), Abstraction(quotas), Abstraction(users), Abstraction(requests));
        NothingToList(Abstraction(members), Abstraction(members), Abstraction(members), Abstraction(members));
        UntornFrom(Abstraction(members), ids, 0);
        return Ok([]);
      }
      r := ListIDs(ids, rows, quotas, users, requests);
      UntornFrom(Abstraction(members), ids, 0);
    }

    static method ListCreatedWorkspaces(ids: Tables, rows: Tables, quotas: Tables, users: Tables, requests: Tables)
      returns (r: Result<seq<Workspace>>)
      requires Consistent(quotas) && Consistent(users) && Consistent(requests)
      ensures r == ListCreated(Abstraction(ids), Abstraction(rows), Abstraction(quotas),
                              Abstraction(users), Abstraction(requests))
    {
      var created := set id | id in ids.workspaces && ids.workspaces[id].created;
      assert created == CreatedIDs(Abstraction(ids));
      r := ListIDs(created, rows, quotas, users, requests);
    }

    static method GetWorkspace(rows: Tables, quotas: Tables, users: Tables, requests: Tables, id: ID)
      returns (r: Result<Workspace>)
      requires Consistent(quotas) && Consistent(users) && Consistent(requests)
      ensures r == GetFrom(id, Abstraction(rows), Abstraction(quotas), Abstraction(users), Abstraction(requests))
      ensures rows == quotas == users == requests ==>
                r == if id in Abstraction(rows).data then Ok(View(id, Abstraction(rows).data[id])) else Err(NotFound)
    {
      r := QueryWorkspace(rows, quotas, users, requests, id);
      UntornFrom(Abstraction(rows), {}, id);
    }

    /** Only for users who accepted. */
    static method GetUserWorkspace(
        members: Tables, rows: Tables, quotas: Tables, users: Tables, requests: Tables, id: ID, user: string)
      returns (r: Result<Workspace>)
      requires Consistent(members) && Consistent(quotas) && Consistent(users) && Consistent(requests)
      ensures r == if id in MemberIDs(Abstraction(members), user, true)
                   then GetFrom(id, Abstraction(rows), Abstraction(quotas), Abstraction(users), Abstraction(requests))
                   else Err(NotFound)
      ensures members == rows == quotas == users == requests && id in MemberIDs(Abstraction(members), user, true) ==>
                r == Ok(View(id, Abstraction(members).data[id]))
    {
      MemberRow(members, id, user);
      if (id, user) !in members.users || members.users[(id, user)].None? {
        return Err(NotFound);
      }
      r := QueryWorkspace(rows, quotas, users, requests, id);
      UntornFrom(Abstraction(members), {}, id);
    }

    /** The insertions of one transaction, under the next id; None if a quantity is out of range. */
    static method InsertWorkspace(db: Tables, ws: Workspace, creatorEmail: string) returns (tx: Option<Tables>)
      requires Consistent(db) && ValidWorkspace(ws)
      ensures tx.Some? <==> FitsBigint(ws.quotas)
      ensures tx.Some? ==>
                && Consistent(tx.value) && tx.value.nextID == db.nextID + 1
                && Abstraction(tx.value).data
                   == Abstraction(db).data[db.nextID := InitialEntry(db.nextID, ws, creatorEmail)]
    {
      NoRowsYet(db);
      var users := InsertMembers(db.users, db.nextID, ws.users, creatorEmail);
      var quotas := UpsertQuotas(db.quotas, db.nextID, ws.quotas);
      if quotas.None? {
        return None;
      }
      InsertionCreates(db, ws, creatorEmail, quotas.value, users);
      return Some(InsertedRows(db, ws, quotas.value, users));
    }

    method CreateWorkspace(ws: Workspace, creatorEmail: string) returns (r: Result<Workspace>)
      requires Valid()
      modifies this
      ensures Valid()
      ensures Contents() == ApplyCreate(old(Contents()), ws, creatorEmail).store
      ensures Returned(r, ApplyCreate(old(Contents()), ws, creatorEmail), old(db).nextID)
    {
      var valid := WorkspaceValid(ws);
      if !valid {
        return Err(Invalid);
      }
      var id := db.nextID;
      if id > MAX_BIGINT {
        return Err(Failed);
      }
      var tx := InsertWorkspace(db, ws, creatorEmail);
      db := db.(nextID := id + 1);
      if tx.None? {
        return Err(Failed);
      }
      r := QueryOwn(tx.value, id);
      db := tx.value;
    }

    method UpdateWorkspace(upd: WorkspaceUpdate) returns (r: Result<Workspace>)
      requires Valid()
      modifies this
      ensures Valid()
      ensures Contents() == ApplyUpdate(old(Contents()), upd).store
      ensures Returned(r, ApplyUpdate(old(Contents()), upd), upd.workspaceID)
    {
      var valid := UpdateValid(upd);
      if !valid {
        return Err(Invalid);
      }
      var tx, id := db, upd.workspaceID;
      if id !in tx.workspaces {
        return Err(NotFound);
      }
      var quotas := ReplaceQuotas(tx.quotas, id, upd.quotas);
      if quotas.None? {
        return Err(Failed);
      }
      var users := ReplaceMembers(tx.users, id, upd.users);
      ShowsOwnEntry(tx, id);
      UpdateUpdates(tx, Contents().data[id], upd, quotas.value, users);
      tx := UpdatedRows(tx, upd, quotas.value, users);
      r := QueryOwn(tx, id);
      db := tx;
    }

    method RequestUpdateWorkspace(upd: WorkspaceUpdate) returns (r: Result<Workspace>)
      requires Valid()
      modifies this
      ensures Valid()
      ensures Contents() == ApplyRequest(old(Contents()), upd).store
      ensures Returned(r, ApplyRequest(old(Contents()), upd), upd.workspaceID)
    {
      var valid := UpdateValid(upd);
      if !valid {
        return Err(Invalid);
      }
      if upd.byUser == "" || upd.byUser !in upd.users {
        return Err(Invalid);
      }
      var tx, id := db, upd.workspaceID;
      MemberRow(tx, id, upd.byUser);
      if (id, upd.byUser) !in tx.users {
        return Err(NotFound);
      }
      ShowsOwnEntry(tx, id);
      RequestRequests(tx, Contents().data[id], upd);
      tx := WithRequestRow(tx, upd);
      r := QueryOwn(tx, id);
      db := tx;
    }

    method DeleteWorkspace(id: ID) returns (error: Option<Error>)
      requires Valid()
      modifies this
      ensures Valid()
      ensures Contents() == ApplyDelete(old(Contents()), id).store
      ensures error == ApplyDelete(old(Contents()), id).error
    {
      if id !in db.workspaces {
        return Some(NotFound);
      }
      RemovalRemoves(db, id);
      db := RemovedRows(db, id);
      return None;
    }

    method AcceptInvitation(id: ID, username: string, email: string) returns (error: Option<Error>)
      requires Valid()
      modifies this
      ensures Valid()
      ensures Contents() == ApplyAccept(old(Contents()), id, username, email).store
      ensures error == ApplyAccept(old(Contents()), id, username, email).error
    {
      MemberRow(db, id, username);
      if (id, username) !in db.users || db.users[(id, username)] != None {
        return Some(NotFound);
      }
      ShowsOwnEntry(db, id);
      AcceptWrites(db, id, Contents().data[id], username, email);
      db := db.(users := db.users[(id, username) := Some(email)]);
      return None;
    }

    method DeclineInvitation(id: ID, username: string) returns (error: Option<Error>)
      requires Valid()
      modifies this
      ensures Valid()
      ensures Contents() == ApplyDecline(old(Contents()), id, username).store
      ensures error == ApplyDecline(old(Contents()), id, username).error
    {
      MemberRow(db, id, username);
      if (id, username) !in db.users || db.users[(id, username)] != None {
        return Some(NotFound);
      }
      ShowsOwnEntry(db, id);
      DeclineWrites(db, id, Contents().data[id], username);
      db := db.(users := db.users - {(id, username)});
      return None;
    }
  }
}
