/** The four relational tables, by primary key, and the store they represent. */
module Database {
  import opened Basics
  import opened Model
  import opened MapStore

  datatype WorkspaceRow = WorkspaceRow(created: bool, enabled: bool, nodegroup: Nodegroup, userdata: string)

  datatype RequestRow = RequestRow(byUser: string, data: WorkspaceUpdate)

  datatype Tables = Tables(
    workspaces: map<ID, WorkspaceRow>,
    quotas: map<(ID, Resource), nat>,
    users: map<(ID, string), Option<string>>,
    requests: map<ID, RequestRow>,
    nextID: ID)

  /** The rows of one workspace in a table keyed by (workspace_id, name). */
  ghost function RowsOf<V>(t: map<(ID, string), V>, id: ID): map<string, V> {
    map k | k in t && k.0 == id :: k.1 := t[k]
  }

  ghost function RequestOf(requests: map<ID, RequestRow>, id: ID): Option<WorkspaceUpdate> {
    if id in requests then Some(SortedRequest(requests[id].data)) else None
  }

  ghost function EntryOf(
    row: WorkspaceRow, quotas: map<(ID, Resource), nat>,
    users: map<(ID, string), Option<string>>, requests: map<ID, RequestRow>, id: ID): Entry
  {
    Entry(row.created, row.enabled, row.nodegroup, row.userdata,
          RowsOf(quotas, id), RowsOf(users, id), RequestOf(requests, id))
  }

  ghost function Abstraction(db: Tables): Store {
    Store(map id | id in db.workspaces :: EntryOf(db.workspaces[id], db.quotas, db.users, db.requests, id),
          db.nextID)
  }

  /** Foreign keys hold, and the sequence is ahead of every key it issued. */
  ghost predicate Consistent(db: Tables) {
    && (forall k | k in db.quotas :: k.0 in db.workspaces)
    && (forall k | k in db.users :: k.0 in db.workspaces)
    && (forall id | id in db.requests :: id in db.workspaces)
    && (forall id | id in db.workspaces :: id < db.nextID)
  }

  // ---- Statements over a two-column key -----------------------------------

  /** DELETE ... WHERE workspace_id = id AND name != ALL(keep) */
  function DeleteExcept<V>(t: map<(ID, string), V>, id: ID, keep: set<string>): map<(ID, string), V> {
    map k | k in t && (k.0 == id ==> k.1 in keep) :: t[k]
  }

  /** ON DELETE CASCADE */
  function DeleteAll<V>(t: map<(ID, string), V>, id: ID): map<(ID, string), V> {
    map k | k in t && k.0 != id :: t[k]
  }

  // ---- Tables and the entries they represent -------------------------------

  /** The rows of `id` are exactly `m`. */
  ghost predicate RowsAre<V>(t: map<(ID, string), V>, id: ID, m: map<string, V>) {
    && (forall n :: (id, n) in t <==> n in m)
    && (forall n | n in m :: t[(id, n)] == m[n])
  }

  /** The two tables differ at most in the rows of `id`. */
  ghost predicate SameElsewhere<V>(a: map<(ID, string), V>, b: map<(ID, string), V>, id: ID) {
    && (forall k | k in a && k.0 != id :: k in b && b[k] == a[k])
    && (forall k | k in b && k.0 != id :: k in a)
  }

  lemma RowsAreRows<V>(t: map<(ID, string), V>, id: ID)
    ensures RowsAre(t, id, RowsOf(t, id))
  {
  }

  lemma RowsAreUnique<V>(t: map<(ID, string), V>, id: ID, m: map<string, V>)
    requires RowsAre(t, id, m)
    ensures RowsOf(t, id) == m
  {
    forall n ensures n in RowsOf(t, id) <==> n in m {
      assert (id, n) in t <==> n in m;
    }
  }

  lemma RowsElsewhere<V>(a: map<(ID, string), V>, b: map<(ID, string), V>, id: ID, other: ID)
    requires SameElsewhere(a, b, id) && other != id
    ensures RowsOf(a, other) == RowsOf(b, other)
  {
    RowsAreRows(a, other);
    assert RowsAre(b, other, RowsOf(a, other)) by {
      forall n ensures (other, n) in b <==> n in RowsOf(a, other) {
        assert (other, n) in a <==> (other, n) in b;
      }
    }
    RowsAreUnique(b, other, RowsOf(a, other));
  }

  /** At most workspace `id` differs, in any of the tables. */
  ghost predicate OthersKept(a: Tables, b: Tables, id: ID) {
    && a.workspaces - {id} == b.workspaces - {id}
    && SameElsewhere(a.quotas, b.quotas, id)
    && SameElsewhere(a.users, b.users, id)
    && a.requests - {id} == b.requests - {id}
  }

  lemma EntryKept(a: Tables, b: Tables, id: ID, other: ID)
    requires OthersKept(a, b, id) && other != id
    ensures other in a.workspaces <==> other in b.workspaces
    ensures other in a.workspaces ==> Abstraction(a).data[other] == Abstraction(b).data[other]
  {
    RowsElsewhere(a.quotas, b.quotas, id, other);
    RowsElsewhere(a.users, b.users, id, other);
    assert other in a.workspaces <==> other in a.workspaces - {id};
    assert other in b.workspaces <==> other in b.workspaces - {id};
    assert other in a.requests <==> other in a.requests - {id};
    assert other in b.requests <==> other in b.requests - {id};
    if other in a.workspaces { assert (a.workspaces - {id})[other] == (b.workspaces - {id})[other]; }
    if other in a.requests { assert (a.requests - {id})[other] == (b.requests - {id})[other]; }
  }

  /** The tables show entry `e` for `id`. */
  ghost predicate Shows(db: Tables, id: ID, e: Entry) {
    && id in db.workspaces
    && db.workspaces[id] == WorkspaceRow(e.created, e.enabled, e.nodegroup, e.userdata)
    && RowsAre(db.quotas, id, e.quotas)
    && RowsAre(db.users, id, e.users)
    && RequestOf(db.requests, id) == e.request
  }

  lemma ShownEntry(db: Tables, id: ID, e: Entry)
    requires Shows(db, id, e)
    ensures id in Abstraction(db).data && Abstraction(db).data[id] == e
  {
    RowsAreUnique(db.quotas, id, e.quotas);
    RowsAreUnique(db.users, id, e.users);
  }

  lemma ShowsOwnEntry(db: Tables, id: ID)
    requires id in db.workspaces
    ensures Shows(db, id, Abstraction(db).data[id])
  {
    RowsAreRows(db.quotas, id);
    RowsAreRows(db.users, id);
  }

  lemma RestsAgree<V>(x: map<ID, V>, y: map<ID, V>, id: ID)
    requires forall k | k != id :: k in x <==> k in y
    requires forall k | k != id && k in x && k in y :: x[k] == y[k]
    ensures x - {id} == y - {id}
  {
    var a, b := x - {id}, y - {id};
    forall k ensures k in a <==> k in b {
      if k != id {
        assert k in x <==> k in y;
      }
    }
    forall k | k in a && k in b ensures a[k] == b[k] {
      assert x[k] == y[k];
    }
    assert a.Keys == b.Keys;
  }

  lemma OthersAgree(a: Tables, b: Tables, id: ID)
    requires OthersKept(a, b, id)
    ensures Abstraction(a).data - {id} == Abstraction(b).data - {id}
  {
    forall other | other != id
      ensures other in Abstraction(a).data <==> other in Abstraction(b).data
      ensures other in Abstraction(a).data ==> Abstraction(a).data[other] == Abstraction(b).data[other]
    {
      EntryKept(a, b, id, other);
    }
    RestsAgree(Abstraction(a).data, Abstraction(b).data, id);
  }

  lemma AbstractionOfChange(a: Tables, b: Tables, id: ID, e: Entry)
    requires OthersKept(a, b, id) && Shows(b, id, e)
    ensures Abstraction(b).data == Abstraction(a).data[id := e]
  {
    ShownEntry(b, id, e);
    OthersAgree(a, b, id);
    UpdateFromRest(Abstraction(a).data, Abstraction(b).data, id);
  }

  lemma UpdateFromRest<V>(a: map<ID, V>, b: map<ID, V>, id: ID)
    requires a - {id} == b - {id} && id in b
    ensures b == a[id := b[id]]
  {
    forall k | k != id ensures k in a <==> k in b {
      assert k in a <==> k in a - {id};
      assert k in b <==> k in b - {id};
    }
    forall k | k in b && k != id ensures a[k] == b[k] {
      assert (a - {id})[k] == (b - {id})[k];
    }
  }

  lemma AbstractionOfRemoval(a: Tables, b: Tables, id: ID)
    requires OthersKept(a, b, id) && id !in b.workspaces
    ensures Abstraction(b).data == Abstraction(a).data - {id}
  {
    OthersAgree(a, b, id);
    RemovedFromRest(Abstraction(a).data, Abstraction(b).data, id);
  }

  lemma RemovedFromRest<V>(a: map<ID, V>, b: map<ID, V>, id: ID)
    requires a - {id} == b - {id} && id !in b
    ensures b == a - {id}
  {
    assert b - {id} == b;
  }
}
