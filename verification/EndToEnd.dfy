/** From the store to the registry: what administrators commit is what the registry converges to. */
module EndToEnd {
  import opened Basics
  import opened MapStore
  import opened StoreRuns
  import opened IdCodec
  import opened Projection
  import opened QueueProtocol
  import opened HarborSdk
  import opened ReconcileSpec
  import opened RunSpec
  import opened Reconcile
  import opened Database
  import opened Worker

  /** The worker's input as the reconciler decodes it. */
  function WishesFrom(vwss: seq<ValueWorkspace>): (wishes: seq<Wish>)
    ensures |wishes| == |vwss|
    ensures forall i | 0 <= i < |vwss| :: wishes[i] == Wish(vwss[i].idHash, vwss[i].users)
  {
    seq(|vwss|, i requires 0 <= i < |vwss| => Wish(vwss[i].idHash, vwss[i].users))
  }

  function ProjectOf(c: Permutation, id: int): string {
    PREFIX + NameOf(c, id)
  }

  ghost predicate IDsInRange(ids: set<int>) {
    forall id | id in ids :: 1 <= id <= MAX_BIGINT
  }

  lemma ProjectOfInjective(c: Permutation, a: int, b: int)
    requires 1 <= a <= MAX_BIGINT && 1 <= b <= MAX_BIGINT && ProjectOf(c, a) == ProjectOf(c, b)
    ensures a == b
  {
    assert ProjectOf(c, a)[|PREFIX|..] == NameOf(c, a) && ProjectOf(c, b)[|PREFIX|..] == NameOf(c, b);
    WrapOfID(a);
    WrapOfID(b);
    HashInjective(c, Wrap(a), Wrap(b));
  }

  lemma WishAt(c: Permutation, m: map<int, Visible>, i: nat)
    requires i < |Rendering(c, m)|
    ensures var order := OrderedIDs(m.Keys);
            && |WishesFrom(Rendering(c, m))| == |order| == |Rendering(c, m)|
            && order[i] in m
            && ProjectFor(WishesFrom(Rendering(c, m))[i]) == ProjectOf(c, order[i])
            && Elements(WishesFrom(Rendering(c, m))[i].users) == m[order[i]].names
  {
    var order := OrderedIDs(m.Keys);
    assert order[i] in Elements(order);
    LeqIsTotalOrder();
    SortedSetElements(m[order[i]].names, Leq);
  }

  /** Each rendered workspace has a project name of its own. */
  lemma RenderedNamesDistinct(c: Permutation, m: map<int, Visible>)
    requires IDsInRange(m.Keys)
    ensures NoDuplicates(Names(WishesFrom(Rendering(c, m))))
  {
    var wishes, order := WishesFrom(Rendering(c, m)), OrderedIDs(m.Keys);
    forall i, j | 0 <= i < j < |wishes| ensures Names(wishes)[i] != Names(wishes)[j] {
      WishAt(c, m, i);
      WishAt(c, m, j);
      if Names(wishes)[i] == Names(wishes)[j] {
        ProjectOfInjective(c, order[i], order[j]);
      }
    }
  }

  lemma NamesRendered(c: Permutation, m: map<int, Visible>, p: string)
    ensures p in Names(WishesFrom(Rendering(c, m))) <==> exists id :: id in m && ProjectOf(c, id) == p
  {
    var wishes, order := WishesFrom(Rendering(c, m)), OrderedIDs(m.Keys);
    if p in Names(wishes) {
      var i: nat :| i < |wishes| && Names(wishes)[i] == p;
      WishAt(c, m, i);
      assert order[i] in m && ProjectOf(c, order[i]) == p;
    }
    if id :| id in m && ProjectOf(c, id) == p {
      var i := RenderingAt(c, m, id);
      WishAt(c, m, i);
      assert Names(wishes)[i] == p;
    }
  }

  lemma GoodIDsInRange(db: Store)
    requires Good(db)
    ensures IDsInRange(CreatedIDs(db))
  {
  }

  lemma TornNamesDistinct(c: Permutation, ids: set<int>, rows: Store, quotas: Store, users: Store)
    requires IDsInRange(ids) && ids <= rows.data.Keys
    ensures NoDuplicates(Names(WishesFrom(Rendering(c, VisibleTorn(ids, rows, quotas, users)))))
  {
    assert VisibleTorn(ids, rows, quotas, users).Keys == ids;
    RenderedNamesDistinct(c, VisibleTorn(ids, rows, quotas, users));
  }

  lemma GivenDistinct(c: Permutation, s: State)
    requires WentThrough(s.last) && Good(s.last[0])
    ensures NoDuplicates(Names(WishesFrom(Given(c, s))))
  {
    GivenIsPresentIff(c, s);
    GoodIDsInRange(s.last[0]);
    TornNamesDistinct(c, CreatedIDs(s.last[0]), s.last[1], s.last[2], s.last[3]);
  }

  /** The workspaces of one run never clash, however its listing was torn. */
  lemma GivenNamesDistinct(c: Permutation, ops: seq<Op>, actions: seq<Action>)
    requires After(ops, actions).phase.Working?
    ensures NoDuplicates(Names(WishesFrom(Given(c, After(ops, actions)))))
  {
    AlwaysInvariant(ops, actions);
    GivenDistinct(c, After(ops, actions));
  }

  /** Wanting what was rendered, a registry in step has one project per workspace shown. */
  lemma MirrorShows(c: Permutation, m: map<int, Visible>, projects: map<string, Project>, known: set<string>)
    requires Mirrors(projects, WishesFrom(Rendering(c, m)), known)
    ensures forall p | HasPrefix(p) :: p in projects <==> exists id :: id in m && ProjectOf(c, id) == p
    ensures forall id | id in m ::
              ProjectOf(c, id) in projects && MembersAre(projects[ProjectOf(c, id)], m[id].names, known)
  {
    var wishes := WishesFrom(Rendering(c, m));
    forall id | id in m
      ensures ProjectOf(c, id) in projects && MembersAre(projects[ProjectOf(c, id)], m[id].names, known)
    {
      var i := RenderingAt(c, m, id);
      WishAt(c, m, i);
      ShownInSync(c, m, id, i, projects, known);
    }
    forall p | HasPrefix(p) ensures p in projects <==> exists id :: id in m && ProjectOf(c, id) == p {
      NamesRendered(c, m, p);
    }
  }

  /** Only these users and the administrator, and all of these users the registry knows. */
  ghost predicate MembersAre(p: Project, names: set<string>, known: set<string>) {
    && (forall u | u in p.members :: u == "admin" || u in names)
    && (forall u | u in names && u in known :: u in p.members)
  }

  lemma ShownInSync(
      c: Permutation, m: map<int, Visible>, id: int, i: nat, projects: map<string, Project>, known: set<string>)
    requires Mirrors(projects, WishesFrom(Rendering(c, m)), known)
    requires id in m && i < |Rendering(c, m)| && Rendering(c, m)[i] == Render(c, id, m[id])
    ensures ProjectOf(c, id) in projects && MembersAre(projects[ProjectOf(c, id)], m[id].names, known)
  {
    var w := WishesFrom(Rendering(c, m))[i];
    assert w in WishesFrom(Rendering(c, m));
    assert ProjectFor(w) == ProjectOf(c, id);
    LeqIsTotalOrder();
    SortedSetElements(m[id].names, Leq);
    assert forall u :: u in w.users <==> u in Elements(w.users);
  }

  // ---- The end-to-end statement ---------------------------------------------------------------

  /** The registry shows exactly the created workspaces of the store, by its members and declined invitations. */
  ghost predicate Follows(
      c: Permutation, db: Store, declined: set<(int, string)>, projects: map<string, Project>,
      known: set<string>)
  {
    && (forall p | HasPrefix(p) :: p in projects <==> exists id :: id in CreatedIDs(db) && ProjectOf(c, id) == p)
    && (forall id | id in CreatedIDs(db) ::
          ProjectOf(c, id) in projects
          && MembersAre(projects[ProjectOf(c, id)], NamesWith(id, db.data[id].users.Keys, declined), known))
  }

  lemma ShownFollows(
      c: Permutation, db: Store, shown: map<int, Visible>, declined: set<(int, string)>,
      projects: map<string, Project>, known: set<string>)
    requires QueueProtocol.Shows(VisibleStore(db), shown, declined)
    requires Mirrors(projects, WishesFrom(Rendering(c, shown)), known)
    ensures Follows(c, db, declined, projects, known)
  {
    MirrorShows(c, shown, projects, known);
    assert shown.Keys == CreatedIDs(db);
  }

  /** At rest, the registry the last run left in step with its input follows the store. */
  lemma RegistryFollowsStore(
    c: Permutation, ops: seq<Op>, actions: seq<Action>, projects: map<string, Project>, known: set<string>)
    requires Quiescent(After(ops, actions))
    requires Mirrors(projects, WishesFrom(Given(c, After(ops, actions))), known)
    ensures Follows(c, After(ops, actions).db, After(ops, actions).declined, projects, known)
    ensures After(ops, actions).declined == {} <==> Given(c, After(ops, actions)) == Present(c, After(ops, actions).db)
  {
    var s := After(ops, actions);
    NoLostWakeup(c, ops, actions);
    ShownFollows(c, s.db, ShownBy(s.last), s.declined, projects, known);
  }

  /**
   In plain terms: a project called "ws-" and a name is there exactly if the name is that of a
   created workspace, and its members are the administrator and that workspace's users, those
   of whom the registry knows included, and perhaps some whose invitation was declined.
   */
  ghost predicate ShowsWorkspaces(
      c: Permutation, db: Store, declined: set<(int, string)>, projects: map<string, Project>,
      known: set<string>)
  {
    && (forall h :: "ws-" + h in projects <==>
          ParseOf(c, h).Ok? && ParseOf(c, h).value in db.data && db.data[ParseOf(c, h).value].created)
    && (forall h | "ws-" + h in projects && ParseOf(c, h).Ok? && ParseOf(c, h).value in db.data ::
          HasUsers(projects["ws-" + h], ParseOf(c, h).value, db.data[ParseOf(c, h).value].users.Keys, declined, known))
  }

  ghost predicate HasUsers(
      p: Project, id: int, users: set<string>, declined: set<(int, string)>, known: set<string>)
  {
    && (forall m | m in p.members :: m == "admin" || m in users || (id, m) in declined)
    && (forall u | u in users && u in known :: u in p.members)
  }

  lemma FollowsByName(
      c: Permutation, db: Store, declined: set<(int, string)>, projects: map<string, Project>,
      known: set<string>)
    requires Good(db) && Follows(c, db, declined, projects, known)
    ensures ShowsWorkspaces(c, db, declined, projects, known)
  {
    forall h
      ensures "ws-" + h in projects <==>
                ParseOf(c, h).Ok? && ParseOf(c, h).value in db.data && db.data[ParseOf(c, h).value].created
      ensures "ws-" + h in projects && ParseOf(c, h).Ok? && ParseOf(c, h).value in db.data ==>
                HasUsers(projects["ws-" + h], ParseOf(c, h).value, db.data[ParseOf(c, h).value].users.Keys,
                         declined, known)
    {
      FollowsAt(c, db, declined, projects, known, h);
    }
  }

  lemma FollowsAt(
      c: Permutation, db: Store, declined: set<(int, string)>, projects: map<string, Project>,
      known: set<string>, h: string)
    requires Good(db) && Follows(c, db, declined, projects, known)
    ensures "ws-" + h in projects <==>
              ParseOf(c, h).Ok? && ParseOf(c, h).value in db.data && db.data[ParseOf(c, h).value].created
    ensures "ws-" + h in projects && ParseOf(c, h).Ok? && ParseOf(c, h).value in db.data ==>
              HasUsers(projects["ws-" + h], ParseOf(c, h).value, db.data[ParseOf(c, h).value].users.Keys,
                       declined, known)
  {
    HasPrefixIff("ws-" + h);
    if "ws-" + h in projects {
      var id :| id in CreatedIDs(db) && ProjectOf(c, id) == "ws-" + h;
      NameOfProject(c, id, h);
      NameParses(c, db, id);
      MembersAreUsers(projects["ws-" + h], id, db.data[id].users.Keys, declined, known);
    }
    if ParseOf(c, h).Ok? && ParseOf(c, h).value in CreatedIDs(db) {
      NameOfParsed(c, h);
    }
  }

  lemma NameOfProject(c: Permutation, id: int, h: string)
    requires ProjectOf(c, id) == "ws-" + h
    ensures NameOf(c, id) == h
  {
    assert ProjectOf(c, id)[3..] == NameOf(c, id) && ("ws-" + h)[3..] == h;
  }

  lemma MembersAreUsers(p: Project, id: int, users: set<string>, declined: set<(int, string)>, known: set<string>)
    requires MembersAre(p, NamesWith(id, users, declined), known)
    ensures HasUsers(p, id, users, declined, known)
  {
  }

  lemma NameOfParsed(c: Permutation, h: string)
    requires ParseOf(c, h).Ok?
    ensures NameOf(c, ParseOf(c, h).value) == h && ProjectOf(c, ParseOf(c, h).value) == "ws-" + h
  {
    var id := ParseOf(c, h).value;
    ParseAcceptsExactlyHashes(c, h, id);
    WrapOfID(id);
  }

  // ---- The worker command ---------------------------------------------------------------------

  /**
   The worker command: templates and their application, which may fail, and then, unless it
   is a dry run, the reconciliation of the registry against the same list.
   */
  method Work(h: Harbor, vwss: seq<ValueWorkspace>, apply: bool) returns (ok: bool, ghost templated: bool)
    requires h.Valid()
    modifies h`failures, h`changes, h`attempts, h`deletions, h`removals, h`creations, h`robots, h`projects, h`nextID
    ensures h.Valid() && SameUnprefixed(old(h.projects), h.projects)
    ensures ok && apply ==> Mirrors(h.projects, WishesFrom(vwss), h.known)
    ensures !apply || !templated ==> HarborApi.State(h) == old(HarborApi.State(h))
    ensures !templated ==> !ok
    ensures h.reliable ==> (ok <==> !apply || NoDuplicates(Names(WishesFrom(vwss))))
  {
    var failed, _ := h.Trouble();
    ok, templated := !failed, !failed;
    if ok && apply {
      ghost var listed, run;
      ok, listed, run := Reconcile.Run(h, WishesFrom(vwss));
    }
  }

  lemma StoreFollowed(c: Permutation, db: Store, projects: map<string, Project>, known: set<string>)
    requires Mirrors(projects, WishesFrom(Rendering(c, VisibleStore(db))), known)
    ensures Follows(c, db, {}, projects, known)
  {
    var vis := VisibleStore(db);
    forall id | id in vis ensures NamesWith(id, vis[id].names, {}) == vis[id].names {
      NobodyDeclined(id, vis[id].names);
    }
    ShownFollows(c, db, vis, {}, projects, known);
  }

  /** What five statements on these tables show. */
  ghost function ShownIn(ids: Tables, rows: Tables, quotas: Tables, users: Tables): map<int, Visible>
    requires CreatedIDs(Abstraction(ids)) <= Abstraction(rows).data.Keys
  {
    VisibleTorn(CreatedIDs(Abstraction(ids)), Abstraction(rows), Abstraction(quotas), Abstraction(users))
  }

  lemma ShownNamesDistinct(c: Permutation, ids: Tables, rows: Tables, quotas: Tables, users: Tables)
    requires Good(Abstraction(ids)) && CreatedIDs(Abstraction(ids)) <= Abstraction(rows).data.Keys
    ensures NoDuplicates(Names(WishesFrom(Rendering(c, ShownIn(ids, rows, quotas, users)))))
  {
    GoodIDsInRange(Abstraction(ids));
    TornNamesDistinct(c, CreatedIDs(Abstraction(ids)), Abstraction(rows), Abstraction(quotas), Abstraction(users));
  }

  /** One run: list in five statements, each on the tables as it finds them, project, work. Any of it may time out. */
  method RunWorker(
      c: Permutation, h: Harbor, apply: bool, ids: Tables, rows: Tables, quotas: Tables, users: Tables,
      requests: Tables)
    returns (ok: bool)
    requires h.Valid() && Consistent(quotas) && Consistent(users) && Consistent(requests) && Good(Abstraction(ids))
    modifies h`failures, h`changes, h`attempts, h`deletions, h`removals, h`creations, h`robots, h`projects, h`nextID
    ensures h.Valid() && SameUnprefixed(old(h.projects), h.projects)
    ensures ok ==> CreatedIDs(Abstraction(ids)) <= Abstraction(rows).data.Keys
    ensures ok && apply ==> Mirrors(h.projects, WishesFrom(Rendering(c, ShownIn(ids, rows, quotas, users))), h.known)
    ensures !(CreatedIDs(Abstraction(ids)) <= Abstraction(rows).data.Keys) ==>
              HarborApi.State(h) == old(HarborApi.State(h))
    ensures h.reliable && CreatedIDs(Abstraction(ids)) <= Abstraction(rows).data.Keys ==> ok
  {
    var timedOut, _ := h.Trouble();
    if timedOut {
      return false;
    }
    var given := ListForWork(c, ids, rows, quotas, users, requests);
    if given.None? {
      return false;
    }
    ShownNamesDistinct(c, ids, rows, quotas, users);
    ghost var templated;
    ok, templated := Work(h, given.value, apply);
  }

  /** One turn of the queue's loop, from token and rows to registry. */
  method RunOnce(
      c: Permutation, queue: Queue, h: Harbor, apply: bool, ids: Tables, rows: Tables, quotas: Tables, users: Tables,
      requests: Tables)
    returns (ran: bool, ok: bool)
    requires h.Valid() && Consistent(quotas) && Consistent(users) && Consistent(requests) && Good(Abstraction(ids))
    modifies queue
    modifies h`failures, h`changes, h`attempts, h`deletions, h`removals, h`creations, h`robots, h`projects, h`nextID
    ensures h.Valid() && ran == old(queue.slot) && !queue.slot
    ensures !ran ==> h.projects == old(h.projects) && !ok
    ensures SameUnprefixed(old(h.projects), h.projects)
    ensures ok ==> CreatedIDs(Abstraction(ids)) <= Abstraction(rows).data.Keys
    ensures ok && apply ==> Mirrors(h.projects, WishesFrom(Rendering(c, ShownIn(ids, rows, quotas, users))), h.known)
    ensures ok && apply && ids == rows == quotas == users ==> Follows(c, Abstraction(ids), {}, h.projects, h.known)
    ensures ran && h.reliable && CreatedIDs(Abstraction(ids)) <= Abstraction(rows).data.Keys ==> ok
  {
    ran := queue.Take();
    ok := false;
    if ran {
      ok := RunWorker(c, h, apply, ids, rows, quotas, users, requests);
      if ok && apply && ids == rows == quotas == users {
        PresentUntorn(Abstraction(ids));
        StoreFollowed(c, Abstraction(ids), h.projects, h.known);
      }
    }
  }
}
