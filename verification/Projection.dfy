/** The worker-visible projection of workspaces, and what of the store it shows. */
module Projection {
  import opened Basics
  import opened Model
  import opened MapStore
  import opened StoreRuns
  import opened IdCodec

  datatype ValueWorkspace = ValueWorkspace(
    id: ID, idHash: string, enabled: bool, nodegroup: string,
    quotas: map<string, string>, users: seq<string>)

  const IN_GIBIBYTES: set<Resource> := {MEMORY_LIMIT, MEMORY_REQUEST, STORAGE_REQUEST, GPU_MEMORY_REQUEST}

  /** strconv.FormatUint in base 10. */
  function Decimal(n: nat): string {
    if n < 10 then [DigitChar(n)] else Decimal(n / 10) + [DigitChar(n % 10)]
  }

  function DigitChar(d: nat): char
    requires d < 10
  {
    '0' + d as char
  }

  function FormatQuota(resource: Resource, quantity: nat): string {
    Decimal(quantity) + if resource in IN_GIBIBYTES then "Gi" else ""
  }

  function FormatQuotas(quotas: map<Resource, nat>): map<string, string> {
    map k | k in quotas :: FormatQuota(k, quotas[k])
  }

  function NameOf(c: Permutation, id: ID): string {
    HashOf(c, Wrap(id))
  }

  function ValueOf(c: Permutation, ws: Workspace): ValueWorkspace {
    ValueWorkspace(ws.id, NameOf(c, ws.id), ws.enabled, ws.nodegroup, FormatQuotas(ws.quotas), Usernames(ws.users))
  }

  function ValuesOf(c: Permutation, wss: seq<Workspace>): seq<ValueWorkspace> {
    seq(|wss|, i requires 0 <= i < |wss| => ValueOf(c, wss[i]))
  }

  // ---- What a formatted quota denotes ---------------------------------------------

  predicate IsNumeral(s: string) {
    s != "" && forall i | 0 <= i < |s| :: '0' <= s[i] <= '9'
  }

  /** The number a decimal text denotes. */
  function DecimalValue(s: string): int {
    if s == [] then 0 else 10 * DecimalValue(s[..|s| - 1]) + (s[|s| - 1] as int - '0' as int)
  }

  /** A quantity as the cluster reads it: a decimal numeral, and possibly a binary suffix. */
  function Quantity(text: string): Option<int> {
    if IsNumeral(text) then Some(DecimalValue(text))
    else if |text| > 2 && text[|text| - 1] == 'i' && IsNumeral(text[..|text| - 2]) then
      var n := DecimalValue(text[..|text| - 2]);
      match text[|text| - 2]
      case 'K' => Some(n * 1024)
      case 'M' => Some(n * 1024 * 1024)
      case 'G' => Some(n * 1024 * 1024 * 1024)
      case 'T' => Some(n * 1024 * 1024 * 1024 * 1024)
      case _ => None
    else None
  }

  /** Memory, storage and GPU memory are counted in gibibytes, everything else in units. */
  ghost predicate Amounts(quotas: map<string, nat>, texts: map<string, string>) {
    && texts.Keys == quotas.Keys
    && forall k | k in quotas ::
         Quantity(texts[k]) == Some(
           if k in ["requests.memory", "limits.memory", "requests.storage", "requests.nvidia.com/gpumem"]
           then quotas[k] * 1_073_741_824 else quotas[k])
  }

  lemma {:induction false} DecimalDenotes(n: nat)
    ensures IsNumeral(Decimal(n)) && DecimalValue(Decimal(n)) == n
  {
    var s := Decimal(n);
    if n >= 10 {
      DecimalDenotes(n / 10);
      assert s[..|s| - 1] == Decimal(n / 10);
    } else {
      assert s[..0] == [];
    }
  }

  lemma QuotaDenotes(k: Resource, n: nat)
    ensures Quantity(FormatQuota(k, n)) == Some(if k in IN_GIBIBYTES then n * 1_073_741_824 else n)
  {
    DecimalDenotes(n);
    var s := Decimal(n);
    if k in IN_GIBIBYTES {
      assert (s + "Gi")[..|s|] == s && (s + "Gi")[|s| + 1] == 'i';
    } else {
      assert s + "" == s;
    }
  }

  lemma QuotasDenote(quotas: map<Resource, nat>)
    ensures Amounts(quotas, FormatQuotas(quotas))
  {
    forall k | k in quotas
      ensures Quantity(FormatQuotas(quotas)[k])
           == Some(if k in IN_GIBIBYTES then quotas[k] * 1_073_741_824 else quotas[k])
    {
      QuotaDenotes(k, quotas[k]);
    }
  }

  // ---- The loops ----------------------------------------------------------------------

  /** The loop over the quotas, in any order. */
  method FormatEach(quotas: map<Resource, nat>) returns (texts: map<string, string>)
    ensures texts == FormatQuotas(quotas)
  {
    texts := map[];
    var left := quotas.Keys;
    while left != {}
      invariant left <= quotas.Keys
      invariant texts == map k | k in quotas && k !in left :: FormatQuota(k, quotas[k])
      decreases left
    {
      var k :| k in left;
      var text := Decimal(quotas[k]);
      if k == MEMORY_LIMIT || k == MEMORY_REQUEST || k == STORAGE_REQUEST {
        text := text + "Gi";
      } else if k == GPU_MEMORY_REQUEST {
        text := text + "Gi";
      }
      assert text == FormatQuota(k, quotas[k]) by {
        if k !in IN_GIBIBYTES { assert Decimal(quotas[k]) + "" == Decimal(quotas[k]); }
      }
      texts := texts[k := text];
      left := left - {k};
    }
  }

  lemma NameDenotes(c: Permutation, id: ID)
    requires 0 <= id <= MAX_BIGINT
    ensures ParseOf(c, NameOf(c, id)) == Ok(id)
  {
    WrapOfID(id);
    ParseRoundTrip(c, id);
  }

  method ToVWorkspace(c: Permutation, ws: Workspace) returns (vws: ValueWorkspace)
    ensures vws == ValueOf(c, ws)
    ensures vws.id == ws.id && vws.enabled == ws.enabled && vws.nodegroup == ws.nodegroup
    ensures |vws.users| == |ws.users| && forall i | 0 <= i < |ws.users| :: vws.users[i] == ws.users[i].username
    ensures 0 <= ws.id <= MAX_BIGINT ==> ParseOf(c, vws.idHash) == Ok(ws.id)
    ensures Amounts(ws.quotas, vws.quotas)
  {
    var hash := Hash(c, Wrap(ws.id));
    var quotas := FormatEach(ws.quotas);
    vws := ValueWorkspace(ws.id, hash, ws.enabled, ws.nodegroup, quotas, Usernames(ws.users));
    QuotasDenote(ws.quotas);
    if 0 <= ws.id <= MAX_BIGINT {
      NameDenotes(c, ws.id);
    }
  }

  method ToVWorkspaces(c: Permutation, wss: seq<Workspace>) returns (vwss: seq<ValueWorkspace>)
    ensures vwss == ValuesOf(c, wss)
  {
    var blank := ValueWorkspace(0, "", false, "", map[], []);
    var out := new ValueWorkspace[|wss|](_ => blank);
    for i := 0 to |wss|
      invariant forall j | 0 <= j < i :: out[j] == ValueOf(c, wss[j])
    {
      var vws := ToVWorkspace(c, wss[i]);
      out[i] := vws;
    }
    vwss := out[..];
  }

  // ---- What is visible --------------------------------------------------------

  /** The part of an entry the worker's input is made of. */
  datatype Visible = Visible(enabled: bool, nodegroup: Nodegroup, quotas: map<Resource, nat>, names: set<string>)

  ghost function VisibleOf(e: Entry): Visible {
    Visible(e.enabled, e.nodegroup, e.quotas, e.users.Keys)
  }

  ghost function VisibleStore(s: Store): map<ID, Visible> {
    map id | id in s.data && s.data[id].created :: VisibleOf(s.data[id])
  }

  /** What a listing shows when its statements see different committed states. */
  ghost function VisibleTorn(ids: set<ID>, rows: Store, quotas: Store, users: Store): map<ID, Visible>
    requires ids <= rows.data.Keys
  {

    map id | id in ids :: Visible(
      rows.data[id].enabled, rows.data[id].nodegroup, QuotasIn(quotas, id), UsersIn(users, id).Keys)
  }

  ghost function Render(c: Permutation, id: ID, v: Visible): ValueWorkspace {
    LeqIsTotalOrder();
    ValueWorkspace(id, NameOf(c, id), v.enabled, v.nodegroup, FormatQuotas(v.quotas), SortedSet(v.names, Leq))
  }

  /** The worker's input for the visible workspaces, in ascending id order. */
  ghost function Rendering(c: Permutation, m: map<ID, Visible>): (r: seq<ValueWorkspace>)
    ensures |r| == |OrderedIDs(m.Keys)|
  {
    var order := OrderedIDs(m.Keys);
    assert forall i | 0 <= i < |order| :: order[i] in Elements(order);
    seq(|order|, i requires 0 <= i < |order| => Render(c, order[i], m[order[i]]))
  }

  lemma ValueOfView(c: Permutation, id: ID, e: Entry)
    ensures ValueOf(c, View(id, e)) == Render(c, id, VisibleOf(e))
  {
    LeqIsTotalOrder();
    assert Usernames(MembersOf(e.users)) == NamesOf(e.users);
    SortedListIsSortedSet(NamesOf(e.users), e.users.Keys, Leq);
  }

  /** Requests, emails and userdata never reach the worker, however the listing is torn. */
  lemma TornListingRenders(c: Permutation, ids: set<ID>, rows: Store, quotas: Store, users: Store, requests: Store)
    requires ids <= rows.data.Keys
    ensures ValuesOf(c, TornListing(rows, quotas, users, requests, ids))
         == Rendering(c, VisibleTorn(ids, rows, quotas, users))
  {
    assert VisibleTorn(ids, rows, quotas, users).Keys == ids;
    forall i: nat | i < |OrderedIDs(ids)|
      ensures ValuesOf(c, TornListing(rows, quotas, users, requests, ids))[i]
           == Rendering(c, VisibleTorn(ids, rows, quotas, users))[i]
    {
      TornListingRendersAt(c, ids, rows, quotas, users, requests, i);
    }
  }

  lemma TornListingRendersAt(
    c: Permutation, ids: set<ID>, rows: Store, quotas: Store, users: Store, requests: Store, i: nat)
    requires ids <= rows.data.Keys && i < |OrderedIDs(ids)|
    requires VisibleTorn(ids, rows, quotas, users).Keys == ids
    ensures ValuesOf(c, TornListing(rows, quotas, users, requests, ids))[i]
         == Rendering(c, VisibleTorn(ids, rows, quotas, users))[i]
  {
    var id := OrderedIDs(ids)[i];
    assert id in Elements(OrderedIDs(ids));
    ValueOfView(c, id, TornEntry(rows, quotas, users, requests, id));
  }

  lemma PresentUntorn(s: Store)
    ensures CreatedIDs(s) <= s.data.Keys && VisibleTorn(CreatedIDs(s), s, s, s) == VisibleStore(s)
  {
    assert forall id | id in CreatedIDs(s) :: id in s.data;
  }

  lemma ListingRenders(c: Permutation, s: Store)
    ensures CreatedIDs(s) <= s.data.Keys
    ensures ValuesOf(c, StoreListing(s, CreatedIDs(s))) == Rendering(c, VisibleStore(s))
  {
    UntornListing(s, CreatedIDs(s));
    TornListingRenders(c, CreatedIDs(s), s, s, s, s);
    PresentUntorn(s);
  }

  // ---- The rendering loses nothing ----------------------------------------------

  lemma FormatQuotasInjective(a: map<Resource, nat>, b: map<Resource, nat>)
    requires FormatQuotas(a) == FormatQuotas(b)
    ensures a == b
  {
    assert a.Keys == FormatQuotas(a).Keys == FormatQuotas(b).Keys == b.Keys;
    forall k | k in a ensures a[k] == b[k] {
      var suffix := if k in IN_GIBIBYTES then "Gi" else "";
      assert FormatQuotas(a)[k] == Decimal(a[k]) + suffix && FormatQuotas(b)[k] == Decimal(b[k]) + suffix;
      var s, t := Decimal(a[k]), Decimal(b[k]);
      assert (s + suffix)[..|s|] == s && (t + suffix)[..|t|] == t;
      DecimalDenotes(a[k]);
      DecimalDenotes(b[k]);
    }
  }

  lemma RenderInjective(c: Permutation, id: ID, u: Visible, v: Visible)
    requires Render(c, id, u) == Render(c, id, v)
    ensures u == v
  {
    LeqIsTotalOrder();
    FormatQuotasInjective(u.quotas, v.quotas);
    SortedSetElements(u.names, Leq);
    SortedSetElements(v.names, Leq);
  }

  lemma RenderingAt(c: Permutation, m: map<ID, Visible>, id: ID) returns (i: nat)
    requires id in m
    ensures i < |Rendering(c, m)| && Rendering(c, m)[i] == Render(c, id, m[id])
  {
    var order := OrderedIDs(m.Keys);
    assert id in Elements(order);
    i :| i < |order| && order[i] == id;
  }

  /** Equal worker inputs come from equal visible states. */
  lemma RenderingInjective(c: Permutation, a: map<ID, Visible>, b: map<ID, Visible>)
    requires Rendering(c, a) == Rendering(c, b)
    ensures a == b
  {
    RenderedIn(c, a, b);
    RenderedIn(c, b, a);
  }

  lemma RenderedIn(c: Permutation, a: map<ID, Visible>, b: map<ID, Visible>)
    requires Rendering(c, a) == Rendering(c, b)
    ensures forall id | id in a :: id in b && a[id] == b[id]
  {
    forall id | id in a ensures id in b && a[id] == b[id] {
      var i := RenderingAt(c, a, id);
      var order := OrderedIDs(b.Keys);
      assert order[i] in Elements(order);
      assert Render(c, id, a[id]) == Render(c, order[i], b[order[i]]);
      RenderInjective(c, id, a[id], b[id]);
    }
  }

  // ---- Which operations the worker can see ----------------------------------------

  ghost predicate Enqueues(op: Op) {
    op.Update? || op.Delete?
  }

  /** The steps whose handlers do not enqueue leave the worker's input alone, but for Decline. */
  lemma QuietSteps(s: Store, op: Op)
    requires Good(s) && (op.Create? || op.RequestUpdate? || op.Accept?)
    ensures VisibleStore(Apply(s, op).store) == VisibleStore(s)
  {
    var t := Apply(s, op).store;
    if op.Create? && Apply(s, op).error == None {
      assert s.nextID !in s.data;
    }
    if op.Accept? && Pending(s, op.id, op.username) {
      assert t.data[op.id].users.Keys == s.data[op.id].users.Keys;
    }
  }

  /** A failed operation shows nothing either. */
  lemma FailedSteps(s: Store, op: Op)
    requires Apply(s, op).error != None
    ensures VisibleStore(Apply(s, op).store) == VisibleStore(s)
  {
  }

  /** A decline shows exactly when it succeeds on a created workspace, and removes one name. */
  lemma DeclineShows(s: Store, id: ID, username: string)
    ensures VisibleStore(ApplyDecline(s, id, username).store) != VisibleStore(s)
       <==> Pending(s, id, username) && s.data[id].created
    ensures Pending(s, id, username) && s.data[id].created ==>
              VisibleStore(ApplyDecline(s, id, username).store)
              == VisibleStore(s)[id := VisibleOf(s.data[id]).(names := s.data[id].users.Keys - {username})]
  {
    var t := ApplyDecline(s, id, username).store;
    if Pending(s, id, username) {
      assert t.data[id].users.Keys == s.data[id].users.Keys - {username};
      if s.data[id].created {
        assert username in VisibleStore(s)[id].names && username !in VisibleStore(t)[id].names;
      }
    }
  }

  /** Names distinguish the workspaces of a store. */
  lemma NamesDistinct(c: Permutation, s: Store, a: ID, b: ID)
    requires Good(s) && a in s.data && b in s.data && NameOf(c, a) == NameOf(c, b)
    ensures a == b
  {
    HashInjective(c, Wrap(a), Wrap(b));
    WrapOfID(a);
    WrapOfID(b);
  }

  lemma WrapOfID(id: ID)
    requires 0 <= id <= MAX_BIGINT
    ensures Wrap(id) == id
  {
  }

  /** A workspace's name parses back to its ID, the form the routes take it in. */
  lemma NameParses(c: Permutation, s: Store, id: ID)
    requires Good(s) && id in s.data
    ensures ParseOf(c, NameOf(c, id)) == Ok(id)
  {
    NameDenotes(c, id);
  }
}
