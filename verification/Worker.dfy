/** The queue's two halves as code: the one-slot channel, and one run of the worker. */
module Worker {
  import opened Basics
  import opened MapStore
  import opened IdCodec
  import opened Projection
  import opened Database
  import opened Postgres

  class Queue {
    var slot: bool // a channel of capacity one, holding a token or not

    constructor ()
      ensures !slot
    {
      slot := false;
    }

    /** Never blocks: a token that is already there stands for this request too. */
    method Enqueue()
      modifies this
      ensures slot
    {
      if !slot {
        slot := true;
      }
    }

    /** Receiving from the channel, in the loop's select. */
    method Take() returns (taken: bool)
      modifies this
      ensures taken == old(slot) && !slot
    {
      taken := slot;
      slot := false;
    }
  }

  /** One run up to the call of Work: list in five statements, then project. */
  method ListForWork(c: Permutation, ids: Tables, rows: Tables, quotas: Tables, users: Tables, requests: Tables)
    returns (given: Option<seq<ValueWorkspace>>)
    requires Consistent(quotas) && Consistent(users) && Consistent(requests)
    ensures given.Some? <==> CreatedIDs(Abstraction(ids)) <= Abstraction(rows).data.Keys
    ensures given.Some? ==>
              var shown :=
                VisibleTorn(CreatedIDs(Abstraction(ids)), Abstraction(rows), Abstraction(quotas), Abstraction(users));
              given.value == Rendering(c, shown)
  {
    var wss := WorkspacesRepository.ListCreatedWorkspaces(ids, rows, quotas, users, requests);
    if wss.Err? {
      return None;
    }
    var vwss := ToVWorkspaces(c, wss.value);
    TornListingRenders(c, CreatedIDs(Abstraction(ids)),
                       Abstraction(rows), Abstraction(quotas), Abstraction(users), Abstraction(requests));
    given := Some(vwss);
  }
}
