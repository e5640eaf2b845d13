/** Concrete reachable inputs for what the code does not guarantee. */
module Witnesses {
  import opened Basics
  import opened Model
  import opened MapStore
  import opened StoreRuns
  import opened IdCodec
  import opened QueueProtocol
  import opened Preview
  import Controller
  import Mock

  const ALONE := Workspace(0, false, false, "graduate", "", map[], [WorkspaceUser("a", "")], None)

  lemma AloneIsValid()
    ensures Usernames(ALONE.users) == ["a"] && ValidWorkspace(ALONE)
  {
    assert Usernames(ALONE.users) == ["a"];
  }

  ghost function First(email: string): Store {
    Store(map[1 := InitialEntry(1, ALONE, email)], 2)
  }

  lemma OneCreation(email: string)
    ensures Run([Create(ALONE, email)]) == First(email)
    ensures First(email).data[1].users == map["a" := Some(email)]
  {
    AloneIsValid();
    RunSnoc([], Create(ALONE, email));
    assert [] + [Create(ALONE, email)] == [Create(ALONE, email)];
    assert EMPTY.data[1 := InitialEntry(1, ALONE, email)] == map[1 := InitialEntry(1, ALONE, email)];
  }

  // ---- An empty email ----------------------------------------------------------------------

  /** A creator without an email is accepted for the queries and pending for the model. */
  lemma EmptyEmailIsReachable()
    ensures var s := Run([Create(ALONE, "")]);
            && AcceptedWith(s, 1, "a", "")
            && exists i :: 0 <= i < |View(1, s.data[1]).users|
                 && View(1, s.data[1]).users[i].username == "a" && !View(1, s.data[1]).users[i].IsAccepted()
  {
    OneCreation("");
    var users := First("").data[1].users;
    var i := MemberExists(users, "a");
    MemberAt(users, i);
    assert View(1, First("").data[1]).users[i] == MembersOf(users)[i];
  }

  // ---- Declines ------------------------------------------------------------------------------

  const INVITE := WorkspaceUpdate(1, "", true, "graduate", "", map[], ["a", "b"])
  const REPLACE := WorkspaceUpdate(1, "", true, "graduate", "", map[], ["b"])

  ghost function Second(email: string, upd: WorkspaceUpdate): Store {
    Store(map[1 := UpdatedEntry(First(email).data[1], upd)], 2)
  }

  lemma OneUpdate(email: string, upd: WorkspaceUpdate)
    requires ValidUpdate(upd) && upd.workspaceID == 1 && FitsBigint(upd.quotas)
    ensures Run([Create(ALONE, email)] + [Update(upd)]) == Second(email, upd)
  {
    OneCreation(email);
    RunSnoc([Create(ALONE, email)], Update(upd));
    assert First(email).data[1 := UpdatedEntry(First(email).data[1], upd)]
        == map[1 := UpdatedEntry(First(email).data[1], upd)];
  }

  /** A created workspace with a pending invitation. */
  lemma InvitationIsReachable()
    ensures var s := Run([Create(ALONE, "a@x")] + [Update(INVITE)]);
            Pending(s, 1, "b") && s.data[1].created && AcceptedWith(s, 1, "a", "a@x")
  {
    OneUpdate("a@x", INVITE);
    OneCreation("a@x");
  }

  /** Hence a worker at rest with a stale list: the server starts, runs once, and the invitation is declined. */
  lemma StaleListIsReachable(c: Permutation)
    ensures var t := After([Create(ALONE, "a@x")] + [Update(INVITE)], ONE_RUN + [Commit(Decline(1, "b"))]);
            Quiescent(t) && Given(c, t) != Present(c, t.db)
  {
    var ops := [Create(ALONE, "a@x")] + [Update(INVITE)];
    InvitationIsReachable();
    assert [] + ONE_RUN == ONE_RUN;
    OneRunRests(c, ops, []);
    DeclineGoesUnseen(c, ops, ONE_RUN, 1, "b");
  }

  /** The creator is replaced by an invitee, who declines: a stored workspace without members. */
  lemma EmptyWorkspaceIsReachable()
    ensures var s := Run([Create(ALONE, "a@x")] + [Update(REPLACE)] + [Decline(1, "b")]);
            1 in s.data && s.data[1].users == map[] && !ValidWorkspace(View(1, s.data[1]))
  {
    var ops := [Create(ALONE, "a@x")] + [Update(REPLACE)];
    OneUpdate("a@x", REPLACE);
    var s := Second("a@x", REPLACE);
    assert s.data[1].users == map["b" := None];
    RunSnoc(ops, Decline(1, "b"));
    assert s.data[1].users - {"b"} == map[];
    ViewIsValidIffInhabited(ops + [Decline(1, "b")], 1);
  }

  // ---- An oversized quantity -------------------------------------------------------------------

  const OVERSIZED := WorkspaceUpdate(1, "a", true, "graduate", "", map["requests.cpu" := MAX_BIGINT + 1], ["a"])

  /** The request is stored, and approving it fails. */
  lemma StuckRequestIsReachable()
    ensures var s := Run([Create(ALONE, "a@x")] + [RequestUpdate(OVERSIZED)]);
            && 1 in s.data && s.data[1].request == Some(SortedRequest(OVERSIZED))
            && ApplyUpdate(s, SortedRequest(OVERSIZED)) == Applied(s, Some(Failed))
  {
    OneCreation("a@x");
    RunSnoc([Create(ALONE, "a@x")], RequestUpdate(OVERSIZED));
    RunsStayGood([Create(ALONE, "a@x")]);
    assert OVERSIZED.quotas["requests.cpu"] > MAX_BIGINT;
    OversizedRequestIsStuck(First("a@x"), OVERSIZED);
  }

  // ---- Two administrators ------------------------------------------------------------------------

  const ENABLE := WorkspaceUpdate(1, "", true, "graduate", "", map[], ["a"])

  /** Both read the workspace before either enables it: the second announces it again. */
  lemma SecondNoticeIsReachable()
    ensures var read, op := Run([Create(ALONE, "a@x")]), Update(ENABLE);
            var s := Run([Create(ALONE, "a@x")] + [op]);
            && Controller.Did(s, Apply(s, op).store, Some(op), Controller.Redirect)
            && Controller.NoticesOf(s, Some(op), Controller.Redirect) == []
            && Controller.NoticesOf(read, Some(op), Controller.Redirect) == [Controller.Approval(1, true)]
  {
    OneCreation("a@x");
    OneUpdate("a@x", ENABLE);
    assert Apply(Second("a@x", ENABLE), Update(ENABLE)) == ApplyUpdate(Second("a@x", ENABLE), ENABLE);
  }

  // ---- The in-memory service ---------------------------------------------------------------------

  /** An input that claims to be created is believed. */
  lemma CreatedInputIsKept()
    ensures Mock.CreatedEntry(1, ALONE.(created := true), "a@x").created
    ensures Mock.CreatedEntry(1, ALONE.(created := true), "a@x") != InitialEntry(1, ALONE.(created := true), "a@x")
  {
    AloneIsValid();
    Mock.CreationsAgreeIff(1, ALONE.(created := true), "a@x");
  }
}
