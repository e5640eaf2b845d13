/** Runs of the reconciler that end short of what was wanted, and what later runs make of them. */
module RunWitnesses {
  import opened HarborSdk
  import opened HarborApi
  import opened ReconcileSpec
  import opened RunSpec
  import opened FillSpec
  import opened Reconcile

  const WISH := Wish("x", [])
  const NAME := "ws-x"
  const NOTHING := Registry(map[], multiset{}, {}, multiset{}, multiset{}, 0, 0)

  lemma NameOfWish()
    ensures ProjectFor(WISH) == NAME
  {
  }

  // ---- A project without its robot ---------------------------------------------------------

  /** The project is created, and the call for its robot is made and fails. */
  const HALFWAY := Registry(map[NAME := NEW_PROJECT], multiset{NAME}, {}, multiset{NAME}, multiset{NAME}, 2, 1)

  const PLAN := Plan(NOTHING, [], [WISH], {})
  const BEFORE := Scan(NOTHING, [], [WISH])
  const AFTER := Scan(HALFWAY, [Attempt(WISH, false)], [])

  lemma CreatesHalfway()
    ensures Creates(BEFORE, AFTER, {}, false)
  {
    NameOfWish();
    PutKeepsOthers(NOTHING.projects, NAME, NEW_PROJECT);
    assert NOTHING.projects[NAME := NEW_PROJECT] == HALFWAY.projects;
    assert NOTHING.robots[NAME := 1] == HALFWAY.robots;
  }

  /** One failed call, and the project is there without its robot. */
  lemma RobotlessIsReachable()
    ensures IsRun(PLAN, [BEFORE], [BEFORE, AFTER], false)
    ensures NAME in End([BEFORE, AFTER]).reg.projects && End([BEFORE, AFTER]).reg.projects[NAME].robots == 0
  {
    CreatesHalfway();
  }

  /** A wanted project that starts a run without a robot ends it without one, failures or not. */
  lemma RobotlessStays(r: Plan, scans: seq<Scan>, fills: seq<Scan>, reliable: bool, p: string)
    requires IsRun(r, scans, fills, reliable)
    requires p in r.start.projects && p in Names(r.wanted) && r.start.projects[p].robots == 0
    ensures p in End(fills).reg.projects && End(fills).reg.projects[p].robots == 0
  {
    RunAsksForRobotsOnce(r, scans, fills, reliable);
  }

  /** A run on some registry, reliable or not. */
  ghost predicate Happened(run: History) {
    exists reliable :: IsRun(run.plan, run.scans, run.fills, reliable)
  }

  /** Runs one after the other, each from where the one before ended, all of them wanting project `p`. */
  ghost predicate KeepWanting(runs: seq<History>, p: string) {
    && (forall k | 0 <= k < |runs| :: Happened(runs[k]))
    && (forall k | 0 <= k < |runs| :: p in Names(runs[k].plan.wanted))
    && (forall k | 0 < k < |runs| :: runs[k].plan.start == End(runs[k - 1].fills).reg)
  }

  /** However many runs follow, the project stays and gets no robot while it is wanted. */
  lemma {:induction false} RobotlessForever(runs: seq<History>, p: string)
    requires runs != [] && KeepWanting(runs, p)
    requires p in runs[0].plan.start.projects && runs[0].plan.start.projects[p].robots == 0
    ensures var end := End(runs[|runs| - 1].fills).reg;
            p in end.projects && end.projects[p].robots == 0
  {
    var n := |runs| - 1;
    if n > 0 {
      RobotlessForever(runs[..n], p);
    }
    var run := runs[n];
    var reliable :| IsRun(run.plan, run.scans, run.fills, reliable);
    RobotlessStays(run.plan, run.scans, run.fills, reliable, p);
  }

  // ---- Two workspaces of one name -------------------------------------------------------------

  const READY := NEW_PROJECT.(robots := 1)
  const ONCE := Registry(map[NAME := READY], multiset{NAME}, {}, multiset{NAME}, multiset{NAME}, 2, 0)
  const TWICE := ONCE.(attempts := multiset{NAME, NAME}, changes := 3, failures := 1)

  const CLASHING := Plan(NOTHING, [], [WISH, WISH], {})
  const NONE_DONE := Scan(NOTHING, [], [WISH, WISH])
  const ONE_DONE := Scan(ONCE, [Attempt(WISH, true)], [WISH])
  const BOTH_DONE := Scan(TWICE, [Attempt(WISH, true), Attempt(WISH, false)], [])

  lemma CreatesOnce()
    ensures Creates(NONE_DONE, ONE_DONE, {}, true)
  {
    NameOfWish();
    PutKeepsOthers(NOTHING.projects, NAME, READY);
    assert NOTHING.projects[NAME := READY] == ONCE.projects;
    assert NOTHING.robots[NAME := 1] == ONCE.robots;
  }

  lemma CreatesNotTwice()
    ensures Creates(ONE_DONE, BOTH_DONE, {}, true)
  {
    NameOfWish();
    assert TWICE.attempts == ONCE.attempts + multiset{NAME};
  }

  /** With no call failing for outside reasons, the run fails. */
  lemma ClashIsReachable()
    ensures IsRun(CLASHING, [NONE_DONE], [NONE_DONE, ONE_DONE, BOTH_DONE], true)
    ensures Troubled(CLASHING.start, End([NONE_DONE, ONE_DONE, BOTH_DONE]).reg)
  {
    CreatesOnce();
    CreatesNotTwice();
  }
}
