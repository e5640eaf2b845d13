/** What one failed call of a run leaves to the others: deletions and robots, project by project. */
module Isolation {
  import opened Basics
  import opened HarborSdk
  import opened HarborApi
  import opened ReconcileSpec
  import opened RunSpec
  import opened FillSpec

  // ---- Deletions ------------------------------------------------------------------------------

  ghost predicate IsUnwanted(r: Plan, i: nat) {
    i < |r.listed| && HasPrefix(r.listed[i]) && r.listed[i] !in Names(r.wanted)
  }

  lemma ScanUpTo(r: Plan, states: seq<Scan>, k: nat, i: nat)
    requires IsScan(r, states, k) && i <= k
    ensures IsScan(r, states[..i + 1], i)
  {
  }

  /** The loop body deletes an unwanted project whatever happened before. */
  lemma UnwantedIsDiscarded(r: Plan, states: seq<Scan>, k: nat, i: nat)
    requires r.Valid() && IsScan(r, states, k) && i < k && IsUnwanted(r, i)
    ensures Discards(states[i], states[i + 1], r.listed[i])
  {
    ScanUpTo(r, states, k, i);
    ScanReaches(r, states[..i + 1], i);
    assert Next(states[i], states[i + 1], r.listed[i], r.known);
    if !Discards(states[i], states[i + 1], r.listed[i]) {
      var m: nat :| Matches(states[i], states[i + 1], r.listed[i], r.known, m);
      MatchReaches(r, i, states[i], states[i + 1], m);
    }
  }

  /** Visiting another project neither brings it back nor forgets the request. */
  lemma NextLeavesOthers(a: Scan, b: Scan, p: string, known: set<string>, q: string)
    requires Next(a, b, p, known) && q != p
    ensures a.reg.deletions <= b.reg.deletions && (q in b.reg.projects <==> q in a.reg.projects)
  {
    if b != a {
      OthersSame(a.reg.projects, b.reg.projects, p, q);
    }
  }

  lemma {:induction false} DeletedInScan(r: Plan, states: seq<Scan>, k: nat, i: nat)
    requires r.Valid() && IsScan(r, states, k) && i < k && IsUnwanted(r, i)
    ensures r.listed[i] in states[k].reg.deletions
    ensures !Troubled(states[i].reg, states[i + 1].reg) ==> r.listed[i] !in states[k].reg.projects
  {
    if i + 1 == k {
      UnwantedIsDiscarded(r, states, k, i);
    } else {
      ScanPrefix(r, states, k);
      DeletedInScan(r, states[..k], k - 1, i);
      NextLeavesOthers(states[k - 1], states[k], r.listed[k - 1], r.known, r.listed[i]);
    }
  }

  lemma {:induction false} FillLeavesOthers(
    first: Scan, states: seq<Scan>, n: nat, known: set<string>, reliable: bool, q: string)
    requires IsFill(first, states, n, known, reliable) && q !in Names(first.left)
    ensures states[n].reg.deletions == first.reg.deletions && states[n].left == first.left[n..]
    ensures q in states[n].reg.projects <==> q in first.reg.projects
  {
    if n > 0 {
      FillPrefix(first, states, n, known, reliable);
      FillLeavesOthers(first, states[..n], n - 1, known, reliable, q);
      assert Names(first.left)[n - 1] == ProjectFor(states[n - 1].left[0]);
      OthersSame(states[n - 1].reg.projects, states[n].reg.projects, ProjectFor(states[n - 1].left[0]), q);
    }
  }

  /** Each listed project nobody wants is asked to be deleted, and gone if that succeeded, whatever else failed. */
  lemma UnwantedAreDeleted(r: Plan, scans: seq<Scan>, fills: seq<Scan>, reliable: bool, i: nat)
    requires IsRun(r, scans, fills, reliable) && IsUnwanted(r, i)
    ensures Discards(scans[i], scans[i + 1], r.listed[i])
    ensures r.listed[i] in End(fills).reg.deletions
    ensures !Troubled(scans[i].reg, scans[i + 1].reg) ==> r.listed[i] !in End(fills).reg.projects
  {
    var mid := scans[|r.listed|];
    UnwantedIsDiscarded(r, scans, |r.listed|, i);
    DeletedInScan(r, scans, |r.listed|, i);
    ScanReaches(r, scans, |r.listed|);
    WantedIsDoneOrLeft(r.wanted, mid.done, mid.left, r.listed[i]);
    FillLeavesOthers(mid, fills, |mid.left|, r.known, reliable, r.listed[i]);
  }

  /** Of the projects there at the start, exactly the unwanted ones are asked to be deleted. */
  ghost predicate AsksForUnwanted(before: Registry, after: Registry, wanted: seq<Wish>) {
    forall p | p in before.projects && p !in before.deletions ::
      p in after.deletions <==> HasPrefix(p) && p !in Names(wanted)
  }

  lemma RunAsksForUnwanted(r: Plan, scans: seq<Scan>, fills: seq<Scan>, reliable: bool)
    requires IsRun(r, scans, fills, reliable)
    ensures AsksForUnwanted(r.start, End(fills).reg, r.wanted)
  {
    RunIsolatesFaults(r, scans, fills, reliable);
    forall p | p in r.start.projects && HasPrefix(p) && p !in Names(r.wanted) ensures p in End(fills).reg.deletions {
      var i := ListedAt(r, p);
      UnwantedAreDeleted(r, scans, fills, reliable, i);
    }
  }

  lemma ListedAt(r: Plan, p: string) returns (i: nat)
    requires r.Valid() && p in r.start.projects
    ensures i < |r.listed| && r.listed[i] == p
  {
    assert p in Elements(r.listed);
    i :| i < |r.listed| && r.listed[i] == p;
  }

  // ---- Robots -----------------------------------------------------------------------------------

  ghost predicate HasRobot(reg: Registry, p: string) {
    p in reg.projects && reg.projects[p].robots == 1 && reg.robots[p] == 1
  }

  /** Each attempt that succeeded on a project that was not there has given it its robot. */
  ghost predicate OwnRobots(start: map<string, Project>, reg: Registry, done: seq<Attempt>) {
    forall i | 0 <= i < |done| && done[i].ok && ProjectFor(done[i].wish) !in start ::
      HasRobot(reg, ProjectFor(done[i].wish))
  }

  lemma CreateKeepsRobot(a: Scan, b: Scan, known: set<string>, reliable: bool, p: string)
    requires Creates(a, b, known, reliable) && HasRobot(a.reg, p)
    ensures HasRobot(b.reg, p)
  {
    if p != ProjectFor(a.left[0]) {
      OthersSame(a.reg.projects, b.reg.projects, ProjectFor(a.left[0]), p);
    }
  }

  lemma {:induction false} FillGivesRobots(
    start: map<string, Project>, first: Scan, states: seq<Scan>, n: nat, known: set<string>, reliable: bool)
    requires IsFill(first, states, n, known, reliable) && OwnRobots(start, first.reg, first.done)
    ensures OwnRobots(start, states[n].reg, states[n].done)
  {
    if n > 0 {
      FillPrefix(first, states, n, known, reliable);
      FillGivesRobots(start, first, states[..n], n - 1, known, reliable);
      var a, b := states[n - 1], states[n];
      forall i | 0 <= i < |b.done| && b.done[i].ok && ProjectFor(b.done[i].wish) !in start
        ensures HasRobot(b.reg, ProjectFor(b.done[i].wish))
      {
        if i < |a.done| {
          assert b.done[i] == a.done[i];
          CreateKeepsRobot(a, b, known, reliable, ProjectFor(a.done[i].wish));
        }
      }
    }
  }

  /** A project whose own creation went through has its robot, whatever else failed. */
  lemma CreatedHaveRobots(r: Plan, scans: seq<Scan>, fills: seq<Scan>, reliable: bool)
    requires IsRun(r, scans, fills, reliable)
    ensures OwnRobots(r.start.projects, End(fills).reg, End(fills).done)
  {
    var mid := scans[|r.listed|];
    ScanReaches(r, scans, |r.listed|);
    forall i | 0 <= i < |mid.done| ensures ProjectFor(mid.done[i].wish) in r.start.projects {
      assert ProjectFor(mid.done[i].wish) in r.listed[..|r.listed|];
      assert ProjectFor(mid.done[i].wish) in Elements(r.listed);
    }
    FillGivesRobots(r.start.projects, mid, fills, |mid.left|, r.known, reliable);
  }
}
