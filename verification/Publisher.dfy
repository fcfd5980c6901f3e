/**
 The publishing run over the world of Publication: step by step updates of the
 manifest, crashes before any action, and campaigns of interrupted runs.
 */
module Publisher {
  import opened Publication
  import opened RunInvariant
  import opened Wrappers

  datatype Outcome = Refused | Stopped | Finished

  // --------------------------------------------------------------- a run as a fold

  /** The issue loop up to card k. */
  ghost function IssueRun(p: Progress, existing: map<string, nat>, tasks: seq<Task>, k: nat): (q: Progress)
    requires ParentsFirst(tasks) && k <= |tasks|
    ensures q.alive ==> p.alive && forall j :: 0 <= j < k ==> tasks[j].id in q.m.issues
  {
    if k == 0 then p
    else
      var q := IssueRun(p, existing, tasks, k - 1);
      if !q.alive then q
      else
        ParentsRecorded(tasks, k - 1, q.m.issues);
        IssueStep(q, existing, tasks[k - 1])
  }

  lemma IssueRunNext(p: Progress, existing: map<string, nat>, tasks: seq<Task>, k: nat)
    requires ParentsFirst(tasks) && k < |tasks| && IssueRun(p, existing, tasks, k).alive
    ensures var q := IssueRun(p, existing, tasks, k);
            && ParentsKnown(tasks[k], q.m.issues)
            && IssueRun(p, existing, tasks, k + 1) == IssueStep(q, existing, tasks[k])
  {
    ParentsRecorded(tasks, k, IssueRun(p, existing, tasks, k).m.issues);
  }

  /** The branch loop up to card k. */
  ghost function BranchRun(p: Progress, tasks: seq<Task>, k: nat): (q: Progress)
    requires k <= |tasks|
    ensures q.alive ==> p.alive && forall j :: 0 <= j < k ==> tasks[j].id in q.m.branches
    ensures q.m.issues == p.m.issues && q.w.pulls == p.w.pulls
  {
    if k == 0 then p
    else
      var q := BranchRun(p, tasks, k - 1);
      if q.alive then BranchStep(q, tasks[k - 1]) else q
  }

  /** The pull-request loop up to card k. */
  ghost function PullRun(p: Progress, existing: map<string, nat>, tasks: seq<Task>, k: nat): (q: Progress)
    requires k <= |tasks| && forall t :: t in tasks ==> t.id in p.m.branches && t.id in p.m.issues
    ensures q.alive ==> p.alive && forall j :: 0 <= j < k ==> tasks[j].id in q.m.pulls
    ensures q.m.issues == p.m.issues && q.m.branches == p.m.branches
  {
    if k == 0 then p
    else
      var q := PullRun(p, existing, tasks, k - 1);
      if q.alive then PullStep(q, existing, tasks[k - 1]) else q
  }

  /** The three loops with the push between the last two. */
  ghost function RunFrom(p: Progress, tasks: seq<Task>): Progress
    requires ParentsFirst(tasks)
  {
    var n := |tasks|;
    var issued := IssueRun(p, IssueListing(p.w.issues), tasks, n);
    if !issued.alive then issued
    else
      var branched := BranchRun(issued, tasks, n);
      if !branched.alive then branched
      else
        var pushed := PushStep(branched, tasks);
        if !pushed.alive then pushed else PullRun(pushed, PullListing(pushed.w.pulls), tasks, n)
  }

  /** A run starts without a manifest only on a clean tree, and never over another base. */
  predicate Refuses(w: World, base: string, clean: bool)
  {
    if w.manifest.None? then !clean else w.manifest.value.base != base
  }

  function EmptyManifest(base: string): Manifest
  {
    Manifest(base, map[], map[], map[])
  }

  function Loaded(w: World, base: string): Manifest
  {
    if w.manifest.Some? then w.manifest.value else EmptyManifest(base)
  }

  /** The world a run of `budget` actions leaves, and how it ended. */
  ghost function RunResult(w: World, tasks: seq<Task>, base: string, clean: bool, budget: nat): (World, Outcome)
    requires ParentsFirst(tasks)
  {
    if Refuses(w, base, clean) then (w, Refused)
    else
      var q := RunFrom(Progress(w, Loaded(w, base), budget, true), tasks);
      (q.w, if q.alive then Finished else Stopped)
  }

  // ------------------------------------------------------------------------ safety

  lemma {:induction false} IssueRunGood(p: Progress, start: World, existing: map<string, nat>, tasks: seq<Task>, k: nat)
    requires ParentsFirst(tasks) && k <= |tasks| && Good(p, start, tasks, Issues(existing))
    ensures Good(IssueRun(p, existing, tasks, k), start, tasks, Issues(existing))
  {
    if k > 0 {
      IssueRunGood(p, start, existing, tasks, k - 1);
      var q := IssueRun(p, existing, tasks, k - 1);
      if q.alive {
        PhaseIssue(q, start, tasks, existing, k - 1);
      }
    }
  }

  lemma {:induction false} BranchRunGood(p: Progress, start: World, tasks: seq<Task>, k: nat)
    requires k <= |tasks| && Good(p, start, tasks, Branches)
    ensures Good(BranchRun(p, tasks, k), start, tasks, Branches)
  {
    if k > 0 {
      BranchRunGood(p, start, tasks, k - 1);
      var q := BranchRun(p, tasks, k - 1);
      if q.alive {
        PhaseBranch(q, start, tasks, k - 1);
      }
    }
  }

  lemma {:induction false} PullRunGood(p: Progress, start: World, existing: map<string, nat>, tasks: seq<Task>, k: nat)
    requires k <= |tasks| && forall t :: t in tasks ==> t.id in p.m.branches && t.id in p.m.issues
    requires Good(p, start, tasks, Pulls(existing))
    ensures Good(PullRun(p, existing, tasks, k), start, tasks, Pulls(existing))
  {
    if k > 0 {
      PullRunGood(p, start, existing, tasks, k - 1);
      var q := PullRun(p, existing, tasks, k - 1);
      if q.alive {
        PhasePull(q, start, tasks, existing, k - 1);
      }
    }
  }

  lemma RunFromSafe(p: Progress, tasks: seq<Task>)
    requires ParentsFirst(tasks) && p.alive && Good(p, p.w, tasks, Issues(IssueListing(p.w.issues)))
    ensures var q := RunFrom(p, tasks);
            && Consistent(q.w) && LinksRight(q.w, tasks) && Grows(p.w, q.w)
            && (q.alive ==> Complete(q.w, tasks))
  {
    var n, listed := |tasks|, IssueListing(p.w.issues);
    var issued := IssueRun(p, listed, tasks, n);
    IssueRunGood(p, p.w, listed, tasks, n);
    PhaseSafe(issued, p.w, tasks, Issues(listed));
    if issued.alive {
      PhaseIssuesDone(issued, p.w, tasks, listed);
      var branched := BranchRun(issued, tasks, n);
      BranchRunGood(issued, p.w, tasks, n);
      PhaseSafe(branched, p.w, tasks, Branches);
      if branched.alive {
        PhasePush(branched, p.w, tasks);
        PushedRunSafe(PushStep(branched, tasks), p.w, tasks);
      }
    }
  }

  lemma PushedRunSafe(p: Progress, start: World, tasks: seq<Task>)
    requires Good(p, start, tasks, Branches) && (p.alive ==> Good(p, start, tasks, Pulls(PullListing(p.w.pulls))))
    requires forall t :: t in tasks ==> t.id in p.m.branches && t.id in p.m.issues
    ensures var q := if !p.alive then p else PullRun(p, PullListing(p.w.pulls), tasks, |tasks|);
            && Consistent(q.w) && LinksRight(q.w, tasks) && Grows(start, q.w)
            && (q.alive ==> Complete(q.w, tasks))
  {
    PhaseSafe(p, start, tasks, Branches);
    if p.alive {
      var listed := PullListing(p.w.pulls);
      var q := PullRun(p, listed, tasks, |tasks|);
      PullRunGood(p, start, listed, tasks, |tasks|);
      PhaseSafe(q, start, tasks, Pulls(listed));
      if q.alive {
        PhaseComplete(q, start, tasks, listed);
      }
    }
  }

  /**
   Wherever a run stops, no card has two issues and no branch two pull requests, every
   link is right, and nothing is taken back; a finished run leaves exactly one of each
   for every card.
   */
  lemma RunSafe(w: World, tasks: seq<Task>, base: string, clean: bool, budget: nat)
    requires ParentsFirst(tasks) && AllRecognised(tasks) && Consistent(w) && LinksRight(w, tasks)
    ensures var r := RunResult(w, tasks, base, clean, budget);
            && Consistent(r.0) && LinksRight(r.0, tasks) && Grows(w, r.0)
            && (r.1 == Finished ==> Complete(r.0, tasks))
  {
    if !Refuses(w, base, clean) {
      PhaseStart(w, Loaded(w, base), budget, tasks);
      RunFromSafe(Progress(w, Loaded(w, base), budget, true), tasks);
    }
  }

  // ---------------------------------------------------------------------- progress

  /** The branch a run uses for a card: the recorded one, or the one it builds. */
  function BranchOf(m: Manifest, t: Task): string
  {
    if t.id in m.branches then m.branches[t.id] else BranchName(t.id)
  }

  /** The actions still missing for one issue: create and save, only save, or none. */
  function IssueCost(m: Manifest, listed: map<string, nat>, t: Task): nat
  {
    if t.id in m.issues then 0 else if t.id in listed then 1 else 2
  }

  function BranchCost(m: Manifest, t: Task): nat
  {
    if t.id in m.branches then 0 else 2
  }

  function PullCost(m: Manifest, listed: map<string, nat>, t: Task): nat
  {
    if t.id in m.pulls then 0 else if BranchOf(m, t) in listed then 1 else 2
  }

  function IssuesCost(m: Manifest, listed: map<string, nat>, tasks: seq<Task>, k: nat): (r: nat)
    requires k <= |tasks|
    ensures r <= 2 * k
  {
    if k == 0 then 0 else IssuesCost(m, listed, tasks, k - 1) + IssueCost(m, listed, tasks[k - 1])
  }

  function BranchesCost(m: Manifest, tasks: seq<Task>, k: nat): (r: nat)
    requires k <= |tasks|
    ensures r <= 2 * k
  {
    if k == 0 then 0 else BranchesCost(m, tasks, k - 1) + BranchCost(m, tasks[k - 1])
  }

  function PullsCost(m: Manifest, listed: map<string, nat>, tasks: seq<Task>, k: nat): (r: nat)
    requires k <= |tasks|
    ensures r <= 2 * k
  {
    if k == 0 then 0 else PullsCost(m, listed, tasks, k - 1) + PullCost(m, listed, tasks[k - 1])
  }

  /** Everything a run from this world and manifest has left to do. */
  function Needed(w: World, m: Manifest, tasks: seq<Task>): (r: nat)
    ensures r <= 6 * |tasks| + 1
  {
    var n := |tasks|;
    IssuesCost(m, IssueListing(w.issues), tasks, n) + BranchesCost(m, tasks, n) + 1
    + PullsCost(m, PullListing(w.pulls), tasks, n)
  }

  /** The manifest on disk is the one found or one of this run's base. */
  ghost predicate SavedBase(p: Progress, q: Progress)
  {
    q.m.base == p.m.base && (q.w.manifest == p.w.manifest || (q.w.manifest.Some? && q.w.manifest.value.base == p.m.base))
  }

  lemma IssueStepCost(p: Progress, listed: map<string, nat>, t: Task)
    requires p.alive && ParentsKnown(t, p.m.issues)
    ensures var q, c := IssueStep(p, listed, t), IssueCost(p.m, listed, t);
            && (q.alive <==> c <= p.fuel) && (q.alive ==> q.fuel == p.fuel - c)
            && (forall id :: id != t.id ==> (id in q.m.issues <==> id in p.m.issues))
            && q.m.branches == p.m.branches && q.m.pulls == p.m.pulls && q.w.pulls == p.w.pulls && SavedBase(p, q)
  {
  }

  lemma {:induction false} IssueRunCost(p: Progress, listed: map<string, nat>, tasks: seq<Task>, k: nat)
    requires ParentsFirst(tasks) && k <= |tasks| && p.alive
    ensures var q, c := IssueRun(p, listed, tasks, k), IssuesCost(p.m, listed, tasks, k);
            && (q.alive <==> c <= p.fuel) && (q.alive ==> q.fuel == p.fuel - c)
            && (forall j :: k <= j < |tasks| ==> (tasks[j].id in q.m.issues <==> tasks[j].id in p.m.issues))
            && q.m.branches == p.m.branches && q.m.pulls == p.m.pulls && q.w.pulls == p.w.pulls && SavedBase(p, q)
  {
    if k > 0 {
      IssueRunCost(p, listed, tasks, k - 1);
      var q := IssueRun(p, listed, tasks, k - 1);
      if q.alive {
        IssueRunNext(p, listed, tasks, k - 1);
        IssueStepCost(q, listed, tasks[k - 1]);
      }
    }
  }

  lemma BranchStepCost(p: Progress, t: Task)
    requires p.alive
    ensures var q, c := BranchStep(p, t), BranchCost(p.m, t);
            && (q.alive <==> c <= p.fuel) && (q.alive ==> q.fuel == p.fuel - c)
            && (forall id :: id != t.id ==> (id in q.m.branches <==> id in p.m.branches))
            && (forall u: Task :: BranchOf(q.m, u) == BranchOf(p.m, u))
            && q.m.pulls == p.m.pulls && SavedBase(p, q)
  {
  }

  lemma {:induction false} BranchRunCost(p: Progress, tasks: seq<Task>, k: nat)
    requires ParentsFirst(tasks) && k <= |tasks| && p.alive
    ensures var q, c := BranchRun(p, tasks, k), BranchesCost(p.m, tasks, k);
            && (q.alive <==> c <= p.fuel) && (q.alive ==> q.fuel == p.fuel - c)
            && (forall j :: k <= j < |tasks| ==> (tasks[j].id in q.m.branches <==> tasks[j].id in p.m.branches))
            && (forall u: Task :: BranchOf(q.m, u) == BranchOf(p.m, u))
            && q.m.pulls == p.m.pulls && SavedBase(p, q)
  {
    if k > 0 {
      BranchRunCost(p, tasks, k - 1);
      var q := BranchRun(p, tasks, k - 1);
      if q.alive {
        BranchStepCost(q, tasks[k - 1]);
      }
    }
  }

  lemma PullStepCost(p: Progress, listed: map<string, nat>, t: Task)
    requires p.alive && t.id in p.m.branches && t.id in p.m.issues
    ensures var q, c := PullStep(p, listed, t), PullCost(p.m, listed, t);
            && (q.alive <==> c <= p.fuel) && (q.alive ==> q.fuel == p.fuel - c)
            && (forall id :: id != t.id ==> (id in q.m.pulls <==> id in p.m.pulls))
            && SavedBase(p, q)
  {
  }

  lemma {:induction false} PullRunCost(p: Progress, listed: map<string, nat>, tasks: seq<Task>, k: nat)
    requires ParentsFirst(tasks) && k <= |tasks| && p.alive
    requires forall t :: t in tasks ==> t.id in p.m.branches && t.id in p.m.issues
    ensures var q, c := PullRun(p, listed, tasks, k), PullsCost(p.m, listed, tasks, k);
            && (q.alive <==> c <= p.fuel) && (q.alive ==> q.fuel == p.fuel - c)
            && (forall j :: k <= j < |tasks| ==> (tasks[j].id in q.m.pulls <==> tasks[j].id in p.m.pulls))
            && SavedBase(p, q)
  {
    if k > 0 {
      PullRunCost(p, listed, tasks, k - 1);
      var q := PullRun(p, listed, tasks, k - 1);
      if q.alive {
        PullStepCost(q, listed, tasks[k - 1]);
        PullCostSame(p.m, q.m, listed, tasks[k - 1]);
      }
    }
  }

  lemma PullCostSame(m: Manifest, v: Manifest, listed: map<string, nat>, t: Task)
    requires (t.id in v.pulls <==> t.id in m.pulls) && BranchOf(v, t) == BranchOf(m, t)
    ensures PullCost(v, listed, t) == PullCost(m, listed, t)
  {
  }

  /** The cost of the last loop reads only the recorded pull requests and the branches in use. */
  lemma {:induction false} PullsCostSame(m: Manifest, v: Manifest, listed: map<string, nat>, tasks: seq<Task>, k: nat)
    requires k <= |tasks| && v.pulls == m.pulls
    requires forall j :: 0 <= j < |tasks| ==> BranchOf(v, tasks[j]) == BranchOf(m, tasks[j])
    ensures PullsCost(v, listed, tasks, k) == PullsCost(m, listed, tasks, k)
  {
    if k > 0 {
      PullsCostSame(m, v, listed, tasks, k - 1);
    }
  }

  lemma {:induction false} BranchesCostSame(m: Manifest, v: Manifest, tasks: seq<Task>, k: nat)
    requires k <= |tasks| && v.branches == m.branches
    ensures BranchesCost(v, tasks, k) == BranchesCost(m, tasks, k)
  {
    if k > 0 {
      BranchesCostSame(m, v, tasks, k - 1);
    }
  }

  lemma RunFromCost(p: Progress, tasks: seq<Task>)
    requires ParentsFirst(tasks) && p.alive
    ensures RunFrom(p, tasks).alive <==> Needed(p.w, p.m, tasks) <= p.fuel
    ensures SavedBase(p, RunFrom(p, tasks))
  {
    var n, listed := |tasks|, IssueListing(p.w.issues);
    var issued := IssueRun(p, listed, tasks, n);
    IssueRunCost(p, listed, tasks, n);
    if issued.alive {
      var branched := BranchRun(issued, tasks, n);
      BranchRunCost(issued, tasks, n);
      BranchesCostSame(p.m, issued.m, tasks, n);
      if branched.alive {
        var pushed := PushStep(branched, tasks);
        if pushed.alive {
          PullRunCost(pushed, PullListing(pushed.w.pulls), tasks, n);
          PullsCostSame(p.m, pushed.m, PullListing(pushed.w.pulls), tasks, n);
        }
      }
    }
  }

  /**
   A run finishes exactly when its budget covers what is missing: no recorded or listed
   work is repeated, and 6n + 1 actions always suffice for n cards. Without a manifest it
   is refused on an unclean tree; with one, only over another base, so an interrupted
   publication resumes on any tree.
   */
  lemma RunExact(w: World, tasks: seq<Task>, base: string, clean: bool, budget: nat)
    requires ParentsFirst(tasks)
    ensures var r := RunResult(w, tasks, base, clean, budget);
            && (w.manifest.None? ==> (r.1 == Refused <==> !clean))
            && (w.manifest.Some? ==> (r.1 == Refused <==> w.manifest.value.base != base))
            && (r.1 != Refused ==> (r.1 == Finished <==> Needed(w, Loaded(w, base), tasks) <= budget))
            && (r.1 == Stopped ==> budget <= 6 * |tasks|)
            && (r.1 == Refused ==> r.0 == w)
            && (r.1 != Refused && r.0.manifest.Some? ==> r.0.manifest.value.base == base)
            && (w.manifest.Some? ==> r.0.manifest.Some?)
  {
    RunFromCost(Progress(w, Loaded(w, base), budget, true), tasks);
  }

  // ----------------------------------------------------------- what a run leaves saved

  /** The manifest on disk is the one in hand, or nothing was saved and nothing learned. */
  ghost predicate OnDisk(p: Progress)
  {
    p.w.manifest == Some(p.m) || (p.w.manifest.None? && p.m == EmptyManifest(p.m.base))
  }

  lemma {:induction false} IssueRunOnDisk(p: Progress, existing: map<string, nat>, tasks: seq<Task>, k: nat)
    requires ParentsFirst(tasks) && k <= |tasks| && OnDisk(p) && IssueRun(p, existing, tasks, k).alive
    ensures OnDisk(IssueRun(p, existing, tasks, k))
  {
    if k > 0 {
      IssueRunOnDisk(p, existing, tasks, k - 1);
    }
  }

  lemma {:induction false} BranchRunOnDisk(p: Progress, tasks: seq<Task>, k: nat)
    requires k <= |tasks| && OnDisk(p) && BranchRun(p, tasks, k).alive
    ensures OnDisk(BranchRun(p, tasks, k))
  {
    if k > 0 {
      BranchRunOnDisk(p, tasks, k - 1);
    }
  }

  lemma {:induction false} PullRunOnDisk(p: Progress, existing: map<string, nat>, tasks: seq<Task>, k: nat)
    requires k <= |tasks| && forall t :: t in tasks ==> t.id in p.m.branches && t.id in p.m.issues
    requires OnDisk(p) && PullRun(p, existing, tasks, k).alive
    ensures OnDisk(PullRun(p, existing, tasks, k))
  {
    if k > 0 {
      PullRunOnDisk(p, existing, tasks, k - 1);
    }
  }

  /** The manifest records every card in all three tables. */
  predicate RecordsAll(m: Manifest, tasks: seq<Task>)
  {
    forall t :: t in tasks ==> t.id in m.issues && t.id in m.branches && t.id in m.pulls
  }

  lemma RunFromOnDisk(p: Progress, tasks: seq<Task>)
    requires ParentsFirst(tasks) && OnDisk(p) && RunFrom(p, tasks).alive
    ensures OnDisk(RunFrom(p, tasks)) && RecordsAll(RunFrom(p, tasks).m, tasks)
  {
    var n := |tasks|;
    var issued := IssueRun(p, IssueListing(p.w.issues), tasks, n);
    IssueRunOnDisk(p, IssueListing(p.w.issues), tasks, n);
    var branched := BranchRun(issued, tasks, n);
    BranchRunOnDisk(issued, tasks, n);
    var pushed := PushStep(branched, tasks);
    PullRunOnDisk(pushed, PullListing(pushed.w.pulls), tasks, n);
  }

  lemma {:induction false} NothingMissing(m: Manifest, issues: map<string, nat>, pulls: map<string, nat>, tasks: seq<Task>, k: nat)
    requires k <= |tasks| && RecordsAll(m, tasks)
    ensures IssuesCost(m, issues, tasks, k) == 0 && BranchesCost(m, tasks, k) == 0 && PullsCost(m, pulls, tasks, k) == 0
  {
    if k > 0 {
      NothingMissing(m, issues, pulls, tasks, k - 1);
    }
  }

  /** A finished run has saved every card, so running again only pushes. */
  lemma FinishedIsSaved(w: World, tasks: seq<Task>, base: string, clean: bool, budget: nat)
    requires ParentsFirst(tasks) && RunResult(w, tasks, base, clean, budget).1 == Finished
    ensures var v := RunResult(w, tasks, base, clean, budget).0;
            && (|tasks| > 0 ==> v.manifest.Some?) && RecordsAll(Loaded(v, base), tasks)
            && Needed(v, Loaded(v, base), tasks) == 1
  {
    var p := Progress(w, Loaded(w, base), budget, true);
    var v := RunFrom(p, tasks).w;
    RunFromOnDisk(p, tasks);
    if |tasks| > 0 {
      assert tasks[0] in tasks;
    }
    NothingMissing(Loaded(v, base), IssueListing(v.issues), PullListing(v.pulls), tasks, |tasks|);
  }

  /** Once the first card is through the issue loop there is a manifest on disk. */
  lemma {:induction false} IssueRunSaves(p: Progress, existing: map<string, nat>, tasks: seq<Task>, k: nat)
    requires ParentsFirst(tasks) && 1 <= k <= |tasks| && p.alive && p.fuel >= 2 && OnDisk(p)
    ensures IssueRun(p, existing, tasks, k).w.manifest.Some?
  {
    if k == 1 {
      IssueRunNext(p, existing, tasks, 0);
    } else {
      IssueRunSaves(p, existing, tasks, k - 1);
      if IssueRun(p, existing, tasks, k - 1).alive {
        IssueRunNext(p, existing, tasks, k - 1);
      }
    }
  }

  /** Two actions of a run that is not refused are enough to leave a manifest. */
  lemma RunSaves(w: World, tasks: seq<Task>, base: string, clean: bool, budget: nat)
    requires ParentsFirst(tasks) && |tasks| > 0 && budget >= 2 && RunResult(w, tasks, base, clean, budget).1 != Refused
    ensures RunResult(w, tasks, base, clean, budget).0.manifest.Some?
  {
    var p, n := Progress(w, Loaded(w, base), budget, true), |tasks|;
    var listed := IssueListing(w.issues);
    var issued := IssueRun(p, listed, tasks, n);
    IssueRunSaves(p, listed, tasks, n);
    if issued.alive {
      var branched := BranchRun(issued, tasks, n);
      BranchRunCost(issued, tasks, n);
      if branched.alive {
        var pushed := PushStep(branched, tasks);
        if pushed.alive {
          PullRunCost(pushed, PullListing(pushed.w.pulls), tasks, n);
        }
      }
    }
  }

  /** The publisher: the world it changes, and the manifest and budget of the current run. */
  class Backlog {
    var world: World
    var state: Manifest
    var fuel: nat
    var alive: bool

    ghost function Current(): Progress
      reads this
    {
      Progress(world, state, fuel, alive)
    }

    constructor (world: World)
      ensures this.world == world
    {
      this.world := world;
      state := Manifest("", map[], map[], map[]);
      fuel := 0;
      alive := false;
    }

    /** save(state): write a temporary file and replace the manifest. */
    method SaveState()
      modifies this
      ensures Current() == SaveStep(old(Current()))
      ensures Sound(old(Current())) ==> Sound(Current())
    {
      if Sound(Current()) {
        SaveSound(Current());
      }
      if fuel == 0 {
        alive := false;
      } else {
        fuel := fuel - 1;
        world := world.(manifest := Some(state));
      }
    }

    method PublishIssue(t: Task, existing: map<string, nat>)
      requires alive && ParentsKnown(t, state.issues)
      modifies this
      ensures Current() == IssueStep(old(Current()), existing, t)
      ensures Sound(old(Current())) && Covered(old(Current()), existing) && Recognised(t.id) ==>
                Sound(Current()) && Covered(Current(), existing)
      ensures alive ==> t.id in state.issues
    {
      if Sound(Current()) && Covered(Current(), existing) && Recognised(t.id) {
        IssueStepSound(Current(), existing, t);
      }
      if t.id in state.issues {
        return;
      }
      if t.id in existing {
        state := state.(issues := state.issues[t.id := existing[t.id]]);
      } else {
        if fuel == 0 {
          alive := false;
          return;
        }
        var number := world.next;
        var issue := Issue(t.id, number, ParentNumbers(t, state.issues));
        fuel := fuel - 1;
        world := world.(issues := world.issues + [issue], next := number + 1);
        state := state.(issues := state.issues[t.id := number]);
      }
      SaveState();
    }

    method PublishBranch(t: Task)
      requires alive
      modifies this
      ensures Current() == BranchStep(old(Current()), t)
      ensures Sound(old(Current())) ==> Sound(Current())
      ensures alive ==> t.id in state.branches
    {
      if Sound(Current()) {
        BranchStepSound(Current(), t);
      }
      if t.id in state.branches {
        return;
      }
      if fuel == 0 {
        alive := false;
        return;
      }
      fuel := fuel - 1;
      var branch := BranchName(t.id);
      if branch !in world.refs {
        world := world.(refs := world.refs + {branch});
      }
      assert world.refs == old(world.refs) + {branch};
      state := state.(branches := state.branches[t.id := branch]);
      SaveState();
    }

    method PublishPull(t: Task, existing: map<string, nat>, ghost tasks: seq<Task>)
      requires alive && t.id in state.branches && t.id in state.issues
      modifies this
      ensures Current() == PullStep(old(Current()), existing, t)
      ensures Sound(old(Current())) && PullsCovered(old(Current()), existing, tasks) && t in tasks && AllRecognised(tasks) ==>
                Sound(Current()) && PullsCovered(Current(), existing, tasks)
      ensures alive ==> t.id in state.pulls
    {
      if Sound(Current()) && PullsCovered(Current(), existing, tasks) && t in tasks && AllRecognised(tasks) {
        PullStepSound(Current(), existing, tasks, t);
      }
      if t.id in state.pulls {
        return;
      }
      var branch := state.branches[t.id];
      if branch in existing {
        state := state.(pulls := state.pulls[t.id := existing[branch]]);
      } else {
        if fuel == 0 {
          alive := false;
          return;
        }
        var number := world.next;
        fuel := fuel - 1;
        world := world.(pulls := world.pulls + [Pull(branch, number, state.issues[t.id])], next := number + 1);
        state := state.(pulls := state.pulls[t.id := number]);
      }
      SaveState();
    }

    method PushBranches(tasks: seq<Task>)
      requires alive && forall t :: t in tasks ==> t.id in state.branches
      modifies this
      ensures Current() == PushStep(old(Current()), tasks)
    {
      if fuel == 0 {
        alive := false;
        return;
      }
      fuel := fuel - 1;
      world := world.(pushed := world.pushed + (set t | t in tasks :: state.branches[t.id]));
    }

    method IssueCard(tasks: seq<Task>, existing: map<string, nat>, k: nat, ghost p: Progress)
      requires alive && ParentsFirst(tasks) && k < |tasks| && Current() == IssueRun(p, existing, tasks, k)
      modifies this
      ensures Current() == IssueRun(p, existing, tasks, k + 1)
    {
      IssueRunNext(p, existing, tasks, k);
      PublishIssue(tasks[k], existing);
    }

    method IssueLoop(tasks: seq<Task>, existing: map<string, nat>)
      requires alive && ParentsFirst(tasks)
      modifies this
      ensures Current() == IssueRun(old(Current()), existing, tasks, |tasks|)
    {
      ghost var p := Current();
      for k := 0 to |tasks|
        invariant alive && Current() == IssueRun(p, existing, tasks, k)
      {
        IssueCard(tasks, existing, k, p);
        if !alive {
          IssueRunDead(p, existing, tasks, k + 1, |tasks|);
          return;
        }
      }
    }

    method BranchCard(tasks: seq<Task>, k: nat, ghost p: Progress)
      requires alive && k < |tasks| && Current() == BranchRun(p, tasks, k)
      modifies this
      ensures Current() == BranchRun(p, tasks, k + 1)
    {
      PublishBranch(tasks[k]);
    }

    method BranchLoop(tasks: seq<Task>)
      requires alive
      modifies this
      ensures Current() == BranchRun(old(Current()), tasks, |tasks|)
    {
      ghost var p := Current();
      for k := 0 to |tasks|
        invariant alive && Current() == BranchRun(p, tasks, k)
      {
        BranchCard(tasks, k, p);
        if !alive {
          BranchRunDead(p, tasks, k + 1, |tasks|);
          return;
        }
      }
    }

    method PullCard(tasks: seq<Task>, existing: map<string, nat>, k: nat, ghost p: Progress)
      requires alive && k < |tasks| && forall t :: t in tasks ==> t.id in p.m.branches && t.id in p.m.issues
      requires Current() == PullRun(p, existing, tasks, k)
      modifies this
      ensures Current() == PullRun(p, existing, tasks, k + 1)
    {
      PublishPull(tasks[k], existing, tasks);
    }

    method PullLoop(tasks: seq<Task>, existing: map<string, nat>)
      requires alive && forall t :: t in tasks ==> t.id in state.branches && t.id in state.issues
      modifies this
      ensures Current() == PullRun(old(Current()), existing, tasks, |tasks|)
    {
      ghost var p := Current();
      for k := 0 to |tasks|
        invariant alive && Current() == PullRun(p, existing, tasks, k)
      {
        PullCard(tasks, existing, k, p);
        if !alive {
          PullRunDead(p, existing, tasks, k + 1, |tasks|);
          return;
        }
      }
    }

    /**
     One run over the sorted cards, stopping after `budget` actions. Whatever happens,
     no card has two issues and no branch two pull requests, and the manifest records
     only what exists; a run that is not refused finishes exactly when its budget covers
     what is missing, and then every card has exactly one of each.
     */
    method Run(tasks: seq<Task>, base: string, clean: bool, budget: nat) returns (outcome: Outcome)
      requires ParentsFirst(tasks)
      modifies this
      ensures (world, outcome) == RunResult(old(world), tasks, base, clean, budget)
      ensures old(world).manifest.None? ==> (outcome == Refused <==> !clean)
      ensures old(world).manifest.Some? ==> (outcome == Refused <==> old(world).manifest.value.base != base)
      ensures old(world).manifest.Some? && old(world).manifest.value.base == base && budget > 6 * |tasks| ==> outcome == Finished
      ensures outcome == Refused ==> world == old(world)
      ensures outcome != Refused ==>
                (outcome == Finished <==> Needed(old(world), Loaded(old(world), base), tasks) <= budget)
      ensures outcome == Stopped ==> budget <= 6 * |tasks|
      ensures outcome == Finished ==> (|tasks| > 0 ==> world.manifest.Some?) && RecordsAll(Loaded(world, base), tasks)
      ensures AllRecognised(tasks) && Consistent(old(world)) && LinksRight(old(world), tasks) ==>
                && Consistent(world) && LinksRight(world, tasks) && Grows(old(world), world)
                && (outcome == Finished ==> Complete(world, tasks))
    {
      ghost var start := world;
      outcome := Attempt(tasks, base, clean, budget);
      RunExact(start, tasks, base, clean, budget);
      if outcome == Finished {
        FinishedIsSaved(start, tasks, base, clean, budget);
      }
      if AllRecognised(tasks) && Consistent(start) && LinksRight(start, tasks) {
        RunSafe(start, tasks, base, clean, budget);
      }
    }

    /** The tree and base checks, then the loops. */
    method Attempt(tasks: seq<Task>, base: string, clean: bool, budget: nat) returns (outcome: Outcome)
      requires ParentsFirst(tasks)
      modifies this
      ensures (world, outcome) == RunResult(old(world), tasks, base, clean, budget)
    {
      if world.manifest.None? && !clean {
        return Refused;
      }
      var loaded := if world.manifest.Some? then world.manifest.value else Manifest(base, map[], map[], map[]);
      if loaded.base != base {
        return Refused;
      }
      state, fuel, alive := loaded, budget, true;
      Loops(tasks);
      outcome := if alive then Finished else Stopped;
    }

    /** The three loops and the push, in order. */
    method Loops(tasks: seq<Task>)
      requires alive && ParentsFirst(tasks)
      modifies this
      ensures Current() == RunFrom(old(Current()), tasks)
    {
      var issues := IssueListing(world.issues);
      IssueLoop(tasks, issues);
      if !alive {
        return;
      }
      BranchLoop(tasks);
      if !alive {
        return;
      }
      PushBranches(tasks);
      if !alive {
        return;
      }
      var pulls := PullListing(world.pulls);
      PullLoop(tasks, pulls);
    }
  }

  // A loop that has stopped stays as it is.

  lemma {:induction false} IssueRunDead(p: Progress, existing: map<string, nat>, tasks: seq<Task>, k: nat, m: nat)
    requires ParentsFirst(tasks) && k <= m <= |tasks| && !IssueRun(p, existing, tasks, k).alive
    ensures IssueRun(p, existing, tasks, m) == IssueRun(p, existing, tasks, k)
  {
    if k < m {
      IssueRunDead(p, existing, tasks, k, m - 1);
    }
  }

  lemma {:induction false} BranchRunDead(p: Progress, tasks: seq<Task>, k: nat, m: nat)
    requires k <= m <= |tasks| && !BranchRun(p, tasks, k).alive
    ensures BranchRun(p, tasks, m) == BranchRun(p, tasks, k)
  {
    if k < m {
      BranchRunDead(p, tasks, k, m - 1);
    }
  }

  lemma {:induction false} PullRunDead(p: Progress, existing: map<string, nat>, tasks: seq<Task>, k: nat, m: nat)
    requires k <= m <= |tasks| && forall t :: t in tasks ==> t.id in p.m.branches && t.id in p.m.issues
    requires !PullRun(p, existing, tasks, k).alive
    ensures PullRun(p, existing, tasks, m) == PullRun(p, existing, tasks, k)
  {
    if k < m {
      PullRunDead(p, existing, tasks, k, m - 1);
    }
  }

  // ------------------------------------------------------------------- campaigns

  /** A run with some budget of actions, or the loss of the local manifest. */
  datatype Event = RunOnce(base: string, clean: bool, budget: nat) | LoseManifest

  ghost function Happen(w: World, tasks: seq<Task>, event: Event): World
    requires ParentsFirst(tasks)
  {
    match event
    case RunOnce(base, clean, budget) => RunResult(w, tasks, base, clean, budget).0
    case LoseManifest => w.(manifest := None)
  }

  /** The world after a sequence of events. */
  ghost function CampaignWorld(w: World, tasks: seq<Task>, events: seq<Event>): World
    requires ParentsFirst(tasks)
  {
    if |events| == 0 then w
    else Happen(CampaignWorld(w, tasks, events[..|events| - 1]), tasks, events[|events| - 1])
  }

  lemma HappenSafe(w: World, tasks: seq<Task>, event: Event)
    requires ParentsFirst(tasks) && AllRecognised(tasks) && Consistent(w) && LinksRight(w, tasks)
    ensures var v := Happen(w, tasks, event); Consistent(v) && LinksRight(v, tasks) && Grows(w, v)
  {
    match event
    case RunOnce(base, clean, budget) =>
      RunSafe(w, tasks, base, clean, budget);
    case LoseManifest =>
      LinksKept(w, w.(manifest := None), tasks);
  }

  /** Any sequence of interrupted runs and manifest losses keeps every invariant. */
  lemma {:induction false} CampaignSafe(w: World, tasks: seq<Task>, events: seq<Event>)
    requires ParentsFirst(tasks) && AllRecognised(tasks) && Consistent(w) && LinksRight(w, tasks)
    ensures var v := CampaignWorld(w, tasks, events); Consistent(v) && LinksRight(v, tasks) && Grows(w, v)
  {
    if |events| > 0 {
      var before := CampaignWorld(w, tasks, events[..|events| - 1]);
      CampaignSafe(w, tasks, events[..|events| - 1]);
      HappenSafe(before, tasks, events[|events| - 1]);
      GrowsTransitive(w, before, CampaignWorld(w, tasks, events));
    }
  }

  /** Every run of the campaign publishes the same base, and so does the manifest it starts from. */
  predicate OneBase(w: World, events: seq<Event>, base: string)
  {
    && (w.manifest.Some? ==> w.manifest.value.base == base)
    && forall k :: 0 <= k < |events| && events[k].RunOnce? ==> events[k].base == base
  }

  lemma {:induction false} CampaignBase(w: World, tasks: seq<Task>, events: seq<Event>, base: string)
    requires ParentsFirst(tasks) && OneBase(w, events, base)
    ensures var v := CampaignWorld(w, tasks, events); v.manifest.Some? ==> v.manifest.value.base == base
  {
    if |events| > 0 {
      var last := |events| - 1;
      CampaignBase(w, tasks, events[..last], base);
      var before := CampaignWorld(w, tasks, events[..last]);
      if events[last].RunOnce? {
        RunExact(before, tasks, base, events[last].clean, events[last].budget);
      }
    }
  }

  /** A manifest on disk survives every run; only its loss removes it. */
  lemma {:induction false} ManifestKept(w: World, tasks: seq<Task>, events: seq<Event>, j: nat, k: nat)
    requires ParentsFirst(tasks) && j <= k <= |events| && CampaignWorld(w, tasks, events[..j]).manifest.Some?
    requires forall i :: j <= i < k ==> events[i].RunOnce?
    ensures CampaignWorld(w, tasks, events[..k]).manifest.Some?
  {
    if j < k {
      ManifestKept(w, tasks, events, j, k - 1);
      assert events[..k][..k - 1] == events[..k - 1];
      var before, event := CampaignWorld(w, tasks, events[..k - 1]), events[k - 1];
      RunExact(before, tasks, event.base, event.clean, event.budget);
    }
  }

  /** A manifest is on disk at some earlier point and is not lost before event k. */
  ghost predicate ManifestAt(w: World, tasks: seq<Task>, events: seq<Event>, k: nat)
    requires ParentsFirst(tasks) && k <= |events|
  {
    exists j :: 0 <= j <= k && CampaignWorld(w, tasks, events[..j]).manifest.Some? && forall i :: j <= i < k ==> events[i].RunOnce?
  }

  /**
   An event that certainly finishes: a run with 6n + 1 actions, on a clean tree or on any
   tree when a saved manifest has not been lost.
   */
  ghost predicate Sufficient(w: World, tasks: seq<Task>, events: seq<Event>, k: nat)
    requires ParentsFirst(tasks) && k < |events|
  {
    events[k].RunOnce? && events[k].budget > 6 * |tasks| && (events[k].clean || ManifestAt(w, tasks, events, k))
  }

  /** A sufficient event finishes. */
  lemma SufficientFinishes(w: World, tasks: seq<Task>, events: seq<Event>, base: string, k: nat)
    requires ParentsFirst(tasks) && OneBase(w, events, base) && k < |events| && Sufficient(w, tasks, events, k)
    ensures RunResult(CampaignWorld(w, tasks, events[..k]), tasks, base, events[k].clean, events[k].budget).1 == Finished
  {
    var before := CampaignWorld(w, tasks, events[..k]);
    CampaignBase(w, tasks, events[..k], base);
    if !events[k].clean {
      var j :| 0 <= j <= k && CampaignWorld(w, tasks, events[..j]).manifest.Some? && forall i :: j <= i < k ==> events[i].RunOnce?;
      ManifestKept(w, tasks, events, j, k);
    }
    RunExact(before, tasks, base, events[k].clean, events[k].budget);
  }

  lemma CompleteKept(w: World, tasks: seq<Task>, event: Event)
    requires ParentsFirst(tasks) && AllRecognised(tasks) && Consistent(w) && LinksRight(w, tasks) && Complete(w, tasks)
    ensures Complete(Happen(w, tasks, event), tasks)
  {
    HappenSafe(w, tasks, event);
    CompleteGrows(w, Happen(w, tasks, event), tasks);
  }

  lemma CompleteReached(w: World, tasks: seq<Task>, events: seq<Event>, base: string, k: nat)
    requires ParentsFirst(tasks) && AllRecognised(tasks) && Consistent(w) && LinksRight(w, tasks)
    requires OneBase(w, events, base) && k < |events| && Sufficient(w, tasks, events, k)
    ensures Complete(Happen(CampaignWorld(w, tasks, events[..k]), tasks, events[k]), tasks)
  {
    CampaignSafe(w, tasks, events[..k]);
    SufficientFinishes(w, tasks, events, base, k);
    RunSafe(CampaignWorld(w, tasks, events[..k]), tasks, base, events[k].clean, events[k].budget);
  }

  lemma CampaignNext(w: World, tasks: seq<Task>, events: seq<Event>, k: nat)
    requires ParentsFirst(tasks) && k < |events|
    ensures CampaignWorld(w, tasks, events[..k + 1]) == Happen(CampaignWorld(w, tasks, events[..k]), tasks, events[k])
  {
    assert events[..k + 1][..k] == events[..k];
  }

  /** The backlog is complete from a sufficient event on. */
  lemma {:induction false} CompleteAfter(w: World, tasks: seq<Task>, events: seq<Event>, base: string, k: nat, m: nat)
    requires ParentsFirst(tasks) && AllRecognised(tasks) && Consistent(w) && LinksRight(w, tasks)
    requires OneBase(w, events, base) && k < m <= |events| && Sufficient(w, tasks, events, k)
    ensures Complete(CampaignWorld(w, tasks, events[..m]), tasks)
  {
    CampaignNext(w, tasks, events, m - 1);
    if k == m - 1 {
      CompleteReached(w, tasks, events, base, k);
    } else {
      CompleteAfter(w, tasks, events, base, k, m - 1);
      CampaignSafe(w, tasks, events[..m - 1]);
      CompleteKept(CampaignWorld(w, tasks, events[..m - 1]), tasks, events[m - 1]);
    }
  }

  /**
   Whatever was interrupted or lost before and after, one sufficient run of a campaign
   for one base leaves the backlog complete.
   */
  lemma CampaignCompletes(w: World, tasks: seq<Task>, events: seq<Event>, base: string, k: nat)
    requires ParentsFirst(tasks) && AllRecognised(tasks) && Consistent(w) && LinksRight(w, tasks)
    requires OneBase(w, events, base) && k < |events| && Sufficient(w, tasks, events, k)
    ensures Complete(CampaignWorld(w, tasks, events), tasks)
  {
    CompleteAfter(w, tasks, events, base, k, |events|);
    assert events[..|events|] == events;
  }

  /**
   Any sequence of interrupted runs and manifest losses, with one publisher and complete
   listings: at every point the world is consistent, from the first finished run on every
   card has exactly one issue and one pull request, and a sufficient run finishes.
   */
  method Campaign(tasks: seq<Task>, start: World, events: seq<Event>) returns (world: World, finished: bool)
    requires ParentsFirst(tasks) && AllRecognised(tasks) && Consistent(start) && LinksRight(start, tasks)
    ensures world == CampaignWorld(start, tasks, events)
    ensures Consistent(world) && LinksRight(world, tasks) && Grows(start, world)
    ensures finished ==> Complete(world, tasks)
    ensures forall base, k :: OneBase(start, events, base) && 0 <= k < |events| && Sufficient(start, tasks, events, k) ==>
              finished && Complete(world, tasks)
  {
    var backlog := new Backlog(start);
    finished := false;
    for k := 0 to |events|
      invariant backlog.world == CampaignWorld(start, tasks, events[..k])
      invariant Consistent(backlog.world) && LinksRight(backlog.world, tasks) && Grows(start, backlog.world)
      invariant finished ==> Complete(backlog.world, tasks)
      invariant forall base, j :: OneBase(start, events, base) && 0 <= j < k && Sufficient(start, tasks, events, j) ==> finished
    {
      ghost var before := backlog.world;
      assert events[..k + 1][..k] == events[..k];
      HappenSafe(before, tasks, events[k]);
      forall base | OneBase(start, events, base) && Sufficient(start, tasks, events, k)
        ensures RunResult(before, tasks, base, events[k].clean, events[k].budget).1 == Finished
      {
        SufficientFinishes(start, tasks, events, base, k);
      }
      match events[k] {
        case RunOnce(base, clean, budget) =>
          var outcome := backlog.Run(tasks, base, clean, budget);
          if finished {
            CompleteGrows(before, backlog.world, tasks);
          }
          finished := finished || outcome == Finished;
        case LoseManifest =>
          backlog.world := backlog.world.(manifest := None);
          if finished {
            CompleteGrows(before, backlog.world, tasks);
          }
      }
      GrowsTransitive(start, before, backlog.world);
    }
    assert events[..|events|] == events;
    world := backlog.world;
  }

  // ------------------------------------------------------------- the whole program

  /** Refuse unsortable cards, otherwise run over the sorted ones. */
  method PublishBacklog(cards: seq<Task>, backlog: Backlog, base: string, clean: bool, budget: nat) returns (outcome: Outcome)
    requires AllRecognised(cards) && Consistent(backlog.world) && LinksRight(backlog.world, cards)
    modifies backlog
    ensures Consistent(backlog.world) && LinksRight(backlog.world, cards) && Grows(old(backlog.world), backlog.world)
    ensures outcome == Refused <==>
              || !Sortable(cards) || (old(backlog.world).manifest.None? && !clean)
              || (old(backlog.world).manifest.Some? && old(backlog.world).manifest.value.base != base)
    ensures outcome == Refused ==> backlog.world == old(backlog.world)
    ensures outcome == Finished ==> Complete(backlog.world, cards)
    ensures outcome == Stopped ==> budget <= 6 * |cards|
  {
    var sorted := SortCards(cards);
    if sorted.Err? {
      return Refused;
    }
    SameCards(backlog.world, cards, sorted.value);
    outcome := backlog.Run(sorted.value, base, clean, budget);
    SameCards(backlog.world, cards, sorted.value);
  }

  /** Sorting keeps the cards and puts parents first. */
  method SortCards(cards: seq<Task>) returns (sorted: Result<seq<Task>>)
    ensures sorted.Ok? <==> Sortable(cards)
    ensures sorted.Ok? ==> ParentsFirst(sorted.value) && |sorted.value| == |cards| && forall t :: t in sorted.value <==> t in cards
  {
    sorted := Topological(cards);
    if sorted.Ok? {
      TableEntries(cards);
      SortedEntries(cards, sorted.value);
      OrderParentsFirst(Table(cards), sorted.value);
      SortedLength(cards, sorted.value);
    }
  }

  /** What is said of the cards does not depend on their order. */
  lemma SameCards(w: World, cards: seq<Task>, tasks: seq<Task>)
    requires forall t :: t in tasks <==> t in cards
    ensures LinksRight(w, tasks) <==> LinksRight(w, cards)
    ensures Complete(w, tasks) <==> Complete(w, cards)
    ensures AllRecognised(tasks) <==> AllRecognised(cards)
  {
  }

  /** The sorted cards are as many as the cards. */
  lemma SortedLength(cards: seq<Task>, tasks: seq<Task>)
    requires DistinctIds(cards) && ParentsFirst(tasks) && forall t :: t in tasks <==> t in cards
    ensures |tasks| == |cards|
  {
    TableEntries(cards);
    TableEntries(tasks);
    TableSize(cards);
    TableSize(tasks);
    forall id | id in Table(tasks)
      ensures id in Table(cards)
    {
      SortedEntries(cards, tasks);
      assert Table(tasks)[id] in cards;
    }
    forall id | id in Table(cards)
      ensures id in Table(tasks)
    {
      assert Table(cards)[id] in tasks;
      var i :| 0 <= i < |tasks| && tasks[i] == Table(cards)[id];
    }
    assert Table(tasks).Keys == Table(cards).Keys;
    TableCount(tasks);
    TableCount(cards);
  }

  lemma SortedEntries(cards: seq<Task>, tasks: seq<Task>)
    requires DistinctIds(cards) && forall t :: t in tasks <==> t in cards
    ensures forall t :: t in tasks ==> t.id in Table(cards) && Table(cards)[t.id] == t
  {
    TableEntries(cards);
    forall t | t in tasks
      ensures t.id in Table(cards) && Table(cards)[t.id] == t
    {
      var i :| 0 <= i < |cards| && cards[i] == t;
    }
  }

  // ------------------------------------------- what the title pattern is needed for

  /** A run that creates the issue of t and stops before recording it. */
  function Interrupted(p: Progress, t: Task): Progress
    requires ParentsKnown(t, p.m.issues) && t.id !in p.m.issues
  {
    IssueStep(Progress(p.w, p.m, 1, true), map[], t)
  }

  /** The next run: the manifest on disk, a fresh listing, and enough budget. */
  function Resumed(p: Progress, t: Task): Progress
    requires ParentsKnown(t, p.m.issues) && t.id !in p.m.issues
  {
    var w := Interrupted(p, t).w;
    IssueStep(Progress(w, p.m, 2, true), IssueListing(w.issues), t)
  }

  /**
   Resuming after an unrecorded creation duplicates nothing if and only if the listing
   pattern recognises the card's identifier.
   */
  lemma ResumeExact(p: Progress, t: Task)
    requires OneIssueEach(p.w) && ParentsKnown(t, p.m.issues) && t.id !in p.m.issues
    requires forall i :: 0 <= i < |p.w.issues| ==> p.w.issues[i].id != t.id
    ensures OneIssueEach(Resumed(p, t).w) <==> Recognised(t.id)
  {
    var n := |p.w.issues|;
    var w := Interrupted(p, t).w;
    assert w.issues == p.w.issues + [Issue(t.id, p.w.next, ParentNumbers(t, p.m.issues))];
    assert w.issues[n].id == t.id;
    IssueListingExact(w.issues);
    var v := Resumed(p, t).w;
    if Recognised(t.id) {
      assert t.id in IssueListing(w.issues);
      assert v.issues == w.issues;
    } else {
      assert t.id !in IssueListing(w.issues);
      assert v.issues == w.issues + [Issue(t.id, w.next, ParentNumbers(t, p.m.issues))];
      assert v.issues[n].id == v.issues[n + 1].id;
    }
  }

  /** A valid plan identifier that the listing misses: its issue is created twice. */
  lemma UnrecognisedDuplicates()
    ensures var t := Task("A00", []);
            var p := Progress(World([], [], {}, {}, None, 1), Manifest("base", map[], map[], map[]), 0, false);
            !OneIssueEach(Resumed(p, t).w)
  {
    var t := Task("A00", []);
    var p := Progress(World([], [], {}, {}, None, 1), Manifest("base", map[], map[], map[]), 0, false);
    ResumeExact(p, t);
    assert t.id[0] !in "FSCRBHGV";
  }

  /** Nothing published yet, and no manifest. */
  function Untouched(): World
  {
    World([], [], {}, {}, None, 1)
  }

  /** What a first run has done after j cards: one saved issue each, at two actions per card. */
  ghost predicate Fresh(q: Progress, tasks: seq<Task>, base: string, budget: nat, j: nat)
    requires j <= |tasks|
  {
    && q.alive && 2 * j <= budget && q.fuel == budget - 2 * j && q.m.base == base
    && |q.w.issues| == j && (forall i :: 0 <= i < j ==> q.w.issues[i].id == tasks[i].id && tasks[i].id in q.m.issues)
    && (forall i :: j <= i < |tasks| ==> tasks[i].id !in q.m.issues)
    && q.w.manifest == (if j == 0 then None else Some(q.m)) && (j == 0 ==> q.m == EmptyManifest(base))
  }

  lemma {:induction false} FreshRun(tasks: seq<Task>, base: string, budget: nat, j: nat)
    requires ParentsFirst(tasks) && j <= |tasks| && 2 * j <= budget
    ensures Fresh(IssueRun(Progress(Untouched(), EmptyManifest(base), budget, true), map[], tasks, j), tasks, base, budget, j)
  {
    if j > 0 {
      FreshRun(tasks, base, budget, j - 1);
      var p := Progress(Untouched(), EmptyManifest(base), budget, true);
      IssueRunNext(p, map[], tasks, j - 1);
      FreshStep(IssueRun(p, map[], tasks, j - 1), tasks, base, budget, j - 1);
    }
  }

  lemma FreshStep(q: Progress, tasks: seq<Task>, base: string, budget: nat, j: nat)
    requires ParentsFirst(tasks) && j < |tasks| && 2 * (j + 1) <= budget
    requires Fresh(q, tasks, base, budget, j) && ParentsKnown(tasks[j], q.m.issues)
    ensures Fresh(IssueStep(q, map[], tasks[j]), tasks, base, budget, j + 1)
  {
    var r := CreatedIssue(q, tasks[j]);
    assert IssueStep(q, map[], tasks[j]) == SaveStep(r);
    assert r.w.issues[..j] == q.w.issues;
    assert forall i :: 0 <= i < j ==> r.w.issues[i] == q.w.issues[i];
  }

  /** An issue that neither the manifest nor the listing knows is created by the last action of a run. */
  lemma LastAction(q: Progress, existing: map<string, nat>, t: Task)
    requires q.alive && q.fuel == 1 && ParentsKnown(t, q.m.issues) && t.id !in q.m.issues && t.id !in existing
    ensures var r := IssueStep(q, existing, t);
            && !r.alive && r.w.manifest == q.w.manifest
            && |r.w.issues| == |q.w.issues| + 1 && q.w.issues <= r.w.issues && r.w.issues[|q.w.issues|].id == t.id
  {
  }

  /** Recorded cards are passed over. */
  lemma {:induction false} PassedOver(p: Progress, existing: map<string, nat>, tasks: seq<Task>, k: nat)
    requires ParentsFirst(tasks) && k <= |tasks| && p.alive && forall i :: 0 <= i < k ==> tasks[i].id in p.m.issues
    ensures IssueRun(p, existing, tasks, k) == p
  {
    if k > 0 {
      PassedOver(p, existing, tasks, k - 1);
    }
  }

  /** The first run stops right after creating the issue of card k. */
  lemma FirstRun(tasks: seq<Task>, base: string, k: nat) returns (w: World)
    requires ParentsFirst(tasks) && k < |tasks|
    ensures w == RunResult(Untouched(), tasks, base, true, 2 * k + 1).0
    ensures !Refuses(w, base, true) && |w.issues| == k + 1 && w.issues[k].id == tasks[k].id
    ensures forall i :: 0 <= i < k ==> tasks[i].id in Loaded(w, base).issues
    ensures tasks[k].id !in Loaded(w, base).issues
  {
    var p := Progress(Untouched(), EmptyManifest(base), 2 * k + 1, true);
    assert IssueListing(p.w.issues) == map[];
    FreshRun(tasks, base, 2 * k + 1, k);
    var q := IssueRun(p, map[], tasks, k);
    IssueRunNext(p, map[], tasks, k);
    LastAction(q, map[], tasks[k]);
    IssueRunDead(p, map[], tasks, k + 1, |tasks|);
    w := RunFrom(p, tasks).w;
    assert Loaded(w, base) == q.m;
  }

  /** The second run passes the recorded cards over and creates the issue of card k again. */
  lemma SecondRun(w: World, tasks: seq<Task>, base: string, k: nat)
    requires ParentsFirst(tasks) && k < |tasks| && !Recognised(tasks[k].id)
    requires !Refuses(w, base, true) && |w.issues| == k + 1 && w.issues[k].id == tasks[k].id
    requires forall i :: 0 <= i < k ==> tasks[i].id in Loaded(w, base).issues
    requires tasks[k].id !in Loaded(w, base).issues
    ensures !OneIssueEach(RunResult(w, tasks, base, true, 1).0)
  {
    var p, listed := Progress(w, Loaded(w, base), 1, true), IssueListing(w.issues);
    IssueListingExact(w.issues);
    PassedOver(p, listed, tasks, k);
    IssueRunNext(p, listed, tasks, k);
    LastAction(p, listed, tasks[k]);
    IssueRunDead(p, listed, tasks, k + 1, |tasks|);
    var v := RunFrom(p, tasks).w;
    assert v.issues[k] == w.issues[k] && v.issues[k + 1].id == tasks[k].id;
  }

  /** Two interrupted runs from nothing give an unrecognised card two issues. */
  lemma UnrecognisedCampaign(tasks: seq<Task>, k: nat) returns (events: seq<Event>)
    requires ParentsFirst(tasks) && k < |tasks| && !Recognised(tasks[k].id)
    ensures !OneIssueEach(CampaignWorld(Untouched(), tasks, events))
  {
    var first, second := RunOnce("", true, 2 * k + 1), RunOnce("", true, 1);
    events := [first, second];
    var w := FirstRun(tasks, "", k);
    SecondRun(w, tasks, "", k);
    assert events[..1] == [first] && [first][..0] == [];
    assert CampaignWorld(Untouched(), tasks, []) == Untouched();
    assert CampaignWorld(Untouched(), tasks, [first]) == w;
  }

  /**
   The exact condition for the documented promise: for any sortable plan, no campaign of
   interrupted runs and lost manifests from an empty repository ever duplicates an issue
   if and only if the listing pattern recognises every card.
   */
  lemma NeverDuplicatesExactly(tasks: seq<Task>)
    requires ParentsFirst(tasks)
    ensures (forall events: seq<Event> :: OneIssueEach(CampaignWorld(Untouched(), tasks, events))) <==> AllRecognised(tasks)
  {
    if AllRecognised(tasks) {
      forall events: seq<Event>
        ensures OneIssueEach(CampaignWorld(Untouched(), tasks, events))
      {
        CampaignSafe(Untouched(), tasks, events);
      }
    } else {
      var t :| t in tasks && !Recognised(t.id);
      var k :| 0 <= k < |tasks| && tasks[k] == t;
      var events := UnrecognisedCampaign(tasks, k);
    }
  }
}
