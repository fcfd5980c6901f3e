/**
 The invariant of a publishing run: issues link their parents, pull requests
 track their own issue, nothing is taken back, and each loop carries it on.
 */
module RunInvariant {
  import opened Arith
  import opened DependencyGraph
  import opened Publication

  // ------------------------------------------------------------- links to parents

  /** Issue i links, for each parent of its card in order, an issue of that parent. */
  ghost predicate Linked(w: World, issue: Issue, t: Task)
  {
    |issue.parents| == |t.dependsOn| && forall k :: 0 <= k < |t.dependsOn| ==> HasIssue(w, t.dependsOn[k], issue.parents[k])
  }

  /** Every issue of a card links issues of the card's parents. */
  ghost predicate IssuesLinked(w: World, tasks: seq<Task>)
  {
    forall i, t :: 0 <= i < |w.issues| && t in tasks && t.id == w.issues[i].id ==> Linked(w, w.issues[i], t)
  }

  /** Every pull request of a card's branch tracks the card's own issue. */
  ghost predicate PullsLinked(w: World, tasks: seq<Task>)
  {
    forall i, t :: 0 <= i < |w.pulls| && t in tasks && BranchName(t.id) == w.pulls[i].branch ==> HasIssue(w, t.id, w.pulls[i].issue)
  }

  ghost predicate LinksRight(w: World, tasks: seq<Task>)
  {
    IssuesLinked(w, tasks) && PullsLinked(w, tasks)
  }

  lemma HasIssueGrows(w: World, v: World, id: string, number: nat)
    requires HasIssue(w, id, number) && w.issues <= v.issues
    ensures HasIssue(v, id, number)
  {
    var i :| 0 <= i < |w.issues| && w.issues[i].id == id && w.issues[i].number == number;
    assert v.issues[i] == w.issues[i];
  }

  lemma LinkedGrows(w: World, v: World, issue: Issue, t: Task)
    requires Linked(w, issue, t) && w.issues <= v.issues
    ensures Linked(v, issue, t)
  {
    forall k | 0 <= k < |t.dependsOn|
      ensures HasIssue(v, t.dependsOn[k], issue.parents[k])
    {
      HasIssueGrows(w, v, t.dependsOn[k], issue.parents[k]);
    }
  }

  lemma PullsLinkedGrow(w: World, v: World, tasks: seq<Task>)
    requires PullsLinked(w, tasks) && w.issues <= v.issues && w.pulls == v.pulls
    ensures PullsLinked(v, tasks)
  {
    forall i, t | 0 <= i < |v.pulls| && t in tasks && BranchName(t.id) == v.pulls[i].branch
      ensures HasIssue(v, t.id, v.pulls[i].issue)
    {
      HasIssueGrows(w, v, t.id, w.pulls[i].issue);
    }
  }

  /** The links depend on the issues and pull requests only. */
  lemma LinksKept(w: World, v: World, tasks: seq<Task>)
    requires LinksRight(w, tasks) && w.issues == v.issues && w.pulls == v.pulls
    ensures LinksRight(v, tasks)
  {
    PullsLinkedGrow(w, v, tasks);
    forall i, t | 0 <= i < |v.issues| && t in tasks && t.id == v.issues[i].id
      ensures Linked(v, v.issues[i], t)
    {
      LinkedGrows(w, v, w.issues[i], t);
    }
  }

  lemma CreateLinks(p: Progress, tasks: seq<Task>, t: Task)
    requires LinksRight(p.w, tasks) && Recorded(p.w, p.m) && ParentsKnown(t, p.m.issues) && p.fuel > 0
    requires forall u :: u in tasks && u.id == t.id ==> u == t
    ensures LinksRight(CreatedIssue(p, t).w, tasks)
  {
    var v := CreatedIssue(p, t).w;
    var n := |p.w.issues|;
    PullsLinkedGrow(p.w, v, tasks);
    forall i, u | 0 <= i < |v.issues| && u in tasks && u.id == v.issues[i].id
      ensures Linked(v, v.issues[i], u)
    {
      if i < n {
        assert v.issues[i] == p.w.issues[i];
        LinkedGrows(p.w, v, p.w.issues[i], u);
      } else {
        forall k | 0 <= k < |t.dependsOn|
          ensures HasIssue(v, t.dependsOn[k], v.issues[n].parents[k])
        {
          assert t.dependsOn[k] in p.m.issues;
          HasIssueGrows(p.w, v, t.dependsOn[k], p.m.issues[t.dependsOn[k]]);
        }
      }
    }
  }

  /** The issue loop keeps the links, and only appends issues. */
  lemma IssueStepLinks(p: Progress, existing: map<string, nat>, tasks: seq<Task>, t: Task)
    requires Sound(p) && LinksRight(p.w, tasks) && (p.alive ==> ParentsKnown(t, p.m.issues))
    requires forall u :: u in tasks && u.id == t.id ==> u == t
    ensures LinksRight(IssueStep(p, existing, t).w, tasks) && p.w.issues <= IssueStep(p, existing, t).w.issues
  {
    if p.alive && t.id !in p.m.issues && t.id !in existing && p.fuel > 0 {
      CreateLinks(p, tasks, t);
      LinksKept(CreatedIssue(p, t).w, SaveStep(CreatedIssue(p, t)).w, tasks);
    } else {
      LinksKept(p.w, IssueStep(p, existing, t).w, tasks);
    }
  }

  lemma CreatePullLinks(p: Progress, tasks: seq<Task>, t: Task)
    requires LinksRight(p.w, tasks) && Recorded(p.w, p.m) && AllRecognised(tasks) && t in tasks && p.fuel > 0
    requires t.id in p.m.branches && t.id in p.m.issues
    ensures LinksRight(CreatedPull(p, t).w, tasks)
  {
    var v, n := CreatedPull(p, t).w, |p.w.pulls|;
    forall i, u | 0 <= i < |v.issues| && u in tasks && u.id == v.issues[i].id
      ensures Linked(v, v.issues[i], u)
    {
      LinkedGrows(p.w, v, p.w.issues[i], u);
    }
    forall i, u | 0 <= i < |v.pulls| && u in tasks && BranchName(u.id) == v.pulls[i].branch
      ensures HasIssue(v, u.id, v.pulls[i].issue)
    {
      if i < n {
        assert v.pulls[i] == p.w.pulls[i];
        HasIssueGrows(p.w, v, u.id, p.w.pulls[i].issue);
      } else {
        BranchInjective(u.id, t.id);
        HasIssueGrows(p.w, v, t.id, p.m.issues[t.id]);
      }
    }
  }

  /** The pull loop keeps the links: a created pull request tracks its own card's issue. */
  lemma PullStepLinks(p: Progress, existing: map<string, nat>, tasks: seq<Task>, t: Task)
    requires Sound(p) && LinksRight(p.w, tasks) && AllRecognised(tasks) && t in tasks
    requires t.id in p.m.branches && t.id in p.m.issues
    ensures LinksRight(PullStep(p, existing, t).w, tasks)
  {
    if p.alive && t.id !in p.m.pulls && p.m.branches[t.id] !in existing && p.fuel > 0 {
      CreatePullLinks(p, tasks, t);
      LinksKept(CreatedPull(p, t).w, SaveStep(CreatedPull(p, t)).w, tasks);
    } else {
      LinksKept(p.w, PullStep(p, existing, t).w, tasks);
    }
  }

  // --------------------------------------------------------------------- growth

  /** Nothing published is taken back. */
  predicate Grows(w: World, v: World)
  {
    w.issues <= v.issues && w.pulls <= v.pulls && w.refs <= v.refs && w.pushed <= v.pushed
  }

  lemma IssueStepGrows(p: Progress, existing: map<string, nat>, t: Task)
    requires p.alive ==> ParentsKnown(t, p.m.issues)
    ensures Grows(p.w, IssueStep(p, existing, t).w)
  {
  }

  lemma BranchStepGrows(p: Progress, t: Task)
    ensures Grows(p.w, BranchStep(p, t).w)
  {
  }

  lemma PullStepGrows(p: Progress, existing: map<string, nat>, t: Task)
    requires t.id in p.m.branches && t.id in p.m.issues
    ensures Grows(p.w, PullStep(p, existing, t).w)
  {
  }

  lemma GrowsTransitive(u: World, v: World, w: World)
    requires Grows(u, v) && Grows(v, w)
    ensures Grows(u, w)
  {
  }

  // -------------------------------------------------------------------- the goal

  /** Every card has its one issue and the one pull request of its branch, pushed. */
  ghost predicate Complete(w: World, tasks: seq<Task>)
  {
    && OneIssueEach(w) && OnePullEach(w)
    && forall t :: t in tasks ==>
         && (exists n :: HasIssue(w, t.id, n))
         && (exists n :: HasPull(w, BranchName(t.id), n))
         && BranchName(t.id) in w.refs && BranchName(t.id) in w.pushed
  }

  /** What is complete stays complete. */
  lemma CompleteGrows(w: World, v: World, tasks: seq<Task>)
    requires Complete(w, tasks) && Grows(w, v) && OneIssueEach(v) && OnePullEach(v)
    ensures Complete(v, tasks)
  {
    forall t | t in tasks
      ensures exists n :: HasIssue(v, t.id, n)
      ensures exists n :: HasPull(v, BranchName(t.id), n)
    {
      var n :| HasIssue(w, t.id, n);
      HasIssueGrows(w, v, t.id, n);
      var m :| HasPull(w, BranchName(t.id), m);
      var i :| 0 <= i < |w.pulls| && w.pulls[i].branch == BranchName(t.id) && w.pulls[i].number == m;
      assert v.pulls[i] == w.pulls[i];
      assert HasPull(v, BranchName(t.id), m);
    }
  }

  /** Parents come first. */
  ghost predicate ParentsFirst(tasks: seq<Task>)
  {
    && (forall i, j :: 0 <= i < j < |tasks| ==> tasks[i].id != tasks[j].id)
    && (forall k :: 0 <= k < |tasks| ==> forall parent :: parent in tasks[k].dependsOn ==> parent in Ids(tasks)[..k])
  }

  lemma OrderParentsFirst(table: map<string, Task>, tasks: seq<Task>)
    requires Ordered(Dependencies(table), Ids(tasks)) && forall t :: t in tasks ==> t.id in table && table[t.id] == t
    ensures ParentsFirst(tasks)
  {
    var ids := Ids(tasks);
    assert forall i :: 0 <= i < |tasks| ==> tasks[i] in tasks && ids[i] == tasks[i].id;
  }

  lemma SameTask(tasks: seq<Task>, t: Task, u: Task)
    requires ParentsFirst(tasks) && t in tasks && u in tasks && t.id == u.id
    ensures t == u
  {
    var i :| 0 <= i < |tasks| && tasks[i] == t;
    var j :| 0 <= j < |tasks| && tasks[j] == u;
  }

  /** All cards before index k are recorded, so the parents of card k are known. */
  lemma ParentsRecorded(tasks: seq<Task>, k: nat, issues: map<string, nat>)
    requires ParentsFirst(tasks) && k < |tasks| && forall j :: 0 <= j < k ==> tasks[j].id in issues
    ensures ParentsKnown(tasks[k], issues)
  {
    forall parent | parent in tasks[k].dependsOn
      ensures parent in issues
    {
      assert parent in Ids(tasks)[..k];
      var j :| 0 <= j < k && Ids(tasks)[j] == parent;
    }
  }

  datatype Phase = Issues(existing: map<string, nat>) | Branches | Pulls(existing: map<string, nat>)

  ghost predicate GoodRule(p: Progress, start: World, tasks: seq<Task>, phase: Phase)
  {
    && Sound(p) && LinksRight(p.w, tasks) && Grows(start, p.w) && ParentsFirst(tasks) && AllRecognised(tasks)
    && match phase {
         case Issues(existing) => Covered(p, existing)
         case Branches => forall t :: t in tasks ==> t.id in p.m.issues
         case Pulls(existing) =>
           && PullsCovered(p, existing, tasks)
           && forall t :: t in tasks ==> t.id in p.m.issues && t.id in p.m.branches && p.m.branches[t.id] in p.w.pushed
       }
  }

  ghost predicate IsGood(p: Progress, start: World, tasks: seq<Task>, phase: Phase, b: bool)
  {
    forall z {:trigger Unfold(z)} :: Unfold(z) ==> b == GoodRule(p, start, tasks, phase)
  }

  /** The invariant of a run in each of its loops; unfolded by the Phase lemmas. */
  ghost predicate Good(p: Progress, start: World, tasks: seq<Task>, phase: Phase)
  {
    assert IsGood(p, start, tasks, phase, GoodRule(p, start, tasks, phase));
    var b :| IsGood(p, start, tasks, phase, b);
    b
  }

  lemma PhaseValue(p: Progress, start: World, tasks: seq<Task>, phase: Phase)
    ensures Good(p, start, tasks, phase) <==> GoodRule(p, start, tasks, phase)
  {
    assert Unfold(0);
  }

  /** At any point of a run the world is consistent and nothing has been taken back. */
  lemma PhaseSafe(p: Progress, start: World, tasks: seq<Task>, phase: Phase)
    requires Good(p, start, tasks, phase)
    ensures Consistent(p.w) && LinksRight(p.w, tasks) && Grows(start, p.w)
  {
    PhaseValue(p, start, tasks, phase);
  }

  lemma IssuesReady(p: Progress, start: World, tasks: seq<Task>, existing: map<string, nat>, k: nat)
    requires Good(p, start, tasks, Issues(existing)) && k < |tasks| && forall j :: 0 <= j < k ==> tasks[j].id in p.m.issues
    ensures ParentsKnown(tasks[k], p.m.issues) && Recognised(tasks[k].id)
    ensures Sound(p) && Covered(p, existing) && LinksRight(p.w, tasks)
    ensures forall u :: u in tasks && u.id == tasks[k].id ==> u == tasks[k]
  {
    PhaseValue(p, start, tasks, Issues(existing));
    ParentsRecorded(tasks, k, p.m.issues);
    forall u | u in tasks && u.id == tasks[k].id
      ensures u == tasks[k]
    {
      SameTask(tasks, u, tasks[k]);
    }
  }

  lemma IssuesCarry(p: Progress, q: Progress, start: World, tasks: seq<Task>, existing: map<string, nat>)
    requires Good(p, start, tasks, Issues(existing)) && Sound(q) && Covered(q, existing)
    requires LinksRight(q.w, tasks) && Grows(p.w, q.w)
    ensures Good(q, start, tasks, Issues(existing))
  {
    PhaseValue(p, start, tasks, Issues(existing));
    PhaseValue(q, start, tasks, Issues(existing));
  }

  lemma PhaseIssue(p: Progress, start: World, tasks: seq<Task>, existing: map<string, nat>, k: nat)
    requires Good(p, start, tasks, Issues(existing)) && k < |tasks|
    requires forall j :: 0 <= j < k ==> tasks[j].id in p.m.issues
    ensures ParentsKnown(tasks[k], p.m.issues)
    ensures var q := IssueStep(p, existing, tasks[k]);
            Good(q, start, tasks, Issues(existing)) && (q.alive ==> forall j :: 0 <= j < k + 1 ==> tasks[j].id in q.m.issues)
  {
    var t := tasks[k];
    IssuesReady(p, start, tasks, existing, k);
    IssueStepSound(p, existing, t);
    IssueStepLinks(p, existing, tasks, t);
    IssueStepGrows(p, existing, t);
    IssuesCarry(p, IssueStep(p, existing, t), start, tasks, existing);
  }

  lemma PhaseIssuesDone(p: Progress, start: World, tasks: seq<Task>, existing: map<string, nat>)
    requires Good(p, start, tasks, Issues(existing)) && forall j :: 0 <= j < |tasks| ==> tasks[j].id in p.m.issues
    ensures Good(p, start, tasks, Branches)
  {
    PhaseValue(p, start, tasks, Issues(existing));
    PhaseValue(p, start, tasks, Branches);
  }

  /** A step that touches no issue keeps the invariant of the later loops. */
  lemma PhaseCarry(p: Progress, q: Progress, start: World, tasks: seq<Task>)
    requires Good(p, start, tasks, Branches) && Sound(q) && Grows(p.w, q.w)
    requires q.w.issues == p.w.issues && q.w.pulls == p.w.pulls && q.m.issues == p.m.issues
    ensures Good(q, start, tasks, Branches)
  {
    PhaseValue(p, start, tasks, Branches);
    LinksKept(p.w, q.w, tasks);
    PhaseValue(q, start, tasks, Branches);
  }

  lemma PhaseSound(p: Progress, start: World, tasks: seq<Task>)
    requires Good(p, start, tasks, Branches)
    ensures Sound(p)
  {
    PhaseValue(p, start, tasks, Branches);
  }

  lemma PhaseBranch(p: Progress, start: World, tasks: seq<Task>, k: nat)
    requires Good(p, start, tasks, Branches) && k < |tasks| && forall j :: 0 <= j < k ==> tasks[j].id in p.m.branches
    ensures var q := BranchStep(p, tasks[k]);
            Good(q, start, tasks, Branches) && (q.alive ==> forall j :: 0 <= j < k + 1 ==> tasks[j].id in q.m.branches)
  {
    PhaseSound(p, start, tasks);
    BranchStepSound(p, tasks[k]);
    BranchStepGrows(p, tasks[k]);
    PhaseCarry(p, BranchStep(p, tasks[k]), start, tasks);
  }

  lemma PhasePush(p: Progress, start: World, tasks: seq<Task>)
    requires Good(p, start, tasks, Branches) && p.alive && forall j :: 0 <= j < |tasks| ==> tasks[j].id in p.m.branches
    ensures forall t :: t in tasks ==> t.id in p.m.branches
    ensures var q := PushStep(p, tasks);
            Good(q, start, tasks, Branches) && (q.alive ==> Good(q, start, tasks, Pulls(PullListing(q.w.pulls))))
  {
    PhaseValue(p, start, tasks, Branches);
    PushKeeps(p, tasks);
    var q := PushStep(p, tasks);
    PhaseValue(q, start, tasks, Branches);
    var existing := PullListing(q.w.pulls);
    PullListingCovers(q, existing, tasks);
    PhaseValue(q, start, tasks, Pulls(existing));
  }

  lemma PullsCarry(p: Progress, q: Progress, start: World, tasks: seq<Task>, existing: map<string, nat>)
    requires Good(p, start, tasks, Pulls(existing)) && Sound(q) && Grows(p.w, q.w) && PullsCovered(q, existing, tasks)
    requires LinksRight(q.w, tasks)
    requires q.w.issues == p.w.issues && q.m.issues == p.m.issues && q.m.branches == p.m.branches
    ensures Good(q, start, tasks, Pulls(existing))
  {
    PhaseValue(p, start, tasks, Pulls(existing));
    PhaseValue(q, start, tasks, Pulls(existing));
  }

  lemma PullsReady(p: Progress, start: World, tasks: seq<Task>, existing: map<string, nat>, t: Task)
    requires Good(p, start, tasks, Pulls(existing)) && t in tasks
    ensures t.id in p.m.branches && t.id in p.m.issues
    ensures Sound(p) && PullsCovered(p, existing, tasks) && AllRecognised(tasks) && LinksRight(p.w, tasks)
  {
    PhaseValue(p, start, tasks, Pulls(existing));
  }

  lemma PhasePull(p: Progress, start: World, tasks: seq<Task>, existing: map<string, nat>, k: nat)
    requires Good(p, start, tasks, Pulls(existing)) && k < |tasks| && forall j :: 0 <= j < k ==> tasks[j].id in p.m.pulls
    ensures tasks[k].id in p.m.branches && tasks[k].id in p.m.issues
    ensures var q := PullStep(p, existing, tasks[k]);
            Good(q, start, tasks, Pulls(existing)) && (q.alive ==> forall j :: 0 <= j < k + 1 ==> tasks[j].id in q.m.pulls)
  {
    var t := tasks[k];
    PullsReady(p, start, tasks, existing, t);
    PullStepSound(p, existing, tasks, t);
    PullStepLinks(p, existing, tasks, t);
    PullStepGrows(p, existing, t);
    PullsCarry(p, PullStep(p, existing, t), start, tasks, existing);
  }

  lemma PhaseComplete(p: Progress, start: World, tasks: seq<Task>, existing: map<string, nat>)
    requires Good(p, start, tasks, Pulls(existing)) && forall j :: 0 <= j < |tasks| ==> tasks[j].id in p.m.pulls
    ensures Complete(p.w, tasks)
  {
    PhaseValue(p, start, tasks, Pulls(existing));
    CompleteWhenRecorded(p, tasks);
  }

  lemma PhaseStart(w: World, m: Manifest, budget: nat, tasks: seq<Task>)
    requires ParentsFirst(tasks) && AllRecognised(tasks) && Consistent(w) && LinksRight(w, tasks) && Recorded(w, m)
    ensures Good(Progress(w, m, budget, true), w, tasks, Issues(IssueListing(w.issues)))
  {
    var p := Progress(w, m, budget, true);
    ListingCovers(p, IssueListing(w.issues));
    PhaseValue(p, w, tasks, Issues(IssueListing(w.issues)));
  }

  /** A complete listing covers the issues, because every issue is recognised. */
  lemma ListingCovers(p: Progress, existing: map<string, nat>)
    requires Consistent(p.w) && existing == IssueListing(p.w.issues)
    ensures Covered(p, existing)
  {
    IssueListingExact(p.w.issues);
  }

  lemma PullListingCovers(p: Progress, existing: map<string, nat>, tasks: seq<Task>)
    requires existing == PullListing(p.w.pulls)
    ensures PullsCovered(p, existing, tasks)
  {
    PullListingExact(p.w.pulls);
  }

  lemma PushKeeps(p: Progress, tasks: seq<Task>)
    requires Sound(p) && LinksRight(p.w, tasks) && p.alive && forall t :: t in tasks ==> t.id in p.m.branches
    ensures var q := PushStep(p, tasks);
            && Sound(q) && LinksRight(q.w, tasks) && q.m == p.m
            && (q.alive ==> forall t :: t in tasks ==> p.m.branches[t.id] in q.w.pushed)
  {
    var q := PushStep(p, tasks);
    RecordedGrows(p.w, q.w, p.m);
    if q.w.manifest.Some? {
      RecordedGrows(p.w, q.w, q.w.manifest.value);
    }
    LinksKept(p.w, q.w, tasks);
  }

  lemma CompleteWhenRecorded(p: Progress, tasks: seq<Task>)
    requires Sound(p)
    requires forall t :: t in tasks ==> t.id in p.m.issues && t.id in p.m.branches && t.id in p.m.pulls
    requires forall t :: t in tasks ==> p.m.branches[t.id] in p.w.pushed
    ensures Complete(p.w, tasks)
  {
    forall t | t in tasks
      ensures exists n :: HasIssue(p.w, t.id, n)
      ensures exists n :: HasPull(p.w, BranchName(t.id), n)
    {
      assert HasIssue(p.w, t.id, p.m.issues[t.id]);
      assert HasPull(p.w, BranchName(t.id), p.m.pulls[t.id]);
    }
  }
}
