/**
 Resumable publication of the execution backlog: the topological order of the cards,
 and the run that creates one issue, one branch and one pull request per card. A run
 may stop before any of its actions, and the local manifest may be lost in between;
 `fuel` is the number of actions a run performs before it stops.
 */
module Publication {
  import opened Arith
  import opened DependencyGraph
  import opened Wrappers

  datatype Task = Task(id: string, dependsOn: seq<string>)

  // -------------------------------------------------------------- topological order

  predicate DistinctIds(tasks: seq<Task>)
  {
    forall i, j :: 0 <= i < j < |tasks| ==> tasks[i].id != tasks[j].id
  }

  function Table(tasks: seq<Task>): map<string, Task>
  {
    if |tasks| == 0 then map[] else Table(tasks[..|tasks| - 1])[tasks[|tasks| - 1].id := tasks[|tasks| - 1]]
  }

  function Dependencies(table: map<string, Task>): (g: Graph)
  {
    map id | id in table :: table[id].dependsOn
  }

  lemma {:induction false} TableEntries(tasks: seq<Task>)
    ensures forall i :: 0 <= i < |tasks| ==> tasks[i].id in Table(tasks)
    ensures DistinctIds(tasks) ==> forall i :: 0 <= i < |tasks| ==> Table(tasks)[tasks[i].id] == tasks[i]
    ensures forall id :: id in Table(tasks) ==> Table(tasks)[id].id == id && Table(tasks)[id] in tasks
  {
    if |tasks| > 0 {
      var last := |tasks| - 1;
      var rest, t := tasks[..last], tasks[last];
      TableEntries(rest);
      assert Table(tasks) == Table(rest)[t.id := t];
      forall i | 0 <= i < |tasks|
        ensures tasks[i].id in Table(tasks)
        ensures DistinctIds(tasks) ==> Table(tasks)[tasks[i].id] == tasks[i]
      {
        if i < last {
          assert rest[i] == tasks[i];
          assert DistinctIds(tasks) ==> DistinctIds(rest) && tasks[i].id != t.id;
        }
      }
      assert forall u :: u in rest ==> u in tasks;
    }
  }

  /** len(table) != len(tasks) detects duplicates. */
  lemma {:induction false} TableSize(tasks: seq<Task>)
    ensures |Table(tasks)| <= |tasks| && (|Table(tasks)| == |tasks| <==> DistinctIds(tasks))
  {
    if |tasks| > 0 {
      var last := |tasks| - 1;
      var rest, t := tasks[..last], tasks[last];
      TableSize(rest);
      TableEntries(rest);
      DistinctSnoc(tasks);
      if t.id in Table(rest) {
        assert Table(tasks).Keys == Table(rest).Keys;
      } else {
        assert Table(tasks).Keys == Table(rest).Keys + {t.id};
      }
      TableCount(tasks);
      TableCount(rest);
    }
  }

  lemma TableCount(tasks: seq<Task>)
    ensures |Table(tasks)| == |Table(tasks).Keys|
  {
  }

  lemma DistinctSnoc(tasks: seq<Task>)
    requires |tasks| > 0
    ensures DistinctIds(tasks) <==> DistinctIds(tasks[..|tasks| - 1]) && tasks[|tasks| - 1].id !in Table(tasks[..|tasks| - 1])
  {
    var last := |tasks| - 1;
    var rest, id := tasks[..last], tasks[last].id;
    TableKey(rest, id);
    assert forall i :: 0 <= i < last ==> rest[i] == tasks[i];
  }

  lemma TableKey(tasks: seq<Task>, id: string)
    ensures id in Table(tasks) <==> exists i :: 0 <= i < |tasks| && tasks[i].id == id
  {
    TableEntries(tasks);
    if id in Table(tasks) {
      var i :| 0 <= i < |tasks| && tasks[i] == Table(tasks)[id];
    }
  }

  function Ids(tasks: seq<Task>): (ids: seq<string>)
    ensures |ids| == |tasks|
  {
    seq(|tasks|, i requires 0 <= i < |tasks| => tasks[i].id)
  }

  ghost predicate SorterRule(table: map<string, Task>, g: Graph, ordered: seq<Task>)
  {
    && g.Keys == table.Keys && (forall id :: id in table ==> table[id].id == id && g[id] == table[id].dependsOn)
    && (forall t :: t in ordered ==> t.id in table && table[t.id] == t)
  }

  ghost predicate IsSorter(table: map<string, Task>, g: Graph, ordered: seq<Task>, b: bool)
  {
    forall t {:trigger Unfold(t)} :: Unfold(t) ==> b == SorterRule(table, g, ordered)
  }

  /** The table gives the graph, and only its entries are appended; unfolded by the Sorted lemmas. */
  ghost predicate SorterTable(table: map<string, Task>, g: Graph, ordered: seq<Task>)
  {
    assert IsSorter(table, g, ordered, SorterRule(table, g, ordered));
    var b :| IsSorter(table, g, ordered, b);
    b
  }

  lemma SortedStart(table: map<string, Task>)
    requires forall id :: id in table ==> table[id].id == id
    ensures SorterTable(table, Dependencies(table), []) && Ids([]) == []
  {
    assert Unfold(0);
  }

  lemma SortedEntry(table: map<string, Task>, g: Graph, ordered: seq<Task>, id: string)
    requires SorterTable(table, g, ordered)
    ensures id in table <==> id in g
    ensures id in table ==> table[id].dependsOn == g[id]
  {
    assert Unfold(0);
  }

  lemma SortedAppend(table: map<string, Task>, g: Graph, ordered: seq<Task>, id: string)
    requires SorterTable(table, g, ordered) && id in table
    ensures SorterTable(table, g, ordered + [table[id]]) && Ids(ordered + [table[id]]) == Ids(ordered) + [id]
  {
    assert Unfold(0);
  }

  lemma SortedEnds(table: map<string, Task>, g: Graph, ordered: seq<Task>)
    requires SorterTable(table, g, ordered)
    ensures forall t :: t in ordered ==> t.id in table && table[t.id] == t
  {
    assert Unfold(0);
  }

  /** The three collections the nested visit of the publisher closes over, and the ghost search path. */
  class Sorter {
    const table: map<string, Task>
    ghost const g: Graph
    var ordered: seq<Task>
    var seen: set<string>
    var visiting: set<string>
    ghost var stack: seq<string>

    ghost predicate Valid()
      reads this
    {
      SorterTable(table, g, ordered) && Searching(g, Ids(ordered), seen, visiting, stack)
    }

    constructor (table: map<string, Task>)
      requires forall id :: id in table ==> table[id].id == id
      ensures Valid() && this.table == table && g == Dependencies(table) && seen == {} && stack == []
    {
      this.table := table;
      g := Dependencies(table);
      ordered := [];
      seen := {};
      visiting := {};
      stack := [];
      SortedStart(table);
      SearchStart(Dependencies(table));
    }

    /** Append the task after its dependencies; a missing entry or a cycle stops the search. */
    method Visit(id: string) returns (ok: bool)
      requires Valid() && Next(g, stack, id)
      modifies this
      ensures !ok ==> id !in table || !Closed(g) || !Acyclic(g)
      ensures ok ==> Valid() && visiting == old(visiting) && stack == old(stack) && old(seen) <= seen && id in seen
      decreases |g.Keys - visiting|, 0
    {
      if id in seen {
        return true;
      }
      if id in visiting {
        SearchCycle(g, Ids(ordered), seen, visiting, stack, id);
        return false;
      }
      SortedEntry(table, g, ordered, id);
      if id !in table {
        return false;
      }
      ghost var outer, above := visiting, stack;
      SearchStack(g, Ids(ordered), seen, visiting, stack);
      SearchEnter(g, Ids(ordered), seen, visiting, stack, id);
      visiting := visiting + {id};
      stack := stack + [id];
      ok := VisitParents(id);
      if ok {
        SearchLeave(g, Ids(ordered), seen, outer, above, id);
        SortedAppend(table, g, ordered, id);
        visiting := visiting - {id};
        assert visiting == outer;
        seen := seen + {id};
        ordered := ordered + [table[id]];
        stack := above;
      }
    }

    method VisitParents(id: string) returns (ok: bool)
      requires Valid() && id in table && id in g && |stack| > 0 && stack[|stack| - 1] == id
      modifies this
      ensures !ok ==> !Closed(g) || !Acyclic(g)
      ensures ok ==> Valid() && visiting == old(visiting) && stack == old(stack) && old(seen) <= seen
      ensures ok ==> forall parent :: parent in g[id] ==> parent in seen
      decreases |g.Keys - visiting|, 1
    {
      SortedEntry(table, g, ordered, id);
      var parents := table[id].dependsOn;
      for k := 0 to |parents|
        invariant Valid() && visiting == old(visiting) && stack == old(stack) && old(seen) <= seen
        invariant forall i :: 0 <= i < k ==> parents[i] in seen
      {
        assert Edge(g, id, parents[k]);
        SortedEntry(table, g, ordered, parents[k]);
        ok := Visit(parents[k]);
        if !ok {
          return;
        }
      }
      ok := true;
    }
  }

  ghost predicate Sortable(tasks: seq<Task>)
  {
    DistinctIds(tasks) && Closed(Dependencies(Table(tasks))) && Acyclic(Dependencies(Table(tasks)))
  }

  /**
   The order exists exactly for distinct cards with known parents and no cycle; it lists
   every card once, after all its parents.
   */
  method Topological(tasks: seq<Task>) returns (result: Result<seq<Task>>)
    ensures result.Ok? <==> Sortable(tasks)
    ensures result.Ok? ==> Ordered(Dependencies(Table(tasks)), Ids(result.value))
    ensures result.Ok? ==> forall t :: t in result.value <==> t in tasks
  {
    var table := Table(tasks);
    TableEntries(tasks);
    TableSize(tasks);
    if |table| != |tasks| {
      return Err;
    }
    var sorter := new Sorter(table);
    for i := 0 to |tasks|
      invariant sorter.Valid() && sorter.table == table && sorter.g == Dependencies(table) && sorter.stack == []
      invariant forall k :: 0 <= k < i ==> tasks[k].id in sorter.seen
    {
      var ok := sorter.Visit(tasks[i].id);
      if !ok {
        return Err;
      }
    }
    SortedEnds(table, sorter.g, sorter.ordered);
    SearchEnds(sorter.g, Ids(sorter.ordered), sorter.seen, sorter.visiting, sorter.stack);
    SortedAll(tasks, sorter.ordered);
    return Ok(sorter.ordered);
  }

  lemma SortedAll(tasks: seq<Task>, ordered: seq<Task>)
    requires DistinctIds(tasks) && Ordered(Dependencies(Table(tasks)), Ids(ordered))
    requires forall t :: t in ordered ==> t.id in Table(tasks) && Table(tasks)[t.id] == t
    requires forall k :: 0 <= k < |tasks| ==> tasks[k].id in Ids(ordered)
    ensures Sortable(tasks) && forall t :: t in ordered <==> t in tasks
  {
    var g := Dependencies(Table(tasks));
    AllListed(tasks, ordered);
    OrderedAcyclic(g, Ids(ordered));
    forall id, dep | id in g && dep in g[id]
      ensures dep in g
    {
      assert Edge(g, id, dep);
      EdgeEarlier(g, Ids(ordered), id, dep);
      var j :| 0 <= j < |ordered| && Ids(ordered)[j] == dep;
    }
  }

  /** The sorted list has exactly the cards, and an entry for every table key. */
  lemma AllListed(tasks: seq<Task>, ordered: seq<Task>)
    requires DistinctIds(tasks) && forall t :: t in ordered ==> t.id in Table(tasks) && Table(tasks)[t.id] == t
    requires forall k :: 0 <= k < |tasks| ==> tasks[k].id in Ids(ordered)
    ensures forall t :: t in ordered <==> t in tasks
    ensures forall id :: id in Table(tasks) ==> id in Ids(ordered)
  {
    TableEntries(tasks);
    forall t | t in tasks
      ensures t in ordered
    {
      var k :| 0 <= k < |tasks| && tasks[k] == t;
      assert tasks[k].id in Ids(ordered);
      var j :| 0 <= j < |ordered| && Ids(ordered)[j] == t.id;
      assert ordered[j] in ordered;
    }
    forall id | id in Table(tasks)
      ensures id in Ids(ordered)
    {
      var i :| 0 <= i < |tasks| && tasks[i] == Table(tasks)[id];
      assert tasks[i].id in Ids(ordered);
    }
  }

  // ----------------------------------------------------------------------- world

  /** A created issue carries the numbers its body links for the parents. */
  datatype Issue = Issue(id: string, number: nat, parents: seq<nat>)

  datatype Pull = Pull(branch: string, number: nat, issue: nat)

  datatype Manifest = Manifest(base: string, issues: map<string, nat>, branches: map<string, string>, pulls: map<string, nat>)

  /** The remote, the local refs and the manifest on disk. */
  datatype World = World(issues: seq<Issue>, pulls: seq<Pull>, refs: set<string>, pushed: set<string>,
                         manifest: Option<Manifest>, next: nat)

  predicate Digit(c: char)
  {
    '0' <= c <= '9'
  }

  /** The title pattern of the issue listing: one of eight letters and two digits. */
  predicate Recognised(id: string)
  {
    |id| == 3 && id[0] in "FSCRBHGV" && Digit(id[1]) && Digit(id[2])
  }

  function LowerChar(c: char): char
  {
    if 'A' <= c <= 'Z' then (c as int + 32) as char else c
  }

  function Lower(id: string): (r: string)
    ensures |r| == |id|
  {
    seq(|id|, i requires 0 <= i < |id| => LowerChar(id[i]))
  }

  function BranchName(id: string): string
  {
    "codex/execution-" + Lower(id)
  }

  lemma BranchInjective(a: string, b: string)
    requires Recognised(a) && Recognised(b) && BranchName(a) == BranchName(b)
    ensures a == b
  {
    assert BranchName(a)[16..] == Lower(a) && BranchName(b)[16..] == Lower(b);
    assert Lower(a)[0] == Lower(b)[0] && Lower(a)[1] == Lower(b)[1] && Lower(a)[2] == Lower(b)[2];
  }

  /** The existing issues by recognised id; the oldest row of an id is kept. */
  function IssueListing(issues: seq<Issue>): map<string, nat>
  {
    if |issues| == 0 then map[]
    else
      var last := issues[|issues| - 1];
      var rest := IssueListing(issues[..|issues| - 1]);
      if Recognised(last.id) && last.id !in rest then rest[last.id := last.number] else rest
  }

  function PullListing(pulls: seq<Pull>): map<string, nat>
  {
    if |pulls| == 0 then map[]
    else
      var last := pulls[|pulls| - 1];
      var rest := PullListing(pulls[..|pulls| - 1]);
      if last.branch !in rest then rest[last.branch := last.number] else rest
  }

  lemma {:induction false} IssueListingExact(issues: seq<Issue>)
    ensures forall id :: id in IssueListing(issues) ==> exists i :: 0 <= i < |issues| && issues[i].id == id && issues[i].number == IssueListing(issues)[id]
    ensures forall i :: 0 <= i < |issues| && Recognised(issues[i].id) ==> issues[i].id in IssueListing(issues)
    ensures forall id :: id in IssueListing(issues) ==> Recognised(id)
  {
    if |issues| > 0 {
      var last := |issues| - 1;
      var rest := issues[..last];
      IssueListingExact(rest);
      forall id | id in IssueListing(issues)
        ensures exists i :: 0 <= i < |issues| && issues[i].id == id && issues[i].number == IssueListing(issues)[id]
      {
        if id in IssueListing(rest) {
          var i :| 0 <= i < |rest| && rest[i].id == id && rest[i].number == IssueListing(rest)[id];
          assert issues[i] == rest[i];
        } else {
          assert issues[last].id == id;
        }
      }
      forall i | 0 <= i < |issues| && Recognised(issues[i].id)
        ensures issues[i].id in IssueListing(issues)
      {
        if i < last {
          assert rest[i] == issues[i];
        }
      }
    }
  }

  lemma {:induction false} PullListingExact(pulls: seq<Pull>)
    ensures forall b :: b in PullListing(pulls) ==> exists i :: 0 <= i < |pulls| && pulls[i].branch == b && pulls[i].number == PullListing(pulls)[b]
    ensures forall i :: 0 <= i < |pulls| ==> pulls[i].branch in PullListing(pulls)
  {
    if |pulls| > 0 {
      var last := |pulls| - 1;
      var rest := pulls[..last];
      PullListingExact(rest);
      forall b | b in PullListing(pulls)
        ensures exists i :: 0 <= i < |pulls| && pulls[i].branch == b && pulls[i].number == PullListing(pulls)[b]
      {
        if b in PullListing(rest) {
          var i :| 0 <= i < |rest| && rest[i].branch == b && rest[i].number == PullListing(rest)[b];
          assert pulls[i] == rest[i];
        } else {
          assert pulls[last].branch == b;
        }
      }
      forall i | 0 <= i < |pulls|
        ensures pulls[i].branch in PullListing(pulls)
      {
        if i < last {
          assert rest[i] == pulls[i];
        }
      }
    }
  }

  // --------------------------------------------------------------------- actions

  /** Where a run stands: the world, the manifest in memory, the actions left, and whether it is alive. */
  datatype Progress = Progress(w: World, m: Manifest, fuel: nat, alive: bool)

  function Save(w: World, m: Manifest): World
  {
    w.(manifest := Some(m))
  }

  /** The parents' numbers; every parent must be known. */
  function ParentNumbers(t: Task, issues: map<string, nat>): (r: seq<nat>)
    requires forall parent :: parent in t.dependsOn ==> parent in issues
    ensures |r| == |t.dependsOn|
  {
    seq(|t.dependsOn|, i requires 0 <= i < |t.dependsOn| => issues[t.dependsOn[i]])
  }

  predicate ParentsKnown(t: Task, issues: map<string, nat>)
  {
    forall parent :: parent in t.dependsOn ==> parent in issues
  }

  /** One card of the issue loop, stopping wherever the fuel runs out. */
  function IssueStep(p: Progress, existing: map<string, nat>, t: Task): Progress
    requires p.alive ==> ParentsKnown(t, p.m.issues)
  {
    if !p.alive || t.id in p.m.issues then p
    else if t.id in existing then
      SaveStep(p.(m := p.m.(issues := p.m.issues[t.id := existing[t.id]])))
    else if p.fuel == 0 then p.(alive := false)
    else
      var number := p.w.next;
      var issue := Issue(t.id, number, ParentNumbers(t, p.m.issues));
      SaveStep(Progress(p.w.(issues := p.w.issues + [issue], next := number + 1),
                        p.m.(issues := p.m.issues[t.id := number]), p.fuel - 1, true))
  }

  function SaveStep(p: Progress): Progress
  {
    if p.fuel == 0 then p.(alive := false) else Progress(Save(p.w, p.m), p.m, p.fuel - 1, p.alive)
  }

  function BranchStep(p: Progress, t: Task): Progress
  {
    if !p.alive || t.id in p.m.branches then p
    else if p.fuel == 0 then p.(alive := false)
    else
      var branch := BranchName(t.id);
      SaveStep(Progress(p.w.(refs := p.w.refs + {branch}), p.m.(branches := p.m.branches[t.id := branch]), p.fuel - 1, true))
  }

  function PullStep(p: Progress, existing: map<string, nat>, t: Task): Progress
    requires t.id in p.m.branches && t.id in p.m.issues
  {
    if !p.alive || t.id in p.m.pulls then p
    else
      var branch := p.m.branches[t.id];
      if branch in existing then
        SaveStep(p.(m := p.m.(pulls := p.m.pulls[t.id := existing[branch]])))
      else if p.fuel == 0 then p.(alive := false)
      else
        var number := p.w.next;
        SaveStep(Progress(p.w.(pulls := p.w.pulls + [Pull(branch, number, p.m.issues[t.id])], next := number + 1),
                          p.m.(pulls := p.m.pulls[t.id := number]), p.fuel - 1, true))
  }

  /** Pushing every task branch is one action. */
  function PushStep(p: Progress, tasks: seq<Task>): Progress
    requires forall t :: t in tasks ==> t.id in p.m.branches
  {
    if !p.alive then p
    else if p.fuel == 0 then p.(alive := false)
    else
      var names := set t | t in tasks :: p.m.branches[t.id];
      Progress(p.w.(pushed := p.w.pushed + names), p.m, p.fuel - 1, true)
  }

  // ------------------------------------------------------------------- invariants

  ghost predicate HasIssue(w: World, id: string, number: nat)
  {
    exists i :: 0 <= i < |w.issues| && w.issues[i].id == id && w.issues[i].number == number
  }

  ghost predicate HasPull(w: World, branch: string, number: nat)
  {
    exists i :: 0 <= i < |w.pulls| && w.pulls[i].branch == branch && w.pulls[i].number == number
  }

  predicate OneIssueEach(w: World)
  {
    forall i, j :: 0 <= i < j < |w.issues| ==> w.issues[i].id != w.issues[j].id
  }

  predicate OnePullEach(w: World)
  {
    forall i, j :: 0 <= i < j < |w.pulls| ==> w.pulls[i].branch != w.pulls[j].branch
  }

  /** Every issue belongs to a recognised card. */
  predicate OursOnly(w: World)
  {
    forall i :: 0 <= i < |w.issues| ==> Recognised(w.issues[i].id)
  }

  /** Everything the manifest records exists. */
  ghost predicate Recorded(w: World, m: Manifest)
  {
    && (forall id :: id in m.issues ==> HasIssue(w, id, m.issues[id]))
    && (forall id :: id in m.branches ==> m.branches[id] == BranchName(id) && m.branches[id] in w.refs)
    && (forall id :: id in m.pulls ==> HasPull(w, BranchName(id), m.pulls[id]))
  }

  ghost predicate Consistent(w: World)
  {
    && OneIssueEach(w) && OnePullEach(w) && OursOnly(w)
    && (w.manifest.Some? ==> Recorded(w, w.manifest.value))
  }

  /** An issue the run does not know from the manifest is in its listing. */
  ghost predicate Covered(p: Progress, existing: map<string, nat>)
  {
    && (forall i :: 0 <= i < |p.w.issues| ==> p.w.issues[i].id in p.m.issues || p.w.issues[i].id in existing)
    && (forall id :: id in existing ==> HasIssue(p.w, id, existing[id]))
  }

  ghost predicate Sound(p: Progress)
  {
    Consistent(p.w) && Recorded(p.w, p.m)
  }

  lemma SaveSound(p: Progress)
    requires Sound(p)
    ensures Sound(SaveStep(p)) && SaveStep(p).m == p.m && SaveStep(p).w.issues == p.w.issues && SaveStep(p).w.pulls == p.w.pulls
    ensures SaveStep(p).w.refs == p.w.refs
  {
    var s := SaveStep(p);
    assert forall id, n :: HasIssue(p.w, id, n) ==> HasIssue(s.w, id, n);
    assert forall b, n :: HasPull(p.w, b, n) ==> HasPull(s.w, b, n);
  }

  /** Adding facts to the world keeps what was recorded. */
  lemma RecordedGrows(w: World, v: World, m: Manifest)
    requires Recorded(w, m) && w.issues <= v.issues && w.pulls <= v.pulls && w.refs <= v.refs
    ensures Recorded(v, m)
  {
    forall id | id in m.issues
      ensures HasIssue(v, id, m.issues[id])
    {
      assert HasIssue(w, id, m.issues[id]);
      var i :| 0 <= i < |w.issues| && w.issues[i].id == id && w.issues[i].number == m.issues[id];
      assert v.issues[i] == w.issues[i];
    }
    forall id | id in m.pulls
      ensures HasPull(v, BranchName(id), m.pulls[id])
    {
      assert HasPull(w, BranchName(id), m.pulls[id]);
      var i :| 0 <= i < |w.pulls| && w.pulls[i].branch == BranchName(id) && w.pulls[i].number == m.pulls[id];
      assert v.pulls[i] == w.pulls[i];
    }
  }

  function CreatedIssue(p: Progress, t: Task): Progress
    requires ParentsKnown(t, p.m.issues) && p.fuel > 0
  {
    var number := p.w.next;
    Progress(p.w.(issues := p.w.issues + [Issue(t.id, number, ParentNumbers(t, p.m.issues))], next := number + 1),
             p.m.(issues := p.m.issues[t.id := number]), p.fuel - 1, true)
  }

  /** Creating an issue for a card that has none. */
  lemma CreateIssueSound(p: Progress, t: Task)
    requires Sound(p) && Recognised(t.id) && ParentsKnown(t, p.m.issues) && p.fuel > 0
    requires forall i :: 0 <= i < |p.w.issues| ==> p.w.issues[i].id != t.id
    ensures Sound(CreatedIssue(p, t))
  {
    var q := CreatedIssue(p, t);
    RecordedGrows(p.w, q.w, p.m);
    assert q.w.issues[|p.w.issues|].id == t.id;
    assert HasIssue(q.w, t.id, p.w.next);
    assert Recorded(q.w, q.m);
    if q.w.manifest.Some? {
      RecordedGrows(p.w, q.w, q.w.manifest.value);
    }
  }

  lemma CreateIssueCovered(p: Progress, existing: map<string, nat>, t: Task)
    requires Covered(p, existing) && ParentsKnown(t, p.m.issues) && p.fuel > 0
    ensures Covered(CreatedIssue(p, t), existing)
  {
    var q := CreatedIssue(p, t);
    forall id | id in existing
      ensures HasIssue(q.w, id, existing[id])
    {
      assert HasIssue(p.w, id, existing[id]);
      var i :| 0 <= i < |p.w.issues| && p.w.issues[i].id == id && p.w.issues[i].number == existing[id];
      assert q.w.issues[i] == p.w.issues[i];
    }
  }

  /** Adopting a listed issue. */
  lemma AdoptIssueSound(p: Progress, existing: map<string, nat>, id: string)
    requires Sound(p) && Covered(p, existing) && id in existing
    ensures var q := p.(m := p.m.(issues := p.m.issues[id := existing[id]])); Sound(q) && Covered(q, existing)
  {
    assert HasIssue(p.w, id, existing[id]);
  }

  /** One card of the issue loop keeps the invariants and, if the run survives, records the card. */
  lemma IssueStepSound(p: Progress, existing: map<string, nat>, t: Task)
    requires Sound(p) && Covered(p, existing) && Recognised(t.id) && (p.alive ==> ParentsKnown(t, p.m.issues))
    ensures var q := IssueStep(p, existing, t);
            && Sound(q) && Covered(q, existing) && q.w.pulls == p.w.pulls
            && p.m.issues.Keys <= q.m.issues.Keys
            && (q.alive ==> p.alive && t.id in q.m.issues)
  {
    if p.alive && t.id !in p.m.issues {
      if t.id in existing {
        AdoptIssueSound(p, existing, t.id);
        SaveKeeps(p.(m := p.m.(issues := p.m.issues[t.id := existing[t.id]])), existing);
      } else if p.fuel > 0 {
        CreateIssueSound(p, t);
        CreateIssueCovered(p, existing, t);
        SaveKeeps(CreatedIssue(p, t), existing);
      }
    }
  }

  lemma SaveKeeps(p: Progress, existing: map<string, nat>)
    requires Sound(p) && Covered(p, existing)
    ensures var q := SaveStep(p); Sound(q) && Covered(q, existing) && q.m == p.m && q.w.pulls == p.w.pulls && q.w.issues == p.w.issues
  {
    SaveSound(p);
    SaveCovered(p, existing);
  }

  lemma SaveCovered(p: Progress, existing: map<string, nat>)
    requires Covered(p, existing)
    ensures Covered(SaveStep(p), existing)
  {
    var s := SaveStep(p);
    assert s.w.issues == p.w.issues;
    assert forall id, n :: HasIssue(p.w, id, n) ==> HasIssue(s.w, id, n);
  }

  lemma BranchStepSound(p: Progress, t: Task)
    requires Sound(p)
    ensures var q := BranchStep(p, t);
            && Sound(q) && q.w.issues == p.w.issues && q.w.pulls == p.w.pulls && q.m.issues == p.m.issues
            && p.m.branches.Keys <= q.m.branches.Keys && (q.alive ==> p.alive && t.id in q.m.branches)
  {
    if p.alive && t.id !in p.m.branches && p.fuel > 0 {
      var branch := BranchName(t.id);
      var v, m := p.w.(refs := p.w.refs + {branch}), p.m.(branches := p.m.branches[t.id := branch]);
      RecordedGrows(p.w, v, p.m);
      if v.manifest.Some? {
        RecordedGrows(p.w, v, v.manifest.value);
      }
      assert Recorded(v, m);
      SaveSound(Progress(v, m, p.fuel - 1, true));
    }
  }

  /** A pull request the run does not know from the manifest is in its listing. */
  ghost predicate PullsCovered(p: Progress, existing: map<string, nat>, tasks: seq<Task>)
  {
    && (forall i :: 0 <= i < |p.w.pulls| ==> p.w.pulls[i].branch in existing || exists t :: t in tasks && t.id in p.m.pulls && BranchName(t.id) == p.w.pulls[i].branch)
    && (forall b :: b in existing ==> HasPull(p.w, b, existing[b]))
  }

  ghost predicate AllRecognised(tasks: seq<Task>)
  {
    && (forall t :: t in tasks ==> Recognised(t.id))
  }

  lemma PullStepSound(p: Progress, existing: map<string, nat>, tasks: seq<Task>, t: Task)
    requires Sound(p) && PullsCovered(p, existing, tasks) && t in tasks && AllRecognised(tasks)
    requires t.id in p.m.branches && t.id in p.m.issues
    ensures var q := PullStep(p, existing, t);
            && Sound(q) && PullsCovered(q, existing, tasks) && q.w.issues == p.w.issues
            && q.m.issues == p.m.issues && q.m.branches == p.m.branches
            && p.m.pulls.Keys <= q.m.pulls.Keys && (q.alive ==> p.alive && t.id in q.m.pulls)
  {
    if p.alive && t.id !in p.m.pulls {
      var branch := p.m.branches[t.id];
      assert branch == BranchName(t.id);
      if branch in existing {
        var m := p.m.(pulls := p.m.pulls[t.id := existing[branch]]);
        assert Recorded(p.w, m);
        SaveSound(p.(m := m));
        PullsKept(p, p.(m := m), existing, tasks);
        PullsSaved(p.(m := m), existing, tasks);
      } else if p.fuel > 0 {
        CreatePullSound(p, existing, tasks, t);
        var q := CreatedPull(p, t);
        SaveSound(q);
        PullsSaved(q, existing, tasks);
      }
    }
  }

  function CreatedPull(p: Progress, t: Task): Progress
    requires t.id in p.m.branches && t.id in p.m.issues && p.fuel > 0
  {
    var number := p.w.next;
    Progress(p.w.(pulls := p.w.pulls + [Pull(p.m.branches[t.id], number, p.m.issues[t.id])], next := number + 1),
             p.m.(pulls := p.m.pulls[t.id := number]), p.fuel - 1, true)
  }

  lemma CreatePullSound(p: Progress, existing: map<string, nat>, tasks: seq<Task>, t: Task)
    requires Sound(p) && PullsCovered(p, existing, tasks) && t in tasks && AllRecognised(tasks) && p.fuel > 0
    requires t.id in p.m.branches && t.id in p.m.issues && t.id !in p.m.pulls && p.m.branches[t.id] !in existing
    ensures Sound(CreatedPull(p, t)) && PullsCovered(CreatedPull(p, t), existing, tasks)
  {
    var q := CreatedPull(p, t);
    CreatedRecorded(p, t);
    NewBranch(p, existing, tasks, t);
    assert OnePullEach(q.w);
    CreatedCovered(p, existing, tasks, t);
  }

  /** The created pull request is recorded, and everything recorded stays so. */
  lemma CreatedRecorded(p: Progress, t: Task)
    requires Sound(p) && t.id in p.m.branches && t.id in p.m.issues && p.fuel > 0
    ensures var q := CreatedPull(p, t);
            Recorded(q.w, q.m) && (q.w.manifest.Some? ==> Recorded(q.w, q.w.manifest.value))
  {
    var q := CreatedPull(p, t);
    var branch, n := p.m.branches[t.id], |p.w.pulls|;
    RecordedGrows(p.w, q.w, p.m);
    assert q.w.pulls[n].branch == branch == BranchName(t.id);
    assert HasPull(q.w, branch, p.w.next);
    if q.w.manifest.Some? {
      RecordedGrows(p.w, q.w, q.w.manifest.value);
    }
  }

  /** No pull request of the card's branch exists yet. */
  lemma NewBranch(p: Progress, existing: map<string, nat>, tasks: seq<Task>, t: Task)
    requires Sound(p) && PullsCovered(p, existing, tasks) && t in tasks && AllRecognised(tasks)
    requires t.id in p.m.branches && t.id !in p.m.pulls && p.m.branches[t.id] !in existing
    ensures forall i :: 0 <= i < |p.w.pulls| ==> p.w.pulls[i].branch != p.m.branches[t.id]
  {
    forall i | 0 <= i < |p.w.pulls|
      ensures p.w.pulls[i].branch != p.m.branches[t.id]
    {
      if p.w.pulls[i].branch !in existing {
        var u :| u in tasks && u.id in p.m.pulls && BranchName(u.id) == p.w.pulls[i].branch;
        if BranchName(u.id) == p.m.branches[t.id] {
          BranchInjective(u.id, t.id);
        }
      }
    }
  }

  lemma CreatedCovered(p: Progress, existing: map<string, nat>, tasks: seq<Task>, t: Task)
    requires Sound(p) && PullsCovered(p, existing, tasks) && t in tasks && p.fuel > 0
    requires t.id in p.m.branches && t.id in p.m.issues
    ensures PullsCovered(CreatedPull(p, t), existing, tasks)
  {
    var q, n := CreatedPull(p, t), |p.w.pulls|;
    forall i | 0 <= i < |q.w.pulls|
      ensures q.w.pulls[i].branch in existing || exists u :: u in tasks && u.id in q.m.pulls && BranchName(u.id) == q.w.pulls[i].branch
    {
      if i < n {
        assert q.w.pulls[i] == p.w.pulls[i];
        if p.w.pulls[i].branch !in existing {
          var u :| u in tasks && u.id in p.m.pulls && BranchName(u.id) == p.w.pulls[i].branch;
          assert u.id in q.m.pulls;
        }
      } else {
        assert t.id in q.m.pulls;
      }
    }
    forall b | b in existing
      ensures HasPull(q.w, b, existing[b])
    {
      assert HasPull(p.w, b, existing[b]);
      var i :| 0 <= i < |p.w.pulls| && p.w.pulls[i].branch == b && p.w.pulls[i].number == existing[b];
      assert q.w.pulls[i] == p.w.pulls[i];
    }
  }

  lemma PullsKept(p: Progress, q: Progress, existing: map<string, nat>, tasks: seq<Task>)
    requires PullsCovered(p, existing, tasks) && q.w == p.w && p.m.pulls.Keys <= q.m.pulls.Keys
    ensures PullsCovered(q, existing, tasks)
  {
    forall i | 0 <= i < |q.w.pulls|
      ensures q.w.pulls[i].branch in existing || exists u :: u in tasks && u.id in q.m.pulls && BranchName(u.id) == q.w.pulls[i].branch
    {
      if q.w.pulls[i].branch !in existing {
        var u :| u in tasks && u.id in p.m.pulls && BranchName(u.id) == p.w.pulls[i].branch;
        assert u.id in q.m.pulls.Keys;
      }
    }
  }

  lemma PullsSaved(p: Progress, existing: map<string, nat>, tasks: seq<Task>)
    requires PullsCovered(p, existing, tasks)
    ensures PullsCovered(SaveStep(p), existing, tasks)
  {
    var s := SaveStep(p);
    assert forall b, n :: HasPull(p.w, b, n) ==> HasPull(s.w, b, n);
  }
}
