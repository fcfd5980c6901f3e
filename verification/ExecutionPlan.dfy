/**
 The execution plan: validation of the task graph by depth-first search, the ready
 queue over accepted tasks, and the upstream producers of task inputs.
 */
module ExecutionPlan {
  import opened DependencyGraph
  import opened Wrappers

  /** A task card; `complete` and `scoped` stand for its field and path checks. */
  datatype Task = Task(id: string, dependsOn: seq<string>, inputs: seq<string>, writeScope: seq<string>,
                       complete: bool, scoped: bool)

  /** [A-Z][0-9]{2} */
  predicate ValidId(id: string)
  {
    |id| == 3 && 'A' <= id[0] <= 'Z' && '0' <= id[1] <= '9' && '0' <= id[2] <= '9'
  }

  predicate DistinctIds(tasks: seq<Task>)
  {
    forall i, j :: 0 <= i < j < |tasks| ==> tasks[i].id != tasks[j].id
  }

  /** {t['id']: t['depends_on'] for t in tasks} */
  function Index(tasks: seq<Task>): (g: Graph)
  {
    if |tasks| == 0 then map[]
    else Index(tasks[..|tasks| - 1])[tasks[|tasks| - 1].id := tasks[|tasks| - 1].dependsOn]
  }

  lemma {:induction false} IndexEntries(tasks: seq<Task>)
    requires DistinctIds(tasks)
    ensures forall i :: 0 <= i < |tasks| ==> tasks[i].id in Index(tasks) && Index(tasks)[tasks[i].id] == tasks[i].dependsOn
    ensures forall id :: id in Index(tasks) ==> exists i :: 0 <= i < |tasks| && tasks[i].id == id
  {
    if |tasks| > 0 {
      var last := |tasks| - 1;
      var rest := tasks[..last];
      IndexEntries(rest);
      forall i | 0 <= i < |tasks|
        ensures tasks[i].id in Index(tasks) && Index(tasks)[tasks[i].id] == tasks[i].dependsOn
      {
        if i < last {
          assert rest[i] == tasks[i];
        }
      }
      forall id | id in Index(tasks)
        ensures exists i :: 0 <= i < |tasks| && tasks[i].id == id
      {
        if id != tasks[last].id {
          assert id in Index(rest);
          var i :| 0 <= i < |rest| && rest[i].id == id;
          assert tasks[i] == rest[i];
        }
      }
    }
  }

  /** Everything the validation asks of the cards besides the absence of cycles. */
  predicate WellFormed(tasks: seq<Task>)
  {
    && |tasks| > 0 && DistinctIds(tasks)
    && forall i :: 0 <= i < |tasks| ==> CardOk(tasks[i], Index(tasks))
  }

  predicate CardOk(t: Task, g: Graph)
  {
    ValidId(t.id) && t.complete && t.scoped && forall dep :: dep in t.dependsOn ==> dep in g
  }

  lemma WellFormedClosed(tasks: seq<Task>)
    requires WellFormed(tasks)
    ensures Closed(Index(tasks))
  {
    var g := Index(tasks);
    IndexEntries(tasks);
    forall id, dep | id in g && dep in g[id]
      ensures dep in g
    {
      var i :| 0 <= i < |tasks| && tasks[i].id == id;
      assert CardOk(tasks[i], g);
    }
  }

  // --------------------------------------------------------------- cycle search

  /**
   The two sets the nested visit closes over. `order` records when each node was done
   and `stack` the nodes being visited, innermost last.
   */
  class CycleSearch {
    const g: Graph
    var done: set<string>
    var visiting: set<string>
    ghost var order: seq<string>
    ghost var stack: seq<string>

    ghost predicate Valid()
      reads this
    {
      Closed(g) && Searching(g, order, done, visiting, stack)
    }

    constructor (g: Graph)
      requires Closed(g)
      ensures Valid() && this.g == g && done == {} && stack == []
    {
      this.g := g;
      done := {};
      visiting := {};
      order := [];
      stack := [];
      SearchStart(g);
    }

    /** Finish id after all its dependencies, or report a cycle that exists. */
    method Visit(id: string) returns (ok: bool)
      requires Valid() && id in g && Next(g, stack, id)
      modifies this
      ensures !ok ==> !Acyclic(g)
      ensures ok ==> Valid() && visiting == old(visiting) && stack == old(stack) && old(done) <= done && id in done
      decreases |g.Keys - visiting|, 0
    {
      if id in visiting {
        SearchCycle(g, order, done, visiting, stack, id);
        return false;
      }
      if id in done {
        return true;
      }
      ghost var outer, above := visiting, stack;
      SearchStack(g, order, done, visiting, stack);
      SearchEnter(g, order, done, visiting, stack, id);
      visiting := visiting + {id};
      stack := stack + [id];
      ok := VisitDependencies(id);
      if ok {
        SearchLeave(g, order, done, outer, above, id);
        visiting := visiting - {id};
        assert visiting == outer;
        done := done + {id};
        order := order + [id];
        stack := above;
      }
    }

    method VisitDependencies(id: string) returns (ok: bool)
      requires Valid() && id in g && |stack| > 0 && stack[|stack| - 1] == id
      modifies this
      ensures !ok ==> !Acyclic(g)
      ensures ok ==> Valid() && visiting == old(visiting) && stack == old(stack) && old(done) <= done
      ensures ok ==> forall dep :: dep in g[id] ==> dep in done
      decreases |g.Keys - visiting|, 1
    {
      for k := 0 to |g[id]|
        invariant Valid() && visiting == old(visiting) && stack == old(stack) && old(done) <= done
        invariant forall i :: 0 <= i < k ==> g[id][i] in done
      {
        assert Edge(g, id, g[id][k]);
        ok := Visit(g[id][k]);
        if !ok {
          return;
        }
      }
      ok := true;
    }
  }

  /**
   The validation accepts exactly the well-formed plans without a dependency cycle,
   and its finishing order witnesses the acyclicity.
   */
  method CheckGraph(tasks: seq<Task>) returns (result: Result<Graph>, ghost order: seq<string>)
    ensures result.Ok? <==> WellFormed(tasks) && Acyclic(Index(tasks))
    ensures result.Ok? ==> result.value == Index(tasks)
    ensures result.Ok? ==> Ordered(result.value, order) && forall id :: id in result.value <==> id in order
  {
    order := [];
    if !WellFormed(tasks) {
      return Err, order;
    }
    var g := Index(tasks);
    WellFormedClosed(tasks);
    IndexEntries(tasks);
    var search := new CycleSearch(g);
    for i := 0 to |tasks|
      invariant search.Valid() && search.g == g && search.stack == []
      invariant forall k :: 0 <= k < i ==> tasks[k].id in search.done
    {
      var ok := search.Visit(tasks[i].id);
      if !ok {
        return Err, order;
      }
    }
    order := search.order;
    SearchEnds(g, order, search.done, search.visiting, search.stack);
    forall id | id in g
      ensures id in order
    {
      var i :| 0 <= i < |tasks| && tasks[i].id == id;
      assert tasks[i].id in search.done;
    }
    OrderedAcyclic(g, order);
    return Ok(g), order;
  }

  // ---------------------------------------------------------------- ready queue

  /** Accepted tasks are known and every prerequisite of one is accepted. */
  predicate DownwardClosed(g: Graph, accepted: set<string>)
  {
    accepted <= g.Keys && forall id :: id in accepted ==> forall dep :: dep in g[id] ==> dep in accepted
  }

  predicate IsReady(g: Graph, accepted: set<string>, id: string)
  {
    id in g && id !in accepted && forall dep :: dep in g[id] ==> dep in accepted
  }

  function ReadyList(tasks: seq<Task>, accepted: set<string>): seq<string>
  {
    if |tasks| == 0 then []
    else
      var t := tasks[|tasks| - 1];
      ReadyList(tasks[..|tasks| - 1], accepted)
      + (if t.id !in accepted && (forall dep :: dep in t.dependsOn ==> dep in accepted) then [t.id] else [])
  }

  /** The ready tasks in plan order, or a refusal of the accepted set. */
  function ReadyTasks(tasks: seq<Task>, accepted: set<string>): Result<seq<string>>
  {
    if DownwardClosed(Index(tasks), accepted) then Ok(ReadyList(tasks, accepted)) else Err
  }

  lemma {:induction false} ReadyListMembers(tasks: seq<Task>, accepted: set<string>, id: string)
    requires DistinctIds(tasks)
    ensures id in ReadyList(tasks, accepted) <==> IsReady(Index(tasks), accepted, id)
  {
    if |tasks| > 0 {
      var last := |tasks| - 1;
      var rest, t := tasks[..last], tasks[last];
      ReadyListMembers(rest, accepted, id);
      IndexEntries(tasks);
      IndexEntries(rest);
      assert forall i :: 0 <= i < last ==> rest[i] == tasks[i] && tasks[i].id != t.id;
      assert t.id !in Index(rest);
    }
  }

  /** The task a stands before the task b in the plan. */
  ghost predicate Before(tasks: seq<Task>, a: string, b: string)
  {
    exists x, y :: 0 <= x < y < |tasks| && tasks[x].id == a && tasks[y].id == b
  }

  lemma BeforeGrows(tasks: seq<Task>, k: nat, a: string, b: string)
    requires k <= |tasks| && Before(tasks[..k], a, b)
    ensures Before(tasks, a, b)
  {
    var x, y :| 0 <= x < y < k && tasks[..k][x].id == a && tasks[..k][y].id == b;
    assert tasks[x].id == a && tasks[y].id == b;
  }

  lemma {:induction false} ReadyListFound(tasks: seq<Task>, accepted: set<string>, i: nat) returns (x: nat)
    requires i < |ReadyList(tasks, accepted)|
    ensures x < |tasks| && tasks[x].id == ReadyList(tasks, accepted)[i]
  {
    var last := |tasks| - 1;
    if i < |ReadyList(tasks[..last], accepted)| {
      x := ReadyListFound(tasks[..last], accepted, i);
    } else {
      x := last;
    }
  }

  /** The ready list keeps the order of the plan. */
  lemma {:induction false} ReadyListOrdered(tasks: seq<Task>, accepted: set<string>, i: nat, j: nat)
    requires i < j < |ReadyList(tasks, accepted)|
    ensures Before(tasks, ReadyList(tasks, accepted)[i], ReadyList(tasks, accepted)[j])
  {
    var last := |tasks| - 1;
    if j < |ReadyList(tasks[..last], accepted)| {
      ReadyListOrdered(tasks[..last], accepted, i, j);
      BeforeGrows(tasks, last, ReadyList(tasks, accepted)[i], ReadyList(tasks, accepted)[j]);
    } else {
      var x := ReadyListFound(tasks[..last], accepted, i);
      assert tasks[x].id == ReadyList(tasks, accepted)[i] && tasks[last].id == ReadyList(tasks, accepted)[j];
    }
  }

  /** The queue lists every ready task once, in the order of the plan. */
  lemma ReadyTasksOrdered(tasks: seq<Task>, accepted: set<string>)
    requires WellFormed(tasks) && ReadyTasks(tasks, accepted).Ok?
    ensures var list := ReadyTasks(tasks, accepted).value;
            forall i, j :: 0 <= i < j < |list| ==> list[i] != list[j] && Before(tasks, list[i], list[j])
  {
    var list := ReadyList(tasks, accepted);
    forall i, j | 0 <= i < j < |list|
      ensures list[i] != list[j] && Before(tasks, list[i], list[j])
    {
      ReadyListOrdered(tasks, accepted, i, j);
    }
  }

  /** An acceptance run: each task is ready when it is accepted. */
  ghost predicate Run(g: Graph, run: seq<string>, accepted: set<string>)
    decreases |run|
  {
    if |run| == 0 then accepted == {}
    else
      var id := run[|run| - 1];
      id in accepted && IsReady(g, accepted - {id}, id) && Run(g, run[..|run| - 1], accepted - {id})
  }

  ghost predicate Reachable(g: Graph, accepted: set<string>)
  {
    exists run :: Run(g, run, accepted)
  }

  /** Accepting a ready task keeps the accepted set admissible. */
  lemma AcceptKeeps(g: Graph, accepted: set<string>, id: string)
    requires DownwardClosed(g, accepted) && IsReady(g, accepted, id)
    ensures DownwardClosed(g, accepted + {id})
  {
  }

  /** Every state of every run is admissible, and its length counts the accepted tasks. */
  lemma {:induction false} RunAdmissible(g: Graph, run: seq<string>, accepted: set<string>)
    requires Run(g, run, accepted)
    ensures DownwardClosed(g, accepted) && |accepted| == |run| <= |g.Keys|
    decreases |run|
  {
    if |run| > 0 {
      var id := run[|run| - 1];
      RunAdmissible(g, run[..|run| - 1], accepted - {id});
      AcceptKeeps(g, accepted - {id}, id);
      assert accepted == (accepted - {id}) + {id};
    }
    SubsetSize(accepted, g.Keys);
  }

  lemma SubsetSize(a: set<string>, b: set<string>)
    requires a <= b
    ensures |a| <= |b|
  {
    assert b == a + (b - a);
  }

  /** Until every task of an acyclic plan is accepted, some task is ready. */
  lemma {:induction false} ReadyExists(g: Graph, order: seq<string>, accepted: set<string>, k: nat) returns (id: string)
    requires Ordered(g, order) && k < |order| && order[k] !in accepted
    ensures IsReady(g, accepted, id)
    decreases k
  {
    id := order[k];
    if dep :| dep in g[id] && dep !in accepted {
      assert dep in order[..k];
      var j :| 0 <= j < k && order[j] == dep;
      id := ReadyExists(g, order, accepted, j);
    }
  }

  lemma Progress(g: Graph, order: seq<string>, accepted: set<string>) returns (id: string)
    requires Ordered(g, order) && (forall x :: x in g <==> x in order)
    requires DownwardClosed(g, accepted) && accepted != g.Keys
    ensures IsReady(g, accepted, id)
  {
    var x :| x in g.Keys && x !in accepted;
    id := ReadyExists(g, order, accepted, Position(order, x));
  }

  /** The last accepted task in finishing order can have been accepted last. */
  lemma {:induction false} LastAccepted(g: Graph, order: seq<string>, accepted: set<string>, k: nat) returns (id: string)
    requires Ordered(g, order) && k <= |order| && DownwardClosed(g, accepted) && accepted != {}
    requires forall x :: x in accepted ==> x in order[..k]
    ensures id in accepted && forall x :: x in accepted && x in g ==> id !in g[x]
    decreases k
  {
    assert k > 0 by {
      var x :| x in accepted;
      assert x in order[..k];
    }
    if order[k - 1] in accepted {
      id := order[k - 1];
      forall x | x in accepted && x in g
        ensures id !in g[x]
      {
        var i :| 0 <= i < k && order[i] == x;
        assert forall j :: 0 <= j < i ==> order[j] != order[k - 1];
      }
    } else {
      forall x | x in accepted
        ensures x in order[..k - 1]
      {
        var i :| 0 <= i < k && order[i] == x;
        assert i != k - 1;
        assert order[..k - 1][i] == x;
      }
      id := LastAccepted(g, order, accepted, k - 1);
    }
  }

  /** In an acyclic plan the admissible sets are exactly the states that runs reach. */
  lemma {:induction false} AdmissibleReachable(g: Graph, order: seq<string>, accepted: set<string>) returns (run: seq<string>)
    requires Ordered(g, order) && (forall x :: x in g <==> x in order) && DownwardClosed(g, accepted)
    ensures Run(g, run, accepted)
    decreases |accepted|
  {
    if accepted == {} {
      run := [];
    } else {
      assert order[..|order|] == order;
      var id := LastAccepted(g, order, accepted, |order|);
      var rest := accepted - {id};
      assert DownwardClosed(g, rest);
      var before := AdmissibleReachable(g, order, rest);
      run := before + [id];
      assert run[..|run| - 1] == before;
    }
  }

  /** The queue answers exactly for the sets that acceptance runs reach. */
  lemma ReadyTasksReachable(tasks: seq<Task>, order: seq<string>, accepted: set<string>)
    requires WellFormed(tasks) && Ordered(Index(tasks), order) && forall x :: x in Index(tasks) <==> x in order
    ensures ReadyTasks(tasks, accepted).Ok? <==> Reachable(Index(tasks), accepted)
  {
    var g := Index(tasks);
    if DownwardClosed(g, accepted) {
      var run := AdmissibleReachable(g, order, accepted);
      assert Reachable(g, accepted);
    }
    forall run | Run(g, run, accepted)
      ensures DownwardClosed(g, accepted)
    {
      RunAdmissible(g, run, accepted);
    }
  }

  /** It lists exactly the ready tasks, and is empty only when every task has been accepted. */
  lemma ReadyTasksExact(tasks: seq<Task>, order: seq<string>, accepted: set<string>)
    requires WellFormed(tasks) && Ordered(Index(tasks), order) && forall x :: x in Index(tasks) <==> x in order
    requires DownwardClosed(Index(tasks), accepted)
    ensures ReadyTasks(tasks, accepted).Ok?
    ensures forall id :: id in ReadyTasks(tasks, accepted).value <==> IsReady(Index(tasks), accepted, id)
    ensures ReadyTasks(tasks, accepted).value == [] <==> accepted == Index(tasks).Keys
  {
    var g, list := Index(tasks), ReadyList(tasks, accepted);
    forall id
      ensures id in list <==> IsReady(g, accepted, id)
    {
      ReadyListMembers(tasks, accepted, id);
    }
    assert |list| > 0 ==> list[0] in list;
    if accepted != g.Keys {
      var id := Progress(g, order, accepted);
      assert id in list;
    }
  }

  // ----------------------------------------------------------- upstream producers

  /** The memo holds exact transitive dependencies. */
  ghost predicate Exact(g: Graph, id: string, ancestors: set<string>)
  {
    forall a :: a in ancestors <==> Reaches(g, id, a)
  }

  /** The closure of the direct dependencies and of the first k of them. */
  ghost predicate Collected(g: Graph, id: string, k: nat, result: set<string>)
    requires id in g && k <= |g[id]|
  {
    && (forall a :: a in result ==> Reaches(g, id, a))
    && (forall d :: d in g[id] ==> d in result)
    && (forall i, a :: 0 <= i < k && Reaches(g, g[id][i], a) ==> a in result)
  }

  lemma CollectDirect(g: Graph, id: string)
    requires id in g
    ensures Collected(g, id, 0, set d | d in g[id])
  {
    forall a | a in g[id]
      ensures Reaches(g, id, a)
    {
      EdgeReaches(g, id, a);
    }
  }

  lemma CollectStep(g: Graph, id: string, k: nat, result: set<string>, more: set<string>)
    requires id in g && k < |g[id]| && Collected(g, id, k, result) && Exact(g, g[id][k], more)
    ensures Collected(g, id, k + 1, result + more)
  {
    assert Edge(g, id, g[id][k]);
    forall a | a in more
      ensures Reaches(g, id, a)
    {
      StepReaches(g, id, g[id][k], a);
    }
  }

  lemma CollectAll(g: Graph, id: string, result: set<string>)
    requires id in g && Collected(g, id, |g[id]|, result)
    ensures Exact(g, id, result)
  {
    forall a | Reaches(g, id, a)
      ensures a in result
    {
      var b := ReachesSplit(g, id, a);
    }
  }

  class Upstream {
    const g: Graph
    ghost const order: seq<string>
    var ancestors: map<string, set<string>>

    ghost predicate Valid()
      reads this
    {
      && Ordered(g, order) && (forall x :: x in g <==> x in order)
      && forall id :: id in ancestors ==> id in g && Exact(g, id, ancestors[id])
    }

    constructor (g: Graph, ghost order: seq<string>)
      requires Ordered(g, order) && forall x :: x in g <==> x in order
      ensures Valid() && this.g == g
    {
      this.g := g;
      this.order := order;
      ancestors := map[];
    }

    /** deps | {a for dep in deps for a in upstream(dep)}: the transitive closure. */
    method Of(id: string) returns (result: set<string>)
      requires Valid() && id in g
      modifies this
      ensures Valid() && Exact(g, id, result)
      decreases Position(order, id)
    {
      if id in ancestors {
        return ancestors[id];
      }
      var deps := g[id];
      result := set d | d in deps;
      CollectDirect(g, id);
      for k := 0 to |deps|
        invariant Valid() && Collected(g, id, k, result)
      {
        assert Edge(g, id, deps[k]);
        EdgeEarlier(g, order, id, deps[k]);
        var more := Of(deps[k]);
        CollectStep(g, id, k, result, more);
        result := result + more;
      }
      CollectAll(g, id, result);
      ancestors := ancestors[id := result];
    }
  }

  /** The input is there, or some transitive dependency writes it. */
  ghost predicate Produced(tasks: seq<Task>, available: set<string>, t: Task, path: string)
  {
    path in available || exists k :: 0 <= k < |tasks| && Reaches(Index(tasks), t.id, tasks[k].id) && path in tasks[k].writeScope
  }

  /** {p for dep in upstream for p in index[dep]['write_scope']} */
  function Outputs(tasks: seq<Task>, upstream: set<string>): set<string>
  {
    set k, p | 0 <= k < |tasks| && tasks[k].id in upstream && p in tasks[k].writeScope :: p
  }

  lemma IndexKeys(tasks: seq<Task>)
    requires DistinctIds(tasks)
    ensures forall i :: 0 <= i < |tasks| ==> tasks[i].id in Index(tasks)
  {
    IndexEntries(tasks);
  }

  /**
   A future input must be produced by an upstream task, not any task: the check passes
   exactly when every input is available or produced by a transitive dependency.
   */
  method CheckInputs(tasks: seq<Task>, available: set<string>, ghost order: seq<string>) returns (ok: bool)
    requires WellFormed(tasks) && Ordered(Index(tasks), order) && forall x :: x in Index(tasks) <==> x in order
    ensures ok <==> forall i :: 0 <= i < |tasks| ==> Supplied(tasks, available, i)
  {
    var g := Index(tasks);
    IndexKeys(tasks);
    var memo := new Upstream(g, order);
    for i := 0 to |tasks|
      invariant memo.Valid() && memo.g == g
      invariant forall k :: 0 <= k < i ==> Supplied(tasks, available, k)
    {
      var upstream := memo.Of(tasks[i].id);
      var found := CheckTask(tasks, available, i, upstream);
      if !found {
        return false;
      }
    }
    return true;
  }

  /** Every input of task i is available or produced upstream of it. */
  ghost predicate Supplied(tasks: seq<Task>, available: set<string>, i: nat)
    requires i < |tasks|
  {
    forall p :: p in tasks[i].inputs ==> Produced(tasks, available, tasks[i], p)
  }

  method CheckTask(tasks: seq<Task>, available: set<string>, i: nat, upstream: set<string>) returns (ok: bool)
    requires i < |tasks| && Exact(Index(tasks), tasks[i].id, upstream)
    ensures ok <==> Supplied(tasks, available, i)
  {
    var t := tasks[i];
    var produced := Outputs(tasks, upstream);
    for j := 0 to |t.inputs|
      invariant forall m :: 0 <= m < j ==> Produced(tasks, available, t, t.inputs[m])
    {
      OutputsExact(tasks, available, t, upstream, t.inputs[j]);
      if t.inputs[j] !in available && t.inputs[j] !in produced {
        assert t.inputs[j] in t.inputs;
        return false;
      }
    }
    return true;
  }

  lemma OutputsExact(tasks: seq<Task>, available: set<string>, t: Task, upstream: set<string>, p: string)
    requires Exact(Index(tasks), t.id, upstream)
    ensures p in available || p in Outputs(tasks, upstream) <==> Produced(tasks, available, t, p)
  {
  }
}
