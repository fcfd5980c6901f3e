/**
 Dependency graphs: paths, cycles and reachability, and the order in which a
 depth-first search finishes its nodes, which is what both searches of the
 repository are proved to build.
 */
module DependencyGraph {
  import opened Arith

  /** Each node with the list of the nodes it depends on. */
  type Graph = map<string, seq<string>>

  predicate Closed(g: Graph)
  {
    forall id :: id in g ==> forall dep :: dep in g[id] ==> dep in g
  }

  ghost predicate Edge(g: Graph, a: string, b: string)
  {
    a in g && b in g[a]
  }

  /** A walk along dependencies. */
  ghost predicate Path(g: Graph, p: seq<string>)
  {
    |p| >= 1 && forall i, j :: 0 <= i && j == i + 1 && j < |p| ==> Edge(g, p[i], p[j])
  }

  ghost predicate Cycle(g: Graph, p: seq<string>)
  {
    Path(g, p) && |p| >= 2 && p[0] == p[|p| - 1]
  }

  ghost predicate Acyclic(g: Graph)
  {
    forall p :: !Cycle(g, p)
  }

  /** b is a dependency of a, directly or through others. */
  ghost predicate Reaches(g: Graph, a: string, b: string)
  {
    exists p :: Path(g, p) && |p| >= 2 && p[0] == a && p[|p| - 1] == b
  }

  lemma EdgeReaches(g: Graph, a: string, b: string)
    requires Edge(g, a, b)
    ensures Reaches(g, a, b)
  {
    assert Path(g, [a, b]);
  }

  lemma StepReaches(g: Graph, a: string, b: string, c: string)
    requires Edge(g, a, b) && Reaches(g, b, c)
    ensures Reaches(g, a, c)
  {
    var p :| Path(g, p) && |p| >= 2 && p[0] == b && p[|p| - 1] == c;
    var q := [a] + p;
    forall i, j | 0 <= i && j == i + 1 && j < |q|
      ensures Edge(g, q[i], q[j])
    {
      if i > 0 {
        assert Edge(g, p[i - 1], p[j - 1]);
      }
    }
    assert Path(g, q);
  }

  /** A dependency is direct or a dependency of a direct one. */
  lemma ReachesSplit(g: Graph, a: string, c: string) returns (b: string)
    requires Reaches(g, a, c)
    ensures Edge(g, a, b) && (b == c || Reaches(g, b, c))
  {
    var p :| Path(g, p) && |p| >= 2 && p[0] == a && p[|p| - 1] == c;
    b := p[1];
    assert Edge(g, p[0], p[1]);
    if |p| > 2 {
      var q := p[1..];
      forall i, j | 0 <= i && j == i + 1 && j < |q|
        ensures Edge(g, q[i], q[j])
      {
        assert Edge(g, p[i + 1], p[j + 1]);
      }
      assert Path(g, q);
    }
  }

  // ----------------------------------------------------------- finishing orders

  /** Every node comes after its dependencies, and none comes twice. */
  predicate Ordered(g: Graph, order: seq<string>)
  {
    && (forall i, j :: 0 <= i < j < |order| ==> order[i] != order[j])
    && (forall i :: 0 <= i < |order| ==> order[i] in g && forall dep :: dep in g[order[i]] ==> dep in order[..i])
  }

  /** Appending a node whose dependencies are finished. */
  lemma OrderedSnoc(g: Graph, order: seq<string>, id: string)
    requires Ordered(g, order) && id in g && id !in order
    requires forall dep :: dep in g[id] ==> dep in order
    ensures Ordered(g, order + [id])
  {
    var next := order + [id];
    forall i | 0 <= i < |next|
      ensures next[i] in g && forall dep :: dep in g[next[i]] ==> dep in next[..i]
    {
      assert next[..i] == order[..i];
      if i == |order| {
        assert order[..i] == order;
      }
    }
  }

  /** The position of a finished node. */
  function Position(order: seq<string>, id: string): (i: nat)
    requires id in order
    ensures i < |order| && order[i] == id
  {
    if order[0] == id then 0 else 1 + Position(order[1..], id)
  }

  lemma PositionUnique(g: Graph, order: seq<string>, i: nat)
    requires Ordered(g, order) && i < |order|
    ensures Position(order, order[i]) == i
  {
    var j := Position(order, order[i]);
    assert order[j] == order[i];
  }

  /** Dependencies were finished earlier. */
  lemma EdgeEarlier(g: Graph, order: seq<string>, a: string, b: string)
    requires Ordered(g, order) && a in order && Edge(g, a, b)
    ensures b in order && Position(order, b) < Position(order, a)
  {
    var i := Position(order, a);
    assert b in order[..i];
    var j :| 0 <= j < i && order[j] == b;
    PositionUnique(g, order, j);
  }

  /** Along a walk the positions strictly decrease. */
  lemma {:induction false} PathEarlier(g: Graph, order: seq<string>, p: seq<string>)
    requires Ordered(g, order) && Path(g, p) && p[0] in order
    ensures p[|p| - 1] in order
    ensures |p| >= 2 ==> Position(order, p[|p| - 1]) < Position(order, p[0])
    decreases |p|
  {
    if |p| >= 2 {
      var q := p[..|p| - 1];
      forall i, j | 0 <= i && j == i + 1 && j < |q|
        ensures Edge(g, q[i], q[j])
      {
        assert Edge(g, p[i], p[j]);
      }
      assert Path(g, q);
      PathEarlier(g, order, q);
      assert Edge(g, p[|p| - 2], p[|p| - 1]);
      EdgeEarlier(g, order, p[|p| - 2], p[|p| - 1]);
    }
  }

  /** A finishing order of every node rules out cycles. */
  lemma OrderedAcyclic(g: Graph, order: seq<string>)
    requires Ordered(g, order) && forall id :: id in g ==> id in order
    ensures Acyclic(g)
  {
    forall p
      ensures !Cycle(g, p)
    {
      if Cycle(g, p) {
        assert Edge(g, p[0], p[1]);
        PathEarlier(g, order, p);
      }
    }
  }

  // ------------------------------------------------------------- the search stack

  /** The nodes being visited, from the outermost to the innermost. */
  ghost predicate Stack(g: Graph, stack: seq<string>, visiting: set<string>)
  {
    && (forall id :: id in visiting <==> id in stack)
    && (forall i, j :: 0 <= i < j < |stack| ==> stack[i] != stack[j])
    && (forall i, j :: 0 <= i && j == i + 1 && j < |stack| ==> Edge(g, stack[i], stack[j]))
    && (forall i :: 0 <= i < |stack| ==> stack[i] in g)
  }

  /** The node about to be visited is a dependency of the innermost one. */
  ghost predicate Next(g: Graph, stack: seq<string>, id: string)
  {
    |stack| > 0 ==> Edge(g, stack[|stack| - 1], id)
  }

  lemma StackPush(g: Graph, stack: seq<string>, visiting: set<string>, id: string)
    requires Stack(g, stack, visiting) && Next(g, stack, id) && id in g && id !in visiting
    ensures Stack(g, stack + [id], visiting + {id})
  {
    var s := stack + [id];
    forall x
      ensures x in visiting + {id} <==> x in s
    {
      if x in s {
        var i :| 0 <= i < |s| && s[i] == x;
      }
      if x in visiting {
        var i :| 0 <= i < |stack| && stack[i] == x;
        assert s[i] == x;
      }
      if x == id {
        assert s[|stack|] == id;
      }
    }
  }

  /** Meeting a node that is being visited exhibits a cycle. */
  lemma StackCycle(g: Graph, stack: seq<string>, visiting: set<string>, id: string)
    requires Stack(g, stack, visiting) && Next(g, stack, id) && id in visiting
    ensures !Acyclic(g)
  {
    var i :| 0 <= i < |stack| && stack[i] == id;
    var p := stack[i..] + [id];
    forall k, l | 0 <= k && l == k + 1 && l < |p|
      ensures Edge(g, p[k], p[l])
    {
      if l < |p| - 1 {
        var a, b := i + k, i + l;
        assert p[k] == stack[a] && p[l] == stack[b] && b == a + 1;
        assert Edge(g, stack[a], stack[b]);
      } else {
        assert p[k] == stack[|stack| - 1] && p[l] == id;
      }
    }
    assert Path(g, p) && p[0] == id && p[|p| - 1] == id;
    assert Cycle(g, p);
  }

  // ------------------------------------------------------------ the search state

  ghost predicate SearchRule(g: Graph, order: seq<string>, done: set<string>, visiting: set<string>, stack: seq<string>)
  {
    && Ordered(g, order) && done !! visiting && visiting <= g.Keys && Stack(g, stack, visiting)
    && (forall id :: id in done <==> id in order)
  }

  ghost predicate IsSearch(g: Graph, order: seq<string>, done: set<string>, visiting: set<string>, stack: seq<string>, b: bool)
  {
    forall t {:trigger Unfold(t)} :: Unfold(t) ==> b == SearchRule(g, order, done, visiting, stack)
  }

  /**
   The state of a depth-first search: the finished nodes in finishing order, and the
   nodes being visited as a path; unfolded by the Search lemmas.
   */
  ghost predicate Searching(g: Graph, order: seq<string>, done: set<string>, visiting: set<string>, stack: seq<string>)
  {
    assert IsSearch(g, order, done, visiting, stack, SearchRule(g, order, done, visiting, stack));
    var b :| IsSearch(g, order, done, visiting, stack, b);
    b
  }

  lemma SearchStart(g: Graph)
    ensures Searching(g, [], {}, {}, [])
  {
    assert Unfold(0);
  }

  /** A node that is neither finished nor being visited can be entered. */
  lemma SearchEnter(g: Graph, order: seq<string>, done: set<string>, visiting: set<string>, stack: seq<string>, id: string)
    requires Searching(g, order, done, visiting, stack) && Next(g, stack, id) && id in g && id !in visiting && id !in done
    ensures Searching(g, order, done, visiting + {id}, stack + [id])
    ensures |g.Keys - (visiting + {id})| < |g.Keys - visiting|
  {
    assert Unfold(0);
    StackPush(g, stack, visiting, id);
    FewerOutside(g.Keys, visiting, id);
  }

  lemma FewerOutside(keys: set<string>, visiting: set<string>, id: string)
    requires id in keys && id !in visiting
    ensures |keys - (visiting + {id})| < |keys - visiting|
  {
    var rest := keys - (visiting + {id});
    assert keys - visiting == rest + {id};
  }

  /** A node whose dependencies are finished can be finished. */
  lemma SearchLeave(g: Graph, order: seq<string>, done: set<string>, visiting: set<string>, stack: seq<string>, id: string)
    requires id !in visiting && Searching(g, order, done, visiting + {id}, stack + [id]) && Searching(g, [], {}, visiting, stack)
    requires id in g && forall dep :: dep in g[id] ==> dep in done
    ensures Searching(g, order + [id], done + {id}, visiting, stack)
  {
    assert Unfold(0);
    OrderedSnoc(g, order, id);
  }

  lemma SearchStack(g: Graph, order: seq<string>, done: set<string>, visiting: set<string>, stack: seq<string>)
    requires Searching(g, order, done, visiting, stack)
    ensures Searching(g, [], {}, visiting, stack)
  {
    assert Unfold(0);
  }

  lemma SearchCycle(g: Graph, order: seq<string>, done: set<string>, visiting: set<string>, stack: seq<string>, id: string)
    requires Searching(g, order, done, visiting, stack) && Next(g, stack, id) && id in visiting
    ensures !Acyclic(g)
  {
    assert Unfold(0);
    StackCycle(g, stack, visiting, id);
  }

  lemma SearchEnds(g: Graph, order: seq<string>, done: set<string>, visiting: set<string>, stack: seq<string>)
    requires Searching(g, order, done, visiting, stack)
    ensures Ordered(g, order) && forall id :: id in done <==> id in order
  {
    assert Unfold(0);
  }
}
