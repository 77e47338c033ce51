// The dependency graph of a workflow's jobs and the search for cycles in it: buildJobsDAG
// (pkg/parser/job_invocation.go), isValidDAG (pkg/parser/validate/cycles.go) and validateDAG
// (pkg/parser/validate/job_invocation.go).
//
// Go iterates over a map in an arbitrary order: such a loop takes its next key with `:|` here.

module JobGraph {
  import opened Common
  import opened Graphs

  function Degree(inDegree: map<Node, int>, n: Node): int {
    if n in inDegree then inDegree[n] else 0
  }

  /** The counters hold the number of edges from the nodes of u, listed in `keys` besides. */
  ghost predicate Counts(dag: Graph, inDegree: map<Node, int>, keys: set<Node>, edges: multiset<Node>) {
    && (forall n :: n in inDegree <==> n in keys || n in edges)
    && (forall n :: Degree(inDegree, n) == edges[n])
  }

  lemma CountsOneMore(dag: Graph, inDegree: map<Node, int>, keys: set<Node>, edges: multiset<Node>, child: Node)
    requires Counts(dag, inDegree, keys, edges)
    ensures Counts(dag, inDegree[child := Degree(inDegree, child) + 1], keys, edges + multiset{child})
  {
    var more := inDegree[child := Degree(inDegree, child) + 1];
    forall n
      ensures Degree(more, n) == (edges + multiset{child})[n]
    {
      assert n != child ==> Degree(more, n) == Degree(inDegree, n);
    }
  }

  method CountChildren(dag: Graph, ghost keys: set<Node>, before: map<Node, int>,
                       ghost edges: multiset<Node>, children: seq<Node>) returns (inDegree: map<Node, int>)
    requires Counts(dag, before, keys, edges)
    ensures Counts(dag, inDegree, keys, edges + multiset(children))
  {
    inDegree := before;
    for i := 0 to |children|
      invariant Counts(dag, inDegree, keys, edges + multiset(children[..i]))
    {
      var child := children[i];
      assert children[..i + 1] == children[..i] + [child];
      CountsOneMore(dag, inDegree, keys, edges + multiset(children[..i]), child);
      assert edges + multiset(children[..i + 1]) == edges + multiset(children[..i]) + multiset{child};
      inDegree := inDegree[child := Degree(inDegree, child) + 1];
    }
    assert children[..|children|] == children;
  }

  method ZeroCounters(dag: Graph) returns (inDegree: map<Node, int>)
    ensures Counts(dag, inDegree, dag.Keys, multiset{})
  {
    inDegree := map[];
    var keys := dag.Keys;
    while keys != {}
      invariant keys <= dag.Keys
      invariant inDegree.Keys == dag.Keys - keys
      invariant forall n :: n in inDegree ==> inDegree[n] == 0
    {
      var node :| node in keys;
      keys := keys - {node};
      inDegree := inDegree[node := 0];
    }
  }

  method CountNode(dag: Graph, before: map<Node, int>, ghost counted: set<Node>, node: Node)
    returns (inDegree: map<Node, int>)
    requires node in dag && node !in counted && Counts(dag, before, dag.Keys, Children(dag, counted))
    ensures Counts(dag, inDegree, dag.Keys, Children(dag, counted + {node}))
  {
    inDegree := CountChildren(dag, dag.Keys, before, Children(dag, counted), dag[node]);
    ChildrenRemove(dag, counted + {node}, node);
    assert counted + {node} - {node} == counted;
  }

  // Initialises a counter per node, then counts every edge.
  method CountInDegrees(dag: Graph) returns (inDegree: map<Node, int>)
    ensures Counts(dag, inDegree, dag.Keys, Children(dag, dag.Keys))
  {
    inDegree := ZeroCounters(dag);
    var keys := dag.Keys;
    assert dag.Keys - keys == {};
    while keys != {}
      invariant keys <= dag.Keys
      invariant Counts(dag, inDegree, dag.Keys, Children(dag, dag.Keys - keys))
    {
      var node :| node in keys;
      inDegree := CountNode(dag, inDegree, dag.Keys - keys, node);
      assert dag.Keys - keys + {node} == dag.Keys - (keys - {node});
      keys := keys - {node};
    }
    assert dag.Keys - keys == dag.Keys;
  }

  // ---------- Kahn's algorithm ----------

  /** The state between two rounds: u holds the unvisited nodes, order the visited ones. */
  ghost predicate KahnInv(dag: Graph, inDegree: map<Node, int>, u: set<Node>, queue: seq<Node>, order: seq<Node>) {
    && (forall n :: n in inDegree ==> inDegree[n] == Children(dag, u)[n])
    && u <= inDegree.Keys
    && (forall n :: n in inDegree && n !in u <==> n in order)
    && ReadyQueue(inDegree, u, queue)
    && Topological(dag, order) && Distinct(order)
  }

  ghost predicate NodeSet(dag: Graph, nodes: set<Node>) {
    forall n :: n in nodes <==> IsNode(dag, n)
  }

  /** The queue holds, once each, the unvisited nodes whose counter is zero. */
  ghost predicate ReadyQueue(inDegree: map<Node, int>, u: set<Node>, queue: seq<Node>) {
    && Distinct(queue)
    && (forall n :: n in queue ==> n in u)
    && (forall n :: n in u && n in inDegree ==> (inDegree[n] == 0 <==> n in queue))
  }

  /** The counters count the edges in `rest` and those to the children still to be released. */
  ghost predicate Releasable(children: seq<Node>, inDegree: map<Node, int>, queue: seq<Node>,
                             u: set<Node>, rest: multiset<Node>) {
    && (forall n :: n in children ==> n in inDegree && n in u)
    && (forall n :: n in inDegree ==> inDegree[n] == rest[n] + multiset(children)[n])
    && ReadyQueue(inDegree, u, queue)
  }

  // Removes the edges of a node that has just been visited.
  method Release(children: seq<Node>, before: map<Node, int>, waiting: seq<Node>,
                 ghost u: set<Node>, ghost rest: multiset<Node>)
    returns (inDegree: map<Node, int>, queue: seq<Node>)
    requires Releasable(children, before, waiting, u, rest)
    ensures inDegree.Keys == before.Keys
    ensures Releasable([], inDegree, queue, u, rest)
  {
    inDegree, queue := before, waiting;
    for i := 0 to |children|
      invariant inDegree.Keys == before.Keys
      invariant Releasable(children[i..], inDegree, queue, u, rest)
    {
      var child := children[i];
      assert children[i..] == [child] + children[i + 1..];
      ReleaseOne(child, children[i + 1..], inDegree, queue, u, rest);
      inDegree := inDegree[child := inDegree[child] - 1];
      if inDegree[child] == 0 {
        queue := queue + [child];
      }
    }
    assert children[|children|..] == [];
  }

  lemma ReleaseOne(child: Node, more: seq<Node>, inDegree: map<Node, int>, queue: seq<Node>,
                   u: set<Node>, rest: multiset<Node>)
    requires Releasable([child] + more, inDegree, queue, u, rest)
    ensures child in inDegree
    ensures var inDegree' := inDegree[child := inDegree[child] - 1];
            Releasable(more, inDegree', if inDegree'[child] == 0 then queue + [child] else queue, u, rest)
  {
    assert child in [child] + more;
    assert multiset([child] + more) == multiset{child} + multiset(more);
    assert forall n :: n in more ==> n in [child] + more;
  }

  // A node taken from the queue has only visited parents and only other, unvisited children.
  lemma ReadyNode(dag: Graph, inDegree: map<Node, int>, u: set<Node>, queue: seq<Node>, order: seq<Node>)
    requires NodeSet(dag, inDegree.Keys) && KahnInv(dag, inDegree, u, queue, order) && queue != []
    ensures var node := queue[0];
            && node in u
            && Topological(dag, order + [node]) && Distinct(order + [node])
            && Releasable(Succ(dag, node), inDegree, queue[1..], u - {node}, Children(dag, u - {node}))
  {
    var node := queue[0];
    RestIsReady(inDegree, u, queue);
    ChildrenRemove(dag, u, node);
    ReadyParents(dag, inDegree, u, queue, order);
    TopologicalAppend(dag, order, node);
    ReadyChildren(dag, inDegree, u, queue, order);
  }

  lemma ReadyParents(dag: Graph, inDegree: map<Node, int>, u: set<Node>, queue: seq<Node>, order: seq<Node>)
    requires NodeSet(dag, inDegree.Keys) && KahnInv(dag, inDegree, u, queue, order) && queue != []
    ensures forall a :: Edge(dag, a, queue[0]) ==> a in order
  {
    var node := queue[0];
    assert node in queue;
    ChildrenMember(dag, u, node);
    forall a | Edge(dag, a, node)
      ensures a in order
    {
      assert IsNode(dag, a);
    }
  }

  lemma ReadyChildren(dag: Graph, inDegree: map<Node, int>, u: set<Node>, queue: seq<Node>, order: seq<Node>)
    requires NodeSet(dag, inDegree.Keys) && KahnInv(dag, inDegree, u, queue, order) && queue != []
    ensures forall c :: c in Succ(dag, queue[0]) ==> c in u - {queue[0]} && c in inDegree
  {
    var node := queue[0];
    assert node in queue;
    forall c | c in Succ(dag, node)
      ensures c in u - {node} && c in inDegree
    {
      assert Edge(dag, node, c) && IsNode(dag, c);
      ChildrenMember(dag, u, c);
      ChildrenMember(dag, u, node);
    }
  }

  lemma TopologicalAppend(dag: Graph, order: seq<Node>, node: Node)
    requires Topological(dag, order)
    requires forall a :: Edge(dag, a, node) ==> a in order
    ensures Topological(dag, order + [node])
  {
    var order' := order + [node];
    forall k, a | 0 <= k < |order'| && Edge(dag, a, order'[k])
      ensures a in order'[..k]
    {
      if k < |order| {
        assert order'[..k] == order[..k];
      } else {
        assert order'[..k] == order;
      }
    }
  }

  // With the queue empty, every unvisited node still has an unvisited parent.
  lemma StuckIsBackwardClosed(dag: Graph, inDegree: map<Node, int>, u: set<Node>, order: seq<Node>)
    requires NodeSet(dag, inDegree.Keys) && KahnInv(dag, inDegree, u, [], order)
    ensures BackwardClosed(dag, u)
  {
    forall n | n in u
      ensures HasParentIn(dag, u, n)
    {
      assert n in inDegree && inDegree[n] != 0;
      ChildrenMember(dag, u, n);
    }
  }

  ghost predicate VisitedOutside(visited: map<Node, bool>, u: set<Node>) {
    forall n :: n in visited ==> (visited[n] <==> n !in u)
  }

  method InitialQueue(inDegree: map<Node, int>) returns (queue: seq<Node>)
    ensures ReadyQueue(inDegree, inDegree.Keys, queue)
  {
    queue := [];
    var keys := inDegree.Keys;
    while keys != {}
      invariant keys <= inDegree.Keys
      invariant ReadyQueue(inDegree, inDegree.Keys - keys, queue)
    {
      var node :| node in keys;
      keys := keys - {node};
      if inDegree[node] == 0 {
        queue := queue + [node];
      }
    }
    assert inDegree.Keys - keys == inDegree.Keys;
  }

  method NoneVisited(nodes: set<Node>) returns (visited: map<Node, bool>)
    ensures visited.Keys == nodes && forall n :: n in visited ==> !visited[n]
  {
    visited := map[];
    var keys := nodes;
    while keys != {}
      invariant keys <= nodes && visited.Keys == nodes - keys
      invariant forall n :: n in visited ==> !visited[n]
    {
      var node :| node in keys;
      keys := keys - {node};
      visited := visited[node := false];
    }
  }

  method Unvisited(visited: map<Node, bool>) returns (notVisited: seq<Node>)
    ensures forall n :: n in notVisited <==> n in visited && !visited[n]
    ensures Distinct(notVisited)
  {
    notVisited := [];
    var keys := visited.Keys;
    while keys != {}
      invariant keys <= visited.Keys
      invariant forall n :: n in notVisited <==> n in visited && n !in keys && !visited[n]
      invariant Distinct(notVisited)
    {
      var node :| node in keys;
      keys := keys - {node};
      if !visited[node] {
        notVisited := notVisited + [node];
      }
    }
  }

  // Visits the first node of the queue: its edges are released, freed children join the queue.
  method Visit(dag: Graph, before: map<Node, int>, queue: seq<Node>, ghost u: set<Node>, ghost order: seq<Node>)
    returns (inDegree: map<Node, int>, waiting: seq<Node>)
    requires NodeSet(dag, before.Keys) && KahnInv(dag, before, u, queue, order) && queue != []
    ensures inDegree.Keys == before.Keys
    ensures KahnInv(dag, inDegree, u - {queue[0]}, waiting, order + [queue[0]])
  {
    ReadyNode(dag, before, u, queue, order);
    ghost var u' := u - {queue[0]};
    inDegree, waiting := Release(Succ(dag, queue[0]), before, queue[1..], u', Children(dag, u'));
  }

  /** The state between two rounds, with the nodes marked as visited. */
  ghost predicate RoundInv(dag: Graph, nodes: set<Node>, visited: map<Node, bool>, inDegree: map<Node, int>,
                           u: set<Node>, queue: seq<Node>, order: seq<Node>) {
    && NodeSet(dag, nodes) && inDegree.Keys == visited.Keys == nodes
    && KahnInv(dag, inDegree, u, queue, order) && VisitedOutside(visited, u)
  }

  lemma HeadIsUnvisited(dag: Graph, nodes: set<Node>, visited: map<Node, bool>, inDegree: map<Node, int>,
                        u: set<Node>, queue: seq<Node>, order: seq<Node>)
    requires RoundInv(dag, nodes, visited, inDegree, u, queue, order) && queue != []
    ensures queue[0] in u && queue[0] in visited && !visited[queue[0]]
  {
    assert queue[0] in queue;
  }

  // One round; a node that was visited before would be skipped.
  method Round(dag: Graph, before: map<Node, bool>, degrees: map<Node, int>, ready: seq<Node>,
               ghost u: set<Node>, ghost order: seq<Node>)
    returns (visited: map<Node, bool>, inDegree: map<Node, int>, queue: seq<Node>)
    requires RoundInv(dag, before.Keys, before, degrees, u, ready, order) && ready != []
    ensures ready[0] in u
    ensures RoundInv(dag, before.Keys, visited, inDegree, u - {ready[0]}, queue, order + [ready[0]])
  {
    visited, inDegree, queue := before, degrees, ready[1..];
    HeadIsUnvisited(dag, before.Keys, before, degrees, u, ready, order);
    if !visited[ready[0]] {
      visited := visited[ready[0] := true];
      inDegree, queue := Visit(dag, inDegree, ready, u, order);
    }
  }

  method Traverse(dag: Graph, degrees: map<Node, int>, ready: seq<Node>, nobody: map<Node, bool>)
    returns (visited: map<Node, bool>, ghost inDegree: map<Node, int>, ghost u: set<Node>, ghost order: seq<Node>)
    requires RoundInv(dag, nobody.Keys, nobody, degrees, degrees.Keys, ready, [])
    ensures RoundInv(dag, degrees.Keys, visited, inDegree, u, [], order)
    ensures visited.Keys == degrees.Keys && VisitedOutside(visited, u)
  {
    visited, inDegree, u, order := nobody, degrees, degrees.Keys, [];
    var counters, queue := degrees, ready;
    while |queue| > 0
      invariant RoundInv(dag, nobody.Keys, visited, counters, u, queue, order)
      decreases u
    {
      ghost var node := queue[0];
      visited, counters, queue := Round(dag, visited, counters, queue, u, order);
      u, order := u - {node}, order + [node];
    }
    inDegree := counters;
  }

  /** Kahn exactness: for every graph, self-loops and duplicate edges included, and whatever order
      the maps are iterated in, the nodes returned are exactly those reachable from some cycle; the
      others have been visited once each, parents first. */
  method IsValidDAG(dag: Graph) returns (notVisited: seq<Node>, ghost order: seq<Node>)
    ensures forall n :: n in notVisited <==> Downstream(dag, n)
    ensures Distinct(notVisited)
    ensures Topological(dag, order) && Distinct(order)
    ensures forall n :: n in order <==> IsNode(dag, n) && n !in notVisited
  {
    var inDegree := CountInDegrees(dag);
    var queue := InitialQueue(inDegree);
    var visited := NoneVisited(inDegree.Keys);
    KahnStart(dag, inDegree, queue);
    ghost var counters: map<Node, int>, u: set<Node>;
    visited, counters, u, order := Traverse(dag, inDegree, queue, visited);
    notVisited := Unvisited(visited);
    KahnEnds(dag, counters, u, order, visited, notVisited);
  }

  lemma KahnEnds(dag: Graph, inDegree: map<Node, int>, u: set<Node>, order: seq<Node>,
                 visited: map<Node, bool>, notVisited: seq<Node>)
    requires NodeSet(dag, inDegree.Keys) && KahnInv(dag, inDegree, u, [], order)
    requires visited.Keys == inDegree.Keys && VisitedOutside(visited, u)
    requires forall n :: n in notVisited <==> n in visited && !visited[n]
    ensures forall n :: n in notVisited <==> Downstream(dag, n)
    ensures forall n :: n in order <==> IsNode(dag, n) && n !in notVisited
  {
    StuckIsBackwardClosed(dag, inDegree, u, order);
    forall n
      ensures n in notVisited <==> Downstream(dag, n)
    {
      UnvisitedExactly(dag, inDegree, u, order, n);
    }
  }

  lemma CountedNodes(dag: Graph, inDegree: map<Node, int>)
    requires Counts(dag, inDegree, dag.Keys, Children(dag, dag.Keys))
    ensures NodeSet(dag, inDegree.Keys)
  {
    forall n
      ensures n in inDegree.Keys <==> IsNode(dag, n)
    {
      ChildrenMember(dag, dag.Keys, n);
      assert n !in dag && IsNode(dag, n) ==> HasParentIn(dag, dag.Keys, n);
    }
  }

  lemma CountsAtStart(dag: Graph, inDegree: map<Node, int>)
    requires Counts(dag, inDegree, dag.Keys, Children(dag, dag.Keys))
    ensures forall n :: n in inDegree ==> inDegree[n] == Children(dag, inDegree.Keys)[n]
  {
    AllChildren(dag, inDegree.Keys);
    assert forall n :: n in inDegree ==> inDegree[n] == Degree(inDegree, n);
  }

  lemma KahnStart(dag: Graph, inDegree: map<Node, int>, queue: seq<Node>)
    requires Counts(dag, inDegree, dag.Keys, Children(dag, dag.Keys))
    requires ReadyQueue(inDegree, inDegree.Keys, queue)
    ensures NodeSet(dag, inDegree.Keys) && KahnInv(dag, inDegree, inDegree.Keys, queue, [])
  {
    CountedNodes(dag, inDegree);
    CountsAtStart(dag, inDegree);
  }

  lemma RestIsReady(inDegree: map<Node, int>, u: set<Node>, queue: seq<Node>)
    requires ReadyQueue(inDegree, u, queue) && queue != []
    ensures ReadyQueue(inDegree, u - {queue[0]}, queue[1..]) && queue[0] in u
  {
    assert queue == [queue[0]] + queue[1..];
    assert queue[0] in queue;
  }

  // Nodes without children of their own add no edges.
  lemma AllChildren(dag: Graph, u: set<Node>)
    requires dag.Keys <= u
    ensures Children(dag, u) == Children(dag, dag.Keys)
    decreases u
  {
    if u <= dag.Keys {
      assert u == dag.Keys;
    } else {
      var n :| n in u && n !in dag;
      ChildrenRemove(dag, u, n);
      AllChildren(dag, u - {n});
    }
  }

  lemma UnvisitedExactly(dag: Graph, inDegree: map<Node, int>, u: set<Node>, order: seq<Node>, n: Node)
    requires NodeSet(dag, inDegree.Keys) && KahnInv(dag, inDegree, u, [], order) && BackwardClosed(dag, u)
    ensures n in u <==> Downstream(dag, n)
  {
    if n in u {
      BackwardClosedIsDownstream(dag, u, n);
    } else if Downstream(dag, n) {
      DownstreamIsNode(dag, n);
      TopologicalNotDownstream(dag, order, n);
    }
  }

  lemma DownstreamIsNode(dag: Graph, n: Node)
    requires Downstream(dag, n)
    ensures IsNode(dag, n)
  {
    var c :| OnCycle(dag, c) && Reaches(dag, c, n);
    var q :| CycleThrough(dag, q, c);
    assert Edge(dag, q[0], q[1]);
    var p :| Connects(dag, p, c, n);
    if |p| > 1 {
      assert Edge(dag, p[|p| - 2], p[|p| - 2 + 1]);
    }
  }

  // ---------- building the graph ----------

  datatype JobInvocation = JobInvocation(
    jobName: string, stepName: string, requirements: seq<string>, jobNameRange: Range)

  /** The step `step`, once for every time `name` is listed. */
  function Times(requirements: seq<string>, name: string, step: string): seq<Node> {
    if requirements == [] then []
    else Times(requirements[..|requirements| - 1], name, step)
         + if requirements[|requirements| - 1] == name then [step] else []
  }

  /** The steps that require `name`, in order, as often as they list it. */
  function Dependents(invocations: seq<JobInvocation>, name: string): seq<Node> {
    if invocations == [] then []
    else
      var last := invocations[|invocations| - 1];
      Dependents(invocations[..|invocations| - 1], name) + Times(last.requirements, name, last.stepName)
  }

  /** The graph of the invocations, and nothing else in it. */
  ghost predicate IsJobsDAG(invocations: seq<JobInvocation>, dag: Graph) {
    forall name :: Succ(dag, name) == Dependents(invocations, name)
                   && (name in dag <==> Dependents(invocations, name) != [])
  }

  // IsJobsDAG for the invocations before, plus the first requirements of the step at hand.
  ghost predicate PartialDAG(before: seq<JobInvocation>, requirements: seq<string>, step: string, dag: Graph) {
    && (forall name :: Succ(dag, name) == Dependents(before, name) + Times(requirements, name, step))
    && (forall name :: name in dag ==> Succ(dag, name) != [])
  }

  method AddRequirements(ghost before: seq<JobInvocation>, requirements: seq<string>, step: string, start: Graph)
    returns (dag: Graph)
    requires PartialDAG(before, [], step, start)
    ensures PartialDAG(before, requirements, step, dag)
  {
    dag := start;
    for r := 0 to |requirements|
      invariant PartialDAG(before, requirements[..r], step, dag)
    {
      assert requirements[..r + 1] == requirements[..r] + [requirements[r]];
      dag := AddOne(before, requirements[..r], requirements[r], step, dag);
    }
    assert requirements[..|requirements|] == requirements;
  }

  method AddOne(ghost before: seq<JobInvocation>, ghost requirements: seq<string>, requirement: string,
                step: string, dag: Graph) returns (dag': Graph)
    requires PartialDAG(before, requirements, step, dag)
    ensures PartialDAG(before, requirements + [requirement], step, dag')
  {
    dag' := dag[requirement := Succ(dag, requirement) + [step]];
    forall name
      ensures Succ(dag', name) == Dependents(before, name) + Times(requirements + [requirement], name, step)
    {
      AddedSteps(dag, Dependents(before, name), requirements, requirement, name, step);
    }
  }

  lemma AddedSteps(dag: Graph, earlier: seq<Node>, requirements: seq<string>, requirement: string,
                   name: string, step: string)
    requires Succ(dag, name) == earlier + Times(requirements, name, step)
    ensures Succ(dag[requirement := Succ(dag, requirement) + [step]], name)
            == earlier + Times(requirements + [requirement], name, step)
  {
    TimesAppend(requirements, requirement, name, step);
    if name == requirement {
      Regroup(earlier, Times(requirements, name, step), [step]);
    }
  }

  lemma TimesAppend(requirements: seq<string>, requirement: string, name: string, step: string)
    ensures Times(requirements + [requirement], name, step)
            == if requirement == name then Times(requirements, name, step) + [step]
               else Times(requirements, name, step)
  {
    assert (requirements + [requirement])[..|requirements|] == requirements;
  }

  lemma Regroup(a: seq<Node>, b: seq<Node>, c: seq<Node>)
    ensures a + b + c == a + (b + c)
  {
  }

  method BuildJobsDAG(invocations: seq<JobInvocation>) returns (dag: Graph)
    ensures IsJobsDAG(invocations, dag)
  {
    dag := map[];
    for i := 0 to |invocations|
      invariant IsJobsDAG(invocations[..i], dag)
    {
      var requirements, step := invocations[i].requirements, invocations[i].stepName;
      dag := AddRequirements(invocations[..i], requirements, step, dag);
      NextInvocation(invocations, i, dag);
    }
    assert invocations[..|invocations|] == invocations;
  }

  lemma NextInvocation(invocations: seq<JobInvocation>, i: nat, dag: Graph)
    requires i < |invocations|
    requires PartialDAG(invocations[..i], invocations[i].requirements, invocations[i].stepName, dag)
    ensures IsJobsDAG(invocations[..i + 1], dag)
  {
    assert invocations[..i + 1][..i] == invocations[..i];
  }

  // ---------- the requires relation, read off the invocations ----------

  predicate Requires(invocations: seq<JobInvocation>, step: string, name: string) {
    exists i :: 0 <= i < |invocations|
                && invocations[i].stepName == step && name in invocations[i].requirements
  }

  /** p[0] is required by p[1], which is required by p[2], and so on back to p[0]. */
  ghost predicate RequiresCycle(invocations: seq<JobInvocation>, p: seq<string>) {
    && |p| > 1 && p[0] == p[|p| - 1]
    && forall k :: 0 <= k < |p| - 1 ==> Requires(invocations, p[k + 1], p[k])
  }

  ghost predicate Cyclic(invocations: seq<JobInvocation>) {
    exists p :: RequiresCycle(invocations, p)
  }

  /** q[0] is required by q[1], and so on, up to `name`. */
  ghost predicate RequiredFrom(invocations: seq<JobInvocation>, q: seq<string>, name: string) {
    && q != [] && q[|q| - 1] == name
    && forall k :: 0 <= k < |q| - 1 ==> Requires(invocations, q[k + 1], q[k])
  }

  ghost predicate FollowsCycle(invocations: seq<JobInvocation>, p: seq<string>, q: seq<string>, name: string) {
    RequiresCycle(invocations, p) && RequiredFrom(invocations, q, name) && p[0] == q[0]
  }

  /** A chain of requirements leads from a cycle of them to the name. */
  ghost predicate BehindCycle(invocations: seq<JobInvocation>, name: string) {
    exists p, q :: FollowsCycle(invocations, p, q, name)
  }

  lemma {:induction false} TimesMember(requirements: seq<string>, name: string, step: string, n: Node)
    ensures n in Times(requirements, name, step) <==> n == step && name in requirements
  {
    if requirements != [] {
      var shorter := requirements[..|requirements| - 1];
      TimesMember(shorter, name, step, n);
      assert requirements == shorter + [requirements[|requirements| - 1]];
    }
  }

  lemma {:induction false} DependentsMember(invocations: seq<JobInvocation>, name: string, n: Node)
    ensures n in Dependents(invocations, name) <==> Requires(invocations, n, name)
  {
    if invocations != [] {
      var shorter, last := invocations[..|invocations| - 1], invocations[|invocations| - 1];
      DependentsMember(shorter, name, n);
      TimesMember(last.requirements, name, last.stepName, n);
      assert invocations == shorter + [last];
      if Requires(shorter, n, name) {
        var i :| 0 <= i < |shorter| && shorter[i].stepName == n && name in shorter[i].requirements;
        assert invocations[i] == shorter[i];
      }
    }
  }

  lemma EdgeIsRequirement(invocations: seq<JobInvocation>, dag: Graph)
    requires IsJobsDAG(invocations, dag)
    ensures forall a, b :: Edge(dag, a, b) <==> Requires(invocations, b, a)
  {
    forall a, b
      ensures Edge(dag, a, b) <==> Requires(invocations, b, a)
    {
      DependentsMember(invocations, a, b);
    }
  }

  lemma CyclesCorrespond(invocations: seq<JobInvocation>, dag: Graph)
    requires IsJobsDAG(invocations, dag)
    ensures Cyclic(invocations) <==> !Acyclic(dag)
  {
    EdgeIsRequirement(invocations, dag);
    if Cyclic(invocations) {
      var p :| RequiresCycle(invocations, p);
      assert CycleThrough(dag, p, p[0]);
      assert OnCycle(dag, p[0]);
    }
    if !Acyclic(dag) {
      var a :| OnCycle(dag, a);
      var p :| CycleThrough(dag, p, a);
      assert RequiresCycle(invocations, p);
    }
  }

  // ---------- reporting cycles ----------

  function CycleDiagnostic(invocation: JobInvocation): Diagnostic {
    Diagnostic(invocation.jobNameRange, "The job `" + invocation.jobName + "` is part of a cycle")
  }

  /** One diagnostic for every invocation whose job name is in `nodes`. */
  function Reports(invocations: seq<JobInvocation>, nodes: set<Node>): multiset<Diagnostic> {
    if invocations == [] then multiset{}
    else
      var last := invocations[|invocations| - 1];
      Reports(invocations[..|invocations| - 1], nodes)
      + if last.jobName in nodes then multiset{CycleDiagnostic(last)} else multiset{}
  }

  lemma {:induction false} ReportsAdd(invocations: seq<JobInvocation>, nodes: set<Node>, node: Node)
    requires node !in nodes
    ensures Reports(invocations, nodes + {node}) == Reports(invocations, nodes) + Reports(invocations, {node})
    ensures Reports(invocations, {}) == multiset{}
  {
    if invocations != [] {
      ReportsAdd(invocations[..|invocations| - 1], nodes, node);
    }
  }

  ghost function NodesFromCycles(dag: Graph): set<Node> {
    set n | n in dag.Keys + (set a, b | a in dag && b in dag[a] :: b) && Downstream(dag, n)
  }

  lemma AllFromCycles(dag: Graph, listed: seq<Node>, nodes: set<Node>)
    requires forall n :: n in listed <==> Downstream(dag, n)
    requires forall n :: n in nodes <==> n in listed[..|listed|]
    ensures nodes == NodesFromCycles(dag)
  {
    assert listed[..|listed|] == listed;
    forall n
      ensures n in nodes <==> n in NodesFromCycles(dag)
    {
      if Downstream(dag, n) {
        DownstreamIsNode(dag, n);
      }
    }
  }

  lemma FromCyclesIsDownstream(dag: Graph, n: Node)
    ensures n in NodesFromCycles(dag) <==> Downstream(dag, n)
  {
    if Downstream(dag, n) {
      DownstreamIsNode(dag, n);
    }
  }

  lemma ReportsLast(invocations: seq<JobInvocation>, i: nat, node: Node)
    requires i < |invocations|
    ensures Reports(invocations[..i + 1], {node})
            == if invocations[i].jobName == node
               then Reports(invocations[..i], {node}) + multiset{CycleDiagnostic(invocations[i])}
               else Reports(invocations[..i], {node})
  {
    assert invocations[..i + 1][..i] == invocations[..i];
  }

  lemma SilentIffNoReports(before: seq<Diagnostic>, after: seq<Diagnostic>, reports: multiset<Diagnostic>)
    requires before <= after && multiset(after) == multiset(before) + reports
    ensures after == before <==> reports == multiset{}
  {
    assert after == before + after[|before|..];
    assert |multiset(after)| == |multiset(before)| + |reports|;
  }

  class Validate {
    var diagnostics: seq<Diagnostic>

    constructor ()
      ensures diagnostics == []
    {
      diagnostics := [];
    }

    method AddDiagnostic(diagnostic: Diagnostic)
      modifies this
      ensures diagnostics == old(diagnostics) + [diagnostic]
    {
      diagnostics := diagnostics + [diagnostic];
    }

    method ReportNode(node: Node, invocations: seq<JobInvocation>)
      modifies this
      ensures old(diagnostics) <= diagnostics
      ensures multiset(diagnostics) == multiset(old(diagnostics)) + Reports(invocations, {node})
    {
      for i := 0 to |invocations|
        invariant old(diagnostics) <= diagnostics
        invariant multiset(diagnostics) == multiset(old(diagnostics)) + Reports(invocations[..i], {node})
      {
        var invocation := invocations[i];
        ReportsLast(invocations, i, node);
        if invocation.jobName == node {
          AddDiagnostic(CycleDiagnostic(invocation));
        }
      }
      assert invocations[..|invocations|] == invocations;
    }

    /** Adds exactly one diagnostic for each invocation whose job name is downstream of a cycle. */
    method ValidateDAG(invocations: seq<JobInvocation>, dag: Graph)
      modifies this
      ensures old(diagnostics) <= diagnostics
      ensures multiset(diagnostics)
              == multiset(old(diagnostics)) + Reports(invocations, NodesFromCycles(dag))
      ensures diagnostics == old(diagnostics) <==> Reports(invocations, NodesFromCycles(dag)) == multiset{}
    {
      var nodesInCycle, _ := IsValidDAG(dag);
      ghost var nodes: set<Node> := {};
      ReportsAdd(invocations, {}, "");
      for i := 0 to |nodesInCycle|
        invariant forall n :: n in nodes <==> n in nodesInCycle[..i]
        invariant old(diagnostics) <= diagnostics
        invariant multiset(diagnostics) == multiset(old(diagnostics)) + Reports(invocations, nodes)
      {
        var node := nodesInCycle[i];
        assert nodesInCycle[..i + 1] == nodesInCycle[..i] + [node];
        ReportsAdd(invocations, nodes, node);
        ReportNode(node, invocations);
        nodes := nodes + {node};
      }
      AllFromCycles(dag, nodesInCycle, nodes);
      SilentIffNoReports(old(diagnostics), diagnostics, Reports(invocations, nodes));
    }
  }

  // ---------- end to end ----------

  lemma {:induction false} ReportsEmpty(invocations: seq<JobInvocation>, nodes: set<Node>)
    ensures Reports(invocations, nodes) == multiset{}
            <==> forall i :: 0 <= i < |invocations| ==> invocations[i].jobName !in nodes
  {
    if invocations != [] {
      var shorter, last := invocations[..|invocations| - 1], invocations[|invocations| - 1];
      ReportsEmpty(shorter, nodes);
      if last.jobName in nodes {
        assert CycleDiagnostic(last) in Reports(invocations, nodes);
      } else {
        assert forall i :: 0 <= i < |shorter| ==> invocations[i] == shorter[i];
      }
    }
  }

  predicate NoneRenamed(invocations: seq<JobInvocation>) {
    forall i :: 0 <= i < |invocations| ==> invocations[i].stepName == invocations[i].jobName
  }

  lemma DownstreamIsBehind(invocations: seq<JobInvocation>, dag: Graph, name: string)
    requires IsJobsDAG(invocations, dag)
    ensures Downstream(dag, name) <==> BehindCycle(invocations, name)
  {
    EdgeIsRequirement(invocations, dag);
    if Downstream(dag, name) {
      var c :| OnCycle(dag, c) && Reaches(dag, c, name);
      var p :| CycleThrough(dag, p, c);
      var q :| Connects(dag, q, c, name);
      assert FollowsCycle(invocations, p, q, name);
    }
    if BehindCycle(invocations, name) {
      var p, q :| FollowsCycle(invocations, p, q, name);
      assert CycleThrough(dag, p, p[0]) && Connects(dag, q, p[0], name);
      assert OnCycle(dag, p[0]) && Reaches(dag, p[0], name);
    }
  }

  /** Exactly the invocations whose job name lies behind a cycle of step names are reported, so nothing
      is reported exactly when no job name does. */
  lemma CycleReport(invocations: seq<JobInvocation>, dag: Graph)
    requires IsJobsDAG(invocations, dag)
    ensures forall name :: name in NodesFromCycles(dag) <==> BehindCycle(invocations, name)
    ensures Reports(invocations, NodesFromCycles(dag)) == multiset{}
            <==> forall i :: 0 <= i < |invocations| ==> !BehindCycle(invocations, invocations[i].jobName)
  {
    forall name
      ensures name in NodesFromCycles(dag) <==> BehindCycle(invocations, name)
    {
      FromCyclesIsDownstream(dag, name);
      DownstreamIsBehind(invocations, dag, name);
    }
    ReportsEmpty(invocations, NodesFromCycles(dag));
  }

  /** Some job is named as a step behind a cycle. */
  ghost predicate NamesCycle(invocations: seq<JobInvocation>) {
    exists i :: 0 <= i < |invocations| && BehindCycle(invocations, invocations[i].jobName)
  }

  lemma LastStepOfCycle(invocations: seq<JobInvocation>, p: seq<string>) returns (i: nat)
    requires RequiresCycle(invocations, p)
    ensures i < |invocations| && invocations[i].stepName == p[0]
    ensures BehindCycle(invocations, invocations[i].stepName)
  {
    var before := p[|p| - 2];
    assert Requires(invocations, p[|p| - 2 + 1], before);
    i :| 0 <= i < |invocations| && invocations[i].stepName == p[0] && before in invocations[i].requirements;
    assert FollowsCycle(invocations, p, [p[0]], p[0]);
  }

  /** Something is reported for a cyclic list and nothing for any other, if and only if the list is not
      cyclic or some job is named as a step behind a cycle; and that holds when no step is renamed. */
  lemma ReportExact(invocations: seq<JobInvocation>, dag: Graph)
    requires IsJobsDAG(invocations, dag)
    ensures (Reports(invocations, NodesFromCycles(dag)) != multiset{} <==> Cyclic(invocations))
            <==> (Cyclic(invocations) ==> NamesCycle(invocations))
    ensures NoneRenamed(invocations) && Cyclic(invocations) ==> NamesCycle(invocations)
  {
    CycleReport(invocations, dag);
    if NamesCycle(invocations) {
      var i, p, q :| 0 <= i < |invocations| && FollowsCycle(invocations, p, q, invocations[i].jobName);
    }
    if NoneRenamed(invocations) && Cyclic(invocations) {
      var p :| RequiresCycle(invocations, p);
      var i := LastStepOfCycle(invocations, p);
      assert invocations[i].jobName == invocations[i].stepName;
    }
  }

  ghost function JobsBehindCycles(invocations: seq<JobInvocation>): set<string> {
    set i | 0 <= i < |invocations| && BehindCycle(invocations, invocations[i].jobName) :: invocations[i].jobName
  }

  lemma {:induction false} ReportsAlike(invocations: seq<JobInvocation>, a: set<Node>, b: set<Node>)
    requires forall i :: 0 <= i < |invocations| ==> (invocations[i].jobName in a <==> invocations[i].jobName in b)
    ensures Reports(invocations, a) == Reports(invocations, b)
  {
    if invocations != [] {
      ReportsAlike(invocations[..|invocations| - 1], a, b);
    }
  }

  lemma ReportsJobsBehind(invocations: seq<JobInvocation>, dag: Graph)
    requires IsJobsDAG(invocations, dag)
    ensures Reports(invocations, NodesFromCycles(dag)) == Reports(invocations, JobsBehindCycles(invocations))
  {
    CycleReport(invocations, dag);
    ReportsAlike(invocations, NodesFromCycles(dag), JobsBehindCycles(invocations));
  }

  /** End to end: the graph is built from the invocations and searched. Exactly the invocations of jobs
      named behind a cycle of requirements are reported; when no step is renamed, the list passes
      without a new diagnostic if and only if its requirements have no cycle. */
  method ValidateJobInvocations(val: Validate, invocations: seq<JobInvocation>)
    modifies val
    ensures old(val.diagnostics) <= val.diagnostics
    ensures multiset(val.diagnostics)
            == multiset(old(val.diagnostics)) + Reports(invocations, JobsBehindCycles(invocations))
    ensures val.diagnostics == old(val.diagnostics) <==> !NamesCycle(invocations)
    ensures NoneRenamed(invocations) ==> (val.diagnostics == old(val.diagnostics) <==> !Cyclic(invocations))
  {
    var dag := BuildJobsDAG(invocations);
    val.ValidateDAG(invocations, dag);
    CycleReport(invocations, dag);
    ReportExact(invocations, dag);
    ReportsJobsBehind(invocations, dag);
  }

  /** When every step is renamed away from all job names, nothing is ever reported: the graph knows
      steps by their step names, while the report looks for job names. */
  lemma RenamedStepsAreSilent(invocations: seq<JobInvocation>, dag: Graph)
    requires IsJobsDAG(invocations, dag)
    requires forall i, j :: 0 <= i < |invocations| && 0 <= j < |invocations|
                            ==> invocations[i].jobName != invocations[j].stepName
    ensures Reports(invocations, NodesFromCycles(dag)) == multiset{}
  {
    EdgeIsRequirement(invocations, dag);
    forall i | 0 <= i < |invocations|
      ensures invocations[i].jobName !in NodesFromCycles(dag)
    {
      var name := invocations[i].jobName;
      FromCyclesIsDownstream(dag, name);
      if Downstream(dag, name) {
        DownstreamHasParent(dag, name);
      }
    }
    ReportsEmpty(invocations, NodesFromCycles(dag));
  }

  /** Two renamed jobs that require each other: a cycle that RenamedStepsAreSilent lets pass. */
  lemma RenamedCycleExists(range: Range)
    ensures var invocations := [JobInvocation("build", "b", ["t"], range), JobInvocation("test", "t", ["b"], range)];
            && Cyclic(invocations)
            && forall i, j :: 0 <= i < 2 && 0 <= j < 2 ==> invocations[i].jobName != invocations[j].stepName
  {
    var invocations := [JobInvocation("build", "b", ["t"], range), JobInvocation("test", "t", ["b"], range)];
    assert Requires(invocations, "b", "t") by { assert invocations[0].stepName == "b"; }
    assert Requires(invocations, "t", "b") by { assert invocations[1].stepName == "t"; }
    assert RequiresCycle(invocations, ["b", "t", "b"]);
    assert |invocations[0].jobName| == 5 && |invocations[1].jobName| == 4;
    assert |invocations[0].stepName| == 1 && |invocations[1].stepName| == 1;
  }

  lemma DownstreamHasParent(dag: Graph, n: Node)
    requires Downstream(dag, n)
    ensures exists a :: Edge(dag, a, n)
  {
    var c :| OnCycle(dag, c) && Reaches(dag, c, n);
    var p :| Connects(dag, p, c, n);
    var q :| CycleThrough(dag, q, c);
    assert Edge(dag, q[|q| - 2], q[|q| - 2 + 1]);
    if |p| > 1 {
      assert Edge(dag, p[|p| - 2], p[|p| - 2 + 1]);
    }
  }

  // ---------- what the graph lists and the report says ----------

  /** A step is listed as often as it lists the name. */
  lemma {:induction false} TimesCounted(requirements: seq<string>, name: string, step: string)
    ensures |Times(requirements, name, step)| == multiset(requirements)[name]
    ensures forall i :: 0 <= i < |Times(requirements, name, step)| ==> Times(requirements, name, step)[i] == step
  {
    if requirements != [] {
      var shorter := requirements[..|requirements| - 1];
      TimesCounted(shorter, name, step);
      assert requirements == shorter + [requirements[|requirements| - 1]];
    }
  }

  /** The steps are listed in the order of the invocations. */
  lemma {:induction false} DependentsInOrder(a: seq<JobInvocation>, b: seq<JobInvocation>, one: JobInvocation,
                                             name: string)
    ensures Dependents(a + b, name) == Dependents(a, name) + Dependents(b, name)
    ensures |Dependents([one], name)| == multiset(one.requirements)[name]
    ensures forall i :: 0 <= i < |Dependents([one], name)| ==> Dependents([one], name)[i] == one.stepName
    decreases |b|
  {
    TimesCounted(one.requirements, name, one.stepName);
    assert [one][..0] == [] && Dependents([], name) == [];
    if b == [] {
      assert a + b == a;
    } else {
      assert (a + b)[..|a + b| - 1] == a + b[..|b| - 1];
      DependentsInOrder(a, b[..|b| - 1], one, name);
    }
  }

  /** Each invocation is reported for itself: once, at its job name, when that is one of the nodes. */
  lemma {:induction false} ReportsSay(a: seq<JobInvocation>, b: seq<JobInvocation>, one: JobInvocation,
                                      nodes: set<Node>)
    ensures Reports(a + b, nodes) == Reports(a, nodes) + Reports(b, nodes)
    ensures Reports([one], nodes)
            == if one.jobName !in nodes then multiset{}
               else multiset{Diagnostic(one.jobNameRange, "The job `" + one.jobName + "` is part of a cycle")}
    decreases |b|
  {
    assert [one][..0] == [] && Reports([], nodes) == multiset{};
    if b == [] {
      assert a + b == a;
    } else {
      assert (a + b)[..|a + b| - 1] == a + b[..|b| - 1];
      ReportsSay(a, b[..|b| - 1], one, nodes);
    }
  }
}
