// Finite directed multigraphs given, as in the source, by a map from a node to the list of its
// children. A child need not be a key, and may be listed more than once.

module Graphs {
  import opened Common

  type Node = string
  type Graph = map<Node, seq<Node>>

  function Succ(g: Graph, n: Node): seq<Node> {
    if n in g then g[n] else []
  }

  predicate Edge(g: Graph, a: Node, b: Node) {
    b in Succ(g, a)
  }

  predicate IsNode(g: Graph, n: Node) {
    n in g || exists a :: a in g && Edge(g, a, n)
  }

  ghost predicate Path(g: Graph, p: seq<Node>) {
    p != [] && forall k :: 0 <= k < |p| - 1 ==> Edge(g, p[k], p[k + 1])
  }

  ghost predicate Connects(g: Graph, p: seq<Node>, a: Node, b: Node) {
    Path(g, p) && p[0] == a && p[|p| - 1] == b
  }

  ghost predicate Reaches(g: Graph, a: Node, b: Node) {
    exists p :: Connects(g, p, a, b)
  }

  ghost predicate CycleThrough(g: Graph, p: seq<Node>, a: Node) {
    Connects(g, p, a, a) && |p| > 1
  }

  ghost predicate OnCycle(g: Graph, a: Node) {
    exists p :: CycleThrough(g, p, a)
  }

  /** Reachable from some cycle; in particular, on one. */
  ghost predicate Downstream(g: Graph, n: Node) {
    exists c :: OnCycle(g, c) && Reaches(g, c, n)
  }

  ghost predicate Acyclic(g: Graph) {
    forall a :: !OnCycle(g, a)
  }

  /** Every parent of a listed node is listed before it. */
  ghost predicate Topological(g: Graph, order: seq<Node>) {
    forall k, a :: 0 <= k < |order| && Edge(g, a, order[k]) ==> a in order[..k]
  }

  // ---------- paths ----------

  lemma PathAppend(g: Graph, p: seq<Node>, n: Node)
    requires Path(g, p) && Edge(g, p[|p| - 1], n)
    ensures Path(g, p + [n])
  {
  }

  lemma PathSlice(g: Graph, p: seq<Node>, i: nat, j: nat)
    requires Path(g, p) && i < j <= |p|
    ensures Connects(g, p[i..j], p[i], p[j - 1])
  {
    forall k | 0 <= k < j - i - 1
      ensures Edge(g, p[i..j][k], p[i..j][k + 1])
    {
      assert Edge(g, p[i + k], p[i + k + 1]);
    }
  }

  // ---------- where nodes with a parent in their own set come from ----------

  ghost predicate HasParentIn(g: Graph, u: set<Node>, n: Node) {
    exists a :: a in u && Edge(g, a, n)
  }

  // The trigger keeps the quantifier from walking back on its own.
  ghost predicate BackwardClosed(g: Graph, u: set<Node>) {
    forall m {:trigger HasParentIn(g, u, m)} :: m in u ==> HasParentIn(g, u, m)
  }

  lemma {:induction false} WalkBack(g: Graph, u: set<Node>, n: Node, length: nat) returns (p: seq<Node>)
    requires n in u && BackwardClosed(g, u)
    ensures |p| == length + 1 && Path(g, p) && p[length] == n
    ensures forall k :: 0 <= k < |p| ==> p[k] in u
    decreases length
  {
    if length == 0 {
      p := [n];
    } else {
      assert HasParentIn(g, u, n);
      var a :| a in u && Edge(g, a, n);
      var q := WalkBack(g, u, a, length - 1);
      PathAppend(g, q, n);
      p := q + [n];
    }
  }

  lemma RepeatIsCycle(g: Graph, p: seq<Node>, i: nat, j: nat)
    requires Path(g, p) && i < j < |p| && p[i] == p[j]
    ensures Downstream(g, p[|p| - 1])
  {
    PathSlice(g, p, i, j + 1);
    assert CycleThrough(g, p[i..j + 1], p[i]);
    PathSlice(g, p, i, |p|);
    assert Reaches(g, p[i], p[|p| - 1]);
  }

  /** In a finite set where every node has a parent, every node comes from a cycle. */
  lemma BackwardClosedIsDownstream(g: Graph, u: set<Node>, n: Node)
    requires n in u && BackwardClosed(g, u)
    ensures Downstream(g, n)
  {
    var p := WalkBack(g, u, n, |u|);
    if Distinct(p) {
      DistinctFits(p, u);
    }
    var i, j :| 0 <= i < j < |p| && p[i] == p[j];
    RepeatIsCycle(g, p, i, j);
  }

  // ---------- nothing in a topological order comes from a cycle ----------

  lemma {:induction false} PathDescends(g: Graph, order: seq<Node>, p: seq<Node>, k: nat) returns (j: nat)
    requires Topological(g, order) && k < |order|
    requires Path(g, p) && p[|p| - 1] == order[k]
    ensures j + |p| - 1 <= k && order[j] == p[0]
  {
    if |p| == 1 {
      j := k;
    } else {
      var q, a := p[..|p| - 1], p[|p| - 2];
      PathSlice(g, p, 0, |p| - 1);
      assert p[0..|p| - 1] == q;
      assert Edge(g, a, p[|p| - 2 + 1]);
      assert a in order[..k];
      var k': nat :| k' < k && order[k'] == a;
      j := PathDescends(g, order, q, k');
    }
  }

  lemma TopologicalNotDownstream(g: Graph, order: seq<Node>, n: Node)
    requires Topological(g, order) && Distinct(order) && n in order
    ensures !Downstream(g, n)
  {
    if Downstream(g, n) {
      var c :| OnCycle(g, c) && Reaches(g, c, n);
      var p :| Connects(g, p, c, n);
      var k :| 0 <= k < |order| && order[k] == n;
      var j := PathDescends(g, order, p, k);
      var q :| CycleThrough(g, q, c);
      var j' := PathDescends(g, order, q, j);
      assert false;
    }
  }

  // ---------- counting edges ----------

  /** All children listed by the nodes of u, with multiplicity. */
  ghost function Children(g: Graph, u: set<Node>): multiset<Node> {
    if u == {} then multiset{}
    else
      var x :| x in u;
      multiset(Succ(g, x)) + Children(g, u - {x})
  }

  lemma {:induction false} ChildrenRemove(g: Graph, u: set<Node>, y: Node)
    requires y in u
    ensures Children(g, u) == multiset(Succ(g, y)) + Children(g, u - {y})
  {
    var x :| x in u && Children(g, u) == multiset(Succ(g, x)) + Children(g, u - {x});
    if x != y {
      ChildrenRemove(g, u - {x}, y);
      ChildrenRemove(g, u - {y}, x);
      assert u - {x} - {y} == u - {y} - {x};
    }
  }

  lemma {:induction false} ChildrenMember(g: Graph, u: set<Node>, n: Node)
    ensures n in Children(g, u) <==> HasParentIn(g, u, n)
  {
    if u != {} {
      var x :| x in u && Children(g, u) == multiset(Succ(g, x)) + Children(g, u - {x});
      ChildrenMember(g, u - {x}, n);
      if HasParentIn(g, u, n) {
        var a :| a in u && Edge(g, a, n);
        assert a == x || HasParentIn(g, u - {x}, n);
      }
    }
  }
}
