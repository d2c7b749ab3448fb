/**
  Vocabulary shared by the dependence-graph builder, the two schedulers and the
  per-cycle listing: hazard kinds, arc records, the graph as an arena of node ids
  with arcs in creation order, and the iteration orders of the graph library.
 */
module Digraph {

  /** The hazard an arc records. */
  datatype DepType = RAW | WAW | WAR

  /** One arc together with the attributes the original keeps in side maps. */
  datatype Arc = Arc(src: nat, dst: nat, weight: nat, cause: nat, kind: DepType)

  /**
    Nodes are the ids 0 .. nodes - 1, handed out in creation order: 0 is the
    dummy source, nodes - 1 the dummy target. Arcs are kept in creation order.
   */
  datatype Graph = Graph(nodes: nat, arcs: seq<Arc>)

  /**
    Which reading of a guard to use: the code as it is written, or the
    behaviour it evidently intends (see the findings in the README).
   */
  datatype Semantics = AsWritten | Intended

  function Target(g: Graph): nat
    requires g.nodes > 0
  {
    g.nodes - 1
  }

  /** Both ends of every arc are nodes of the graph; the two sentinels exist. */
  predicate WellFormed(g: Graph) {
    && g.nodes >= 2
    && forall a :: a in g.arcs ==> a.src < g.nodes && a.dst < g.nodes
  }

  /** No arc points to a node created before its source. */
  predicate Monotone(g: Graph) {
    forall a :: a in g.arcs ==> a.src <= a.dst
  }

  /** Every arc points to a node created after its source. */
  predicate Forward(g: Graph) {
    forall a :: a in g.arcs ==> a.src < a.dst
  }

  predicate SelfLoopFree(g: Graph) {
    forall a :: a in g.arcs ==> a.src != a.dst
  }

  predicate HasArc(g: Graph, u: nat, v: nat) {
    exists a :: a in g.arcs && a.src == u && a.dst == v
  }

  predicate HasInArc(g: Graph, v: nat) {
    exists a :: a in g.arcs && a.dst == v
  }

  predicate HasOutArc(g: Graph, v: nat) {
    exists a :: a in g.arcs && a.src == v
  }

  /** A walk of at least one arc. */
  predicate IsPath(g: Graph, p: seq<nat>) {
    |p| >= 2 && forall k :: 0 <= k < |p| - 1 ==> HasArc(g, p[k], p[k + 1])
  }

  /** What the graph library's `dag` test decides: no walk returns to its start. */
  ghost predicate Acyclic(g: Graph) {
    forall p :: IsPath(g, p) ==> p[0] != p[|p| - 1]
  }

  /**
    The shape the builder gives a graph when every gate has operands and none
    reads the qubit it writes: arcs point forward, every node but the source
    has a predecessor, every node but the target has a successor, and the
    arcs leaving the source or entering the target weigh 1.
   */
  predicate Closed(g: Graph) {
    && WellFormed(g)
    && Forward(g)
    && (forall v :: 0 < v < g.nodes ==> HasInArc(g, v))
    && (forall v :: 0 <= v < g.nodes - 1 ==> HasOutArc(g, v))
    && (forall a :: a in g.arcs && a.src == 0 ==> a.weight == 1)
    && (forall a :: a in g.arcs && a.dst == g.nodes - 1 ==> a.weight == 1)
  }

  /** The arcs entering v, most recently added first (the order of an in-arc iterator). */
  function InArcs(arcs: seq<Arc>, v: nat): (r: seq<Arc>)
    ensures forall a :: a in r ==> a in arcs && a.dst == v
  {
    if arcs == [] then []
    else InArcs(arcs[1..], v) + (if arcs[0].dst == v then [arcs[0]] else [])
  }

  /** The arcs leaving v, most recently added first (the order of an out-arc iterator). */
  function OutArcs(arcs: seq<Arc>, v: nat): (r: seq<Arc>)
    ensures forall a :: a in r ==> a in arcs && a.src == v
  {
    if arcs == [] then []
    else OutArcs(arcs[1..], v) + (if arcs[0].src == v then [arcs[0]] else [])
  }

  /** Every arc is among the in-arcs of its head. */
  lemma {:induction false} InArcsComplete(arcs: seq<Arc>, a: Arc)
    requires a in arcs
    ensures a in InArcs(arcs, a.dst)
  {
    if arcs[0] != a {
      InArcsComplete(arcs[1..], a);
    }
  }

  /** Every arc is among the out-arcs of its tail. */
  lemma {:induction false} OutArcsComplete(arcs: seq<Arc>, a: Arc)
    requires a in arcs
    ensures a in OutArcs(arcs, a.src)
  {
    if arcs[0] != a {
      OutArcsComplete(arcs[1..], a);
    }
  }

  /** Arcs appended later come first in both arc iterators. */
  lemma {:induction false} InArcsAppend(a: seq<Arc>, b: seq<Arc>, v: nat)
    ensures InArcs(a + b, v) == InArcs(b, v) + InArcs(a, v)
  {
    if a == [] {
      assert a + b == b;
    } else {
      assert (a + b)[1..] == a[1..] + b;
      InArcsAppend(a[1..], b, v);
    }
  }

  lemma {:induction false} OutArcsAppend(a: seq<Arc>, b: seq<Arc>, v: nat)
    ensures OutArcs(a + b, v) == OutArcs(b, v) + OutArcs(a, v)
  {
    if a == [] {
      assert a + b == b;
    } else {
      assert (a + b)[1..] == a[1..] + b;
      OutArcsAppend(a[1..], b, v);
    }
  }

  /** What the out-degree map reports for v. */
  function OutDegree(arcs: seq<Arc>, v: nat): nat {
    |OutArcs(arcs, v)|
  }

  lemma OutDegreeZero(arcs: seq<Arc>, v: nat)
    ensures OutDegree(arcs, v) == 0 <==> forall a :: a in arcs ==> a.src != v
  {
    if OutDegree(arcs, v) != 0 {
      assert OutArcs(arcs, v)[0] in OutArcs(arcs, v);
    } else {
      forall a | a in arcs
        ensures a.src != v
      {
        OutArcsComplete(arcs, a);
      }
    }
  }

  /**
    The node vector obtained by walking a node map of a freshly built list
    digraph: the newest node first, the first node (the source) last.
   */
  function NodeMapOrder(n: nat): seq<nat> {
    seq(n, i requires 0 <= i < n => n - 1 - i)
  }

  /** Along a walk in a monotone graph the ids never decrease. */
  lemma {:induction false} PathAscends(g: Graph, p: seq<nat>)
    requires Monotone(g) && IsPath(g, p)
    ensures p[0] <= p[1] <= p[|p| - 1]
  {
    assert HasArc(g, p[0], p[1]);
    if |p| > 2 {
      var rest := p[1..];
      forall k | 0 <= k < |rest| - 1
        ensures HasArc(g, rest[k], rest[k + 1])
      {
        assert HasArc(g, p[k + 1], p[k + 2]);
      }
      PathAscends(g, rest);
    }
  }

  /**
    In a graph whose arcs never point backwards, the only possible cycle is a
    self-loop: the graph is acyclic exactly when it has no self-loop.
   */
  lemma MonotoneAcyclicIffSelfLoopFree(g: Graph)
    requires Monotone(g)
    ensures Acyclic(g) <==> SelfLoopFree(g)
  {
    if !SelfLoopFree(g) {
      var a :| a in g.arcs && a.src == a.dst;
      assert HasArc(g, a.src, a.src);
      assert IsPath(g, [a.src, a.src]);
    } else {
      forall p | IsPath(g, p)
        ensures p[0] != p[|p| - 1]
      {
        PathAscends(g, p);
        assert HasArc(g, p[0], p[1]);
      }
    }
  }

  /**
    The node-map order read back to front respects every arc of a monotone
    graph: the source of an arc comes no earlier than its target in the vector.
    Its first element is the target and its last is the source.
   */
  lemma NodeMapOrderIsTopological(g: Graph)
    requires WellFormed(g) && Monotone(g)
    ensures var order := NodeMapOrder(g.nodes);
      && order[0] == Target(g) && order[|order| - 1] == 0
      && forall a, i, j ::
           (a in g.arcs && 0 <= i < |order| && 0 <= j < |order| && order[i] == a.src && order[j] == a.dst)
           ==> j <= i
  {
  }
}
