/**
  The two list schedulers over a built graph, as functions of the graph.

  The node vector both passes walk is the node-map order of the graph (newest
  node first), so ASAP visits the ids 0, 1, ..., n - 1 and ALAP visits
  n - 1, ..., 0. The cycle map starts at 0 for every node, as a fresh node
  map does. Each node folds a running cycle over its in-arcs (ASAP) or
  out-arcs (ALAP), most recently added arc first.
 */
module Schedule {
  import opened Digraph

  /** The largest 64-bit size_t: where the ALAP pass anchors the target. */
  const MaxCycle: int := 0xFFFF_FFFF_FFFF_FFFF

  // ---------------------------------------------------------------------------
  // ASAP

  /** One in-arc update of the running ASAP cycle. */
  function AsapStep(sem: Semantics, curr: int, srcCycle: int, w: nat): int {
    match sem
    case AsWritten => if curr <= srcCycle then srcCycle + w else curr
    case Intended => if curr <= srcCycle + w then srcCycle + w else curr
  }

  /** The running cycle after visiting `arcs` in sequence order, starting at `init`. */
  function Relaxed(sem: Semantics, init: int, arcs: seq<Arc>, c: seq<int>): int
    requires forall a :: a in arcs ==> a.src < |c|
  {
    if arcs == [] then init
    else
      var last := arcs[|arcs| - 1];
      AsapStep(sem, Relaxed(sem, init, arcs[..|arcs| - 1], c), c[last.src], last.weight)
  }

  /** The cycle map after the ASAP pass has visited the nodes 0 .. k - 1. */
  function AsapAfter(g: Graph, sem: Semantics, k: nat): (c: seq<int>)
    requires WellFormed(g) && k <= g.nodes
    ensures |c| == g.nodes
  {
    if k == 0 then seq(g.nodes, _ => 0)
    else
      var prev := AsapAfter(g, sem, k - 1);
      var v := k - 1;
      prev[v := if v == 0 then 0 else Relaxed(sem, 0, InArcs(g.arcs, v), prev)]
  }

  /** The ASAP cycle of every node. */
  function Asap(g: Graph, sem: Semantics): (c: seq<int>)
    requires WellFormed(g)
    ensures |c| == g.nodes
  {
    AsapAfter(g, sem, g.nodes)
  }

  // ---------------------------------------------------------------------------
  // ALAP

  /** One out-arc update of the running ALAP cycle. */
  function AlapStep(sem: Semantics, curr: int, dstCycle: int, w: nat): int {
    match sem
    case AsWritten => if curr >= dstCycle then dstCycle - w else curr
    case Intended => if curr >= dstCycle - w then dstCycle - w else curr
  }

  /** The running cycle after visiting `arcs` in sequence order, starting at `init`. */
  function Tightened(sem: Semantics, init: int, arcs: seq<Arc>, c: seq<int>): int
    requires forall a :: a in arcs ==> a.dst < |c|
  {
    if arcs == [] then init
    else
      var last := arcs[|arcs| - 1];
      AlapStep(sem, Tightened(sem, init, arcs[..|arcs| - 1], c), c[last.dst], last.weight)
  }

  /** The cycle map after the ALAP pass has visited the nodes n - 1 down to n - k. */
  function AlapAfter(g: Graph, sem: Semantics, k: nat): (c: seq<int>)
    requires WellFormed(g) && k <= g.nodes
    ensures |c| == g.nodes
  {
    if k == 0 then seq(g.nodes, _ => 0)
    else
      var prev := AlapAfter(g, sem, k - 1);
      var v := g.nodes - k;
      prev[v := if k == 1 then MaxCycle else Tightened(sem, MaxCycle, OutArcs(g.arcs, v), prev)]
  }

  /** The ALAP cycle of every node, counted down from MaxCycle. */
  function Alap(g: Graph, sem: Semantics): (c: seq<int>)
    requires WellFormed(g)
    ensures |c| == g.nodes
  {
    AlapAfter(g, sem, g.nodes)
  }

  /** The value the ALAP report prints for each node: MaxCycle minus its ALAP cycle. */
  function Reported(g: Graph, sem: Semantics): (r: seq<int>)
    requires WellFormed(g)
    ensures |r| == g.nodes
  {
    var c := Alap(g, sem);
    seq(g.nodes, v requires 0 <= v < g.nodes => MaxCycle - c[v])
  }

  // ---------------------------------------------------------------------------
  // One node's fold

  /**
    The ASAP fold never goes below its start, ends at least at the cycle of
    every arc's source (strictly above it for arcs of weight 1 or more), and
    ends either at its start or at `c[src] + weight` of one of the arcs — the
    latter whenever the first arc's source is not below the start. With the
    intended guard it also respects every arc's weight.
   */
  lemma {:induction false} RelaxedBounds(sem: Semantics, init: int, arcs: seq<Arc>, c: seq<int>)
    requires forall a :: a in arcs ==> a.src < |c|
    ensures var r := Relaxed(sem, init, arcs, c);
      && r >= init
      && (forall a :: a in arcs ==> r >= c[a.src])
      && (forall a :: a in arcs && a.weight >= 1 ==> r > c[a.src])
      && (sem == Intended ==> forall a :: a in arcs ==> r >= c[a.src] + a.weight)
      && (r == init || exists a :: a in arcs && r == c[a.src] + a.weight)
      && (arcs != [] && init <= c[arcs[0].src] ==> exists a :: a in arcs && r == c[a.src] + a.weight)
  {
    if arcs != [] {
      var front := arcs[..|arcs| - 1];
      var last := arcs[|arcs| - 1];
      assert forall a :: a in arcs <==> a in front || a == last;
      RelaxedBounds(sem, init, front, c);
      if front != [] {
        assert front[0] == arcs[0];
      }
    }
  }

  /** The fold reads the cycle map only at the sources of its arcs. */
  lemma {:induction false} RelaxedFrame(sem: Semantics, init: int, arcs: seq<Arc>, c1: seq<int>, c2: seq<int>)
    requires forall a :: a in arcs ==> a.src < |c1| && a.src < |c2| && c1[a.src] == c2[a.src]
    ensures Relaxed(sem, init, arcs, c1) == Relaxed(sem, init, arcs, c2)
  {
    if arcs != [] {
      RelaxedFrame(sem, init, arcs[..|arcs| - 1], c1, c2);
    }
  }

  /** Mirror of RelaxedBounds for the ALAP fold. */
  lemma {:induction false} TightenedBounds(sem: Semantics, init: int, arcs: seq<Arc>, c: seq<int>)
    requires forall a :: a in arcs ==> a.dst < |c|
    ensures var r := Tightened(sem, init, arcs, c);
      && r <= init
      && (forall a :: a in arcs ==> r <= c[a.dst])
      && (forall a :: a in arcs && a.weight >= 1 ==> r < c[a.dst])
      && (sem == Intended ==> forall a :: a in arcs ==> r <= c[a.dst] - a.weight)
      && (r == init || exists a :: a in arcs && r == c[a.dst] - a.weight)
      && (arcs != [] && init >= c[arcs[0].dst] ==> exists a :: a in arcs && r == c[a.dst] - a.weight)
  {
    if arcs != [] {
      var front := arcs[..|arcs| - 1];
      var last := arcs[|arcs| - 1];
      assert forall a :: a in arcs <==> a in front || a == last;
      TightenedBounds(sem, init, front, c);
      if front != [] {
        assert front[0] == arcs[0];
      }
    }
  }

  lemma {:induction false} TightenedFrame(sem: Semantics, init: int, arcs: seq<Arc>, c1: seq<int>, c2: seq<int>)
    requires forall a :: a in arcs ==> a.dst < |c1| && a.dst < |c2| && c1[a.dst] == c2[a.dst]
    ensures Tightened(sem, init, arcs, c1) == Tightened(sem, init, arcs, c2)
  {
    if arcs != [] {
      TightenedFrame(sem, init, arcs[..|arcs| - 1], c1, c2);
    }
  }

  // ---------------------------------------------------------------------------
  // The passes as fixpoints

  /** Visiting node k - 1 changes only its own entry. */
  lemma AsapAfterStep(g: Graph, sem: Semantics, k: nat)
    requires WellFormed(g) && 0 < k <= g.nodes
    ensures forall v :: 0 <= v < g.nodes && v != k - 1 ==> AsapAfter(g, sem, k)[v] == AsapAfter(g, sem, k - 1)[v]
  {
  }

  /** Visiting more nodes leaves the cycle of a visited one alone. */
  lemma {:induction false} AsapAfterStableAt(g: Graph, sem: Semantics, k: nat, m: nat, v: nat)
    requires WellFormed(g) && k <= m <= g.nodes && v < k
    ensures AsapAfter(g, sem, m)[v] == AsapAfter(g, sem, k)[v]
    decreases m
  {
    if k < m {
      AsapAfterStableAt(g, sem, k, m - 1, v);
      AsapAfterStep(g, sem, m);
      assert AsapAfter(g, sem, m)[v] == AsapAfter(g, sem, m - 1)[v];
    } else {
      assert m == k;
    }
  }

  lemma {:induction false} AsapAfterUnvisited(g: Graph, sem: Semantics, m: nat)
    requires WellFormed(g) && m <= g.nodes
    ensures forall v :: m <= v < g.nodes ==> AsapAfter(g, sem, m)[v] == 0
  {
    if m > 0 {
      AsapAfterUnvisited(g, sem, m - 1);
      AsapAfterStep(g, sem, m);
    }
  }

  lemma {:induction false} AsapAfterNonNegative(g: Graph, sem: Semantics, m: nat)
    requires WellFormed(g) && m <= g.nodes
    ensures forall v :: 0 <= v < g.nodes ==> AsapAfter(g, sem, m)[v] >= 0
  {
    if m > 0 {
      AsapAfterNonNegative(g, sem, m - 1);
      if m - 1 > 0 {
        RelaxedBounds(sem, 0, InArcs(g.arcs, m - 1), AsapAfter(g, sem, m - 1));
      }
    }
  }

  /** A visited node keeps its cycle; an unvisited one still holds 0; no cycle is negative. */
  lemma AsapAfterFrame(g: Graph, sem: Semantics, k: nat, m: nat)
    requires WellFormed(g) && k <= m <= g.nodes
    ensures forall v :: 0 <= v < k ==> AsapAfter(g, sem, m)[v] == AsapAfter(g, sem, k)[v]
    ensures forall v :: m <= v < g.nodes ==> AsapAfter(g, sem, m)[v] == 0
    ensures forall v :: 0 <= v < g.nodes ==> AsapAfter(g, sem, m)[v] >= 0
  {
    forall v | 0 <= v < k {
      AsapAfterStableAt(g, sem, k, m, v);
    }
    AsapAfterUnvisited(g, sem, m);
    AsapAfterNonNegative(g, sem, m);
  }


  /** One node of the ASAP map: the fold over its in-arcs of the final map. */
  lemma AsapAt(g: Graph, sem: Semantics, v: nat)
    requires WellFormed(g) && Forward(g) && 0 < v < g.nodes
    ensures Asap(g, sem)[v] == Relaxed(sem, 0, InArcs(g.arcs, v), Asap(g, sem))
  {
    var before := AsapAfter(g, sem, v);
    var c := Asap(g, sem);
    AsapAfterFrame(g, sem, v + 1, g.nodes);
    assert c[v] == AsapAfter(g, sem, v + 1)[v] == Relaxed(sem, 0, InArcs(g.arcs, v), before);
    AsapAfterFrame(g, sem, v, g.nodes);
    forall a | a in InArcs(g.arcs, v)
      ensures a.src < v && before[a.src] == c[a.src]
    {
      assert a in g.arcs;
    }
    RelaxedFrame(sem, 0, InArcs(g.arcs, v), before, c);
  }

  /**
    On a forward graph the ASAP map is a fixpoint: every node but the source
    holds the fold over its in-arcs of the final cycles of their sources.
   */
  lemma AsapFixpoint(g: Graph, sem: Semantics)
    requires WellFormed(g) && Forward(g)
    ensures var c := Asap(g, sem);
      && c[0] == 0
      && (forall v :: 0 <= v < g.nodes ==> c[v] >= 0)
      && (forall v :: 0 < v < g.nodes ==> c[v] == Relaxed(sem, 0, InArcs(g.arcs, v), c))
  {
    AsapAfterFrame(g, sem, 1, g.nodes);
    forall v | 0 < v < g.nodes
      ensures Asap(g, sem)[v] == Relaxed(sem, 0, InArcs(g.arcs, v), Asap(g, sem))
    {
      AsapAt(g, sem, v);
    }
  }

  /** Visiting node n - k changes only its own entry. */
  lemma AlapAfterStep(g: Graph, sem: Semantics, k: nat)
    requires WellFormed(g) && 0 < k <= g.nodes
    ensures forall v :: 0 <= v < g.nodes && v != g.nodes - k ==> AlapAfter(g, sem, k)[v] == AlapAfter(g, sem, k - 1)[v]
  {
  }

  lemma {:induction false} AlapAfterStableAt(g: Graph, sem: Semantics, k: nat, m: nat, v: nat)
    requires WellFormed(g) && k <= m <= g.nodes && g.nodes - k <= v < g.nodes
    ensures AlapAfter(g, sem, m)[v] == AlapAfter(g, sem, k)[v]
    decreases m
  {
    if k < m {
      AlapAfterStableAt(g, sem, k, m - 1, v);
      AlapAfterStep(g, sem, m);
      assert AlapAfter(g, sem, m)[v] == AlapAfter(g, sem, m - 1)[v];
    } else {
      assert m == k;
    }
  }

  lemma {:induction false} AlapAfterUnvisited(g: Graph, sem: Semantics, m: nat)
    requires WellFormed(g) && m <= g.nodes
    ensures forall v :: 0 <= v < g.nodes - m ==> AlapAfter(g, sem, m)[v] == 0
  {
    if m > 0 {
      AlapAfterUnvisited(g, sem, m - 1);
      AlapAfterStep(g, sem, m);
    }
  }

  lemma {:induction false} AlapAfterBounded(g: Graph, sem: Semantics, m: nat)
    requires WellFormed(g) && m <= g.nodes
    ensures forall v :: 0 <= v < g.nodes ==> AlapAfter(g, sem, m)[v] <= MaxCycle
  {
    if m > 0 {
      AlapAfterBounded(g, sem, m - 1);
      if m > 1 {
        TightenedBounds(sem, MaxCycle, OutArcs(g.arcs, g.nodes - m), AlapAfter(g, sem, m - 1));
      }
    }
  }

  /** Mirror of AsapAfterFrame: visited nodes keep their cycle, unvisited ones hold 0, none exceeds MaxCycle. */
  lemma AlapAfterFrame(g: Graph, sem: Semantics, k: nat, m: nat)
    requires WellFormed(g) && k <= m <= g.nodes
    ensures forall v :: g.nodes - k <= v < g.nodes ==> AlapAfter(g, sem, m)[v] == AlapAfter(g, sem, k)[v]
    ensures forall v :: 0 <= v < g.nodes - m ==> AlapAfter(g, sem, m)[v] == 0
    ensures forall v :: 0 <= v < g.nodes ==> AlapAfter(g, sem, m)[v] <= MaxCycle
  {
    forall v | g.nodes - k <= v < g.nodes {
      AlapAfterStableAt(g, sem, k, m, v);
    }
    AlapAfterUnvisited(g, sem, m);
    AlapAfterBounded(g, sem, m);
  }


  /** One node of the ALAP map: the fold over its out-arcs of the final map. */
  lemma AlapAt(g: Graph, sem: Semantics, v: nat)
    requires WellFormed(g) && Forward(g) && 0 <= v < g.nodes - 1
    ensures Alap(g, sem)[v] == Tightened(sem, MaxCycle, OutArcs(g.arcs, v), Alap(g, sem))
  {
    var n := g.nodes;
    var k := n - v;
    var outs := OutArcs(g.arcs, v);
    var before := AlapAfter(g, sem, k - 1);
    var c := Alap(g, sem);
    assert AlapAfter(g, sem, k) == before[v := Tightened(sem, MaxCycle, outs, before)];
    AlapAfterFrame(g, sem, k, n);
    assert c[v] == Tightened(sem, MaxCycle, outs, before);
    AlapAfterFrame(g, sem, k - 1, n);
    forall a | a in OutArcs(g.arcs, v)
      ensures v < a.dst < n && before[a.dst] == c[a.dst]
    {
      assert a in g.arcs;
    }
    TightenedFrame(sem, MaxCycle, OutArcs(g.arcs, v), before, c);
  }

  /**
    On a forward graph the ALAP map is a fixpoint: every node but the target
    holds the fold over its out-arcs of the final cycles of their targets.
   */
  lemma AlapFixpoint(g: Graph, sem: Semantics)
    requires WellFormed(g) && Forward(g)
    ensures var c := Alap(g, sem);
      && c[Target(g)] == MaxCycle
      && (forall v :: 0 <= v < g.nodes ==> c[v] <= MaxCycle)
      && (forall v :: 0 <= v < Target(g) ==> c[v] == Tightened(sem, MaxCycle, OutArcs(g.arcs, v), c))
  {
    AlapAfterFrame(g, sem, 1, g.nodes);
    forall v | 0 <= v < g.nodes - 1
      ensures Alap(g, sem)[v] == Tightened(sem, MaxCycle, OutArcs(g.arcs, v), Alap(g, sem))
    {
      AlapAt(g, sem, v);
    }
  }

  // ---------------------------------------------------------------------------
  // What each pass guarantees

  /**
    ASAP: the source is at cycle 0; a node without in-arcs is at 0; any other
    node is at `cycle(u) + w` for one of its in-arcs u -> v (exactly that when
    it has a single in-arc); every node is at or after each predecessor, and
    strictly after it across an arc of weight 1 or more. With the intended
    guard every arc's weight is respected, so each node is at the maximum over
    its in-arcs.
   */
  lemma AsapProperties(g: Graph, sem: Semantics)
    requires WellFormed(g) && Forward(g)
    ensures var c := Asap(g, sem);
      && c[0] == 0
      && (forall v :: 0 <= v < g.nodes ==> c[v] >= 0)
      && (forall v :: 0 < v < g.nodes && InArcs(g.arcs, v) == [] ==> c[v] == 0)
      && (forall v :: 0 < v < g.nodes && InArcs(g.arcs, v) != [] ==>
            exists a :: a in InArcs(g.arcs, v) && c[v] == c[a.src] + a.weight)
      && (forall v :: 0 < v < g.nodes && |InArcs(g.arcs, v)| == 1 ==>
            c[v] == c[InArcs(g.arcs, v)[0].src] + InArcs(g.arcs, v)[0].weight)
      && (forall a :: a in g.arcs ==> c[a.src] <= c[a.dst])
      && (forall a :: a in g.arcs && a.weight >= 1 ==> c[a.src] < c[a.dst])
      && (sem == Intended ==> forall a :: a in g.arcs ==> c[a.src] + a.weight <= c[a.dst])
  {
    var c := Asap(g, sem);
    AsapSource(g, sem);
    AsapNonNegative(g, sem);
    forall v | 0 < v < g.nodes
      ensures InArcs(g.arcs, v) == [] ==> c[v] == 0
      ensures InArcs(g.arcs, v) != [] ==> exists a :: a in InArcs(g.arcs, v) && c[v] == c[a.src] + a.weight
      ensures |InArcs(g.arcs, v)| == 1 ==> c[v] == c[InArcs(g.arcs, v)[0].src] + InArcs(g.arcs, v)[0].weight
    {
      AsapNode(g, sem, v);
    }
    forall a | a in g.arcs
      ensures c[a.src] <= c[a.dst]
      ensures a.weight >= 1 ==> c[a.src] < c[a.dst]
      ensures sem == Intended ==> c[a.src] + a.weight <= c[a.dst]
    {
      AsapArc(g, sem, a);
    }
  }

  lemma AsapNonNegative(g: Graph, sem: Semantics)
    requires WellFormed(g)
    ensures forall v :: 0 <= v < g.nodes ==> Asap(g, sem)[v] >= 0
  {
    AsapAfterFrame(g, sem, 0, g.nodes);
  }

  /** What RelaxedBounds gives for a fold that starts at 0 over non-negative cycles. */
  lemma RelaxedFromZero(sem: Semantics, ins: seq<Arc>, c: seq<int>, x: int)
    requires forall a :: a in ins ==> a.src < |c| && c[a.src] >= 0
    requires x == Relaxed(sem, 0, ins, c)
    ensures && (ins == [] ==> x == 0)
      && (ins != [] ==> exists a :: a in ins && x == c[a.src] + a.weight)
      && (|ins| == 1 ==> x == c[ins[0].src] + ins[0].weight)
      && (forall a :: a in ins ==> c[a.src] <= x)
      && (forall a :: a in ins && a.weight >= 1 ==> c[a.src] < x)
      && (sem == Intended ==> forall a :: a in ins ==> c[a.src] + a.weight <= x)
  {
    RelaxedBounds(sem, 0, ins, c);
    if ins != [] {
      assert ins[0] in ins;
      var a :| a in ins && x == c[a.src] + a.weight;
      if |ins| == 1 {
        assert a == ins[0];
      }
    }
  }

  /** AsapProperties at one node. */
  lemma AsapNode(g: Graph, sem: Semantics, v: nat)
    requires WellFormed(g) && Forward(g) && 0 < v < g.nodes
    ensures var c := Asap(g, sem); var ins := InArcs(g.arcs, v);
      && (ins == [] ==> c[v] == 0)
      && (ins != [] ==> exists a :: a in ins && c[v] == c[a.src] + a.weight)
      && (|ins| == 1 ==> c[v] == c[ins[0].src] + ins[0].weight)
      && (forall a :: a in ins ==> c[a.src] <= c[v])
      && (forall a :: a in ins && a.weight >= 1 ==> c[a.src] < c[v])
      && (sem == Intended ==> forall a :: a in ins ==> c[a.src] + a.weight <= c[v])
  {
    var c := Asap(g, sem);
    AsapAt(g, sem, v);
    AsapNonNegative(g, sem);
    RelaxedFromZero(sem, InArcs(g.arcs, v), c, c[v]);
  }

  lemma AlapProperties(g: Graph, sem: Semantics)
    requires WellFormed(g) && Forward(g)
    ensures var c := Alap(g, sem);
      && c[Target(g)] == MaxCycle
      && (forall v :: 0 <= v < g.nodes ==> c[v] <= MaxCycle)
      && (forall v :: 0 <= v < Target(g) && OutArcs(g.arcs, v) == [] ==> c[v] == MaxCycle)
      && (forall v :: 0 <= v < Target(g) && OutArcs(g.arcs, v) != [] ==>
            exists a :: a in OutArcs(g.arcs, v) && c[v] == c[a.dst] - a.weight)
      && (forall a :: a in g.arcs ==> c[a.src] <= c[a.dst])
      && (forall a :: a in g.arcs && a.weight >= 1 ==> c[a.src] < c[a.dst])
      && (sem == Intended ==> forall a :: a in g.arcs ==> c[a.src] <= c[a.dst] - a.weight)
  {
    var c := Alap(g, sem);
    AlapTarget(g, sem);
    forall v | 0 <= v < g.nodes - 1
      ensures OutArcs(g.arcs, v) == [] ==> c[v] == MaxCycle
      ensures OutArcs(g.arcs, v) != [] ==> exists a :: a in OutArcs(g.arcs, v) && c[v] == c[a.dst] - a.weight
    {
      AlapNode(g, sem, v);
    }
    forall a | a in g.arcs
      ensures c[a.src] <= c[a.dst]
      ensures a.weight >= 1 ==> c[a.src] < c[a.dst]
      ensures sem == Intended ==> c[a.src] <= c[a.dst] - a.weight
    {
      AlapArc(g, sem, a);
    }
  }

  /** AlapProperties at one node. */
  lemma AlapNode(g: Graph, sem: Semantics, v: nat)
    requires WellFormed(g) && Forward(g) && 0 <= v < g.nodes - 1
    ensures var c := Alap(g, sem); var outs := OutArcs(g.arcs, v);
      && (outs == [] ==> c[v] == MaxCycle)
      && (outs != [] ==> exists a :: a in outs && c[v] == c[a.dst] - a.weight)
      && (forall a :: a in outs ==> c[v] <= c[a.dst])
      && (forall a :: a in outs && a.weight >= 1 ==> c[v] < c[a.dst])
      && (sem == Intended ==> forall a :: a in outs ==> c[v] <= c[a.dst] - a.weight)
  {
    var c := Alap(g, sem);
    var outs := OutArcs(g.arcs, v);
    AlapAt(g, sem, v);
    AlapAfterFrame(g, sem, 0, g.nodes);
    TightenedBounds(sem, MaxCycle, outs, c);
  }

  /**
    The reported ALAP value (MaxCycle minus the cycle) is 0 for the target,
    never negative, and never increases along an arc: a node reports at least
    what each of its successors reports.
   */
  lemma ReportedProperties(g: Graph, sem: Semantics)
    requires WellFormed(g) && Forward(g)
    ensures var r := Reported(g, sem);
      && r[Target(g)] == 0
      && (forall v :: 0 <= v < g.nodes ==> r[v] >= 0)
      && (forall a :: a in g.arcs ==> r[a.src] >= r[a.dst])
      && (forall a :: a in g.arcs && a.weight >= 1 ==> r[a.src] > r[a.dst])
  {
    AlapProperties(g, sem);
  }

  // ---------------------------------------------------------------------------
  // Closed graphs: where the listings put the gates

  lemma AsapSource(g: Graph, sem: Semantics)
    requires WellFormed(g)
    ensures Asap(g, sem)[0] == 0
  {
    AsapAfterFrame(g, sem, 1, g.nodes);
  }

  /** AsapProperties for one arc. */
  lemma AsapArc(g: Graph, sem: Semantics, a: Arc)
    requires WellFormed(g) && Forward(g) && a in g.arcs
    ensures var c := Asap(g, sem);
      && c[a.src] <= c[a.dst]
      && (a.weight >= 1 ==> c[a.src] < c[a.dst])
      && (sem == Intended ==> c[a.src] + a.weight <= c[a.dst])
  {
    InArcsComplete(g.arcs, a);
    AsapNode(g, sem, a.dst);
  }

  lemma AlapTarget(g: Graph, sem: Semantics)
    requires WellFormed(g)
    ensures Alap(g, sem)[Target(g)] == MaxCycle
    ensures forall v :: 0 <= v < g.nodes ==> Alap(g, sem)[v] <= MaxCycle
  {
    AlapAfterFrame(g, sem, 1, g.nodes);
  }

  /** AlapProperties for one arc. */
  lemma AlapArc(g: Graph, sem: Semantics, a: Arc)
    requires WellFormed(g) && Forward(g) && a in g.arcs
    ensures var c := Alap(g, sem);
      && c[a.src] <= c[a.dst]
      && (a.weight >= 1 ==> c[a.src] < c[a.dst])
      && (sem == Intended ==> c[a.src] <= c[a.dst] - a.weight)
  {
    OutArcsComplete(g.arcs, a);
    AlapNode(g, sem, a.src);
  }

  lemma {:induction false} AsapAfterEntry(g: Graph, sem: Semantics, v: nat)
    requires Closed(g) && 0 < v < g.nodes
    ensures Asap(g, sem)[v] >= 1
    decreases v
  {
    assert HasInArc(g, v);
    var a :| a in g.arcs && a.dst == v;
    AsapArc(g, sem, a);
    if a.src > 0 {
      AsapAfterEntry(g, sem, a.src);
    } else {
      AsapSource(g, sem);
    }
  }

  lemma {:induction false} AsapBeforeExit(g: Graph, sem: Semantics, v: nat)
    requires Closed(g) && 0 <= v < Target(g)
    ensures Asap(g, sem)[v] < Asap(g, sem)[Target(g)]
    decreases Target(g) - v
  {
    assert HasOutArc(g, v);
    var a :| a in g.arcs && a.src == v;
    AsapArc(g, sem, a);
    if a.dst < Target(g) {
      AsapBeforeExit(g, sem, a.dst);
    }
  }

  /**
    On a closed graph, with either guard, ASAP puts every gate strictly
    between the source's cycle 0 and the target's cycle, so a listing of the
    cycles 1 .. Total - 1 shows every gate.
   */
  lemma AsapInsideHorizon(g: Graph, sem: Semantics)
    requires Closed(g)
    ensures var c := Asap(g, sem);
      && c[0] == 0
      && forall v :: 0 < v < Target(g) ==> 1 <= c[v] < c[Target(g)]
  {
    AsapSource(g, sem);
    forall v | 0 < v < Target(g)
      ensures 1 <= Asap(g, sem)[v] < Asap(g, sem)[Target(g)]
    {
      AsapAfterEntry(g, sem, v);
      AsapBeforeExit(g, sem, v);
    }
  }

  lemma {:induction false} ReportedAfterExit(g: Graph, sem: Semantics, v: nat)
    requires Closed(g) && 0 <= v < Target(g)
    ensures Reported(g, sem)[v] >= 1
    decreases Target(g) - v
  {
    assert HasOutArc(g, v);
    var a :| a in g.arcs && a.src == v;
    AlapArc(g, sem, a);
    AlapTarget(g, sem);
    if a.dst < Target(g) {
      ReportedAfterExit(g, sem, a.dst);
    }
  }

  lemma {:induction false} ReportedBeforeEntry(g: Graph, sem: Semantics, v: nat)
    requires Closed(g) && 0 < v < g.nodes
    ensures Reported(g, sem)[v] < Reported(g, sem)[0]
    decreases v
  {
    assert HasInArc(g, v);
    var a :| a in g.arcs && a.dst == v;
    AlapArc(g, sem, a);
    if a.src > 0 {
      ReportedBeforeEntry(g, sem, a.src);
    }
  }

  /**
    On a closed graph, with either guard, the ALAP report puts the target at
    0, the source at a Total of at least 1, and every gate strictly between,
    so the count-down listing from Total - 1 to 1 shows every gate.
   */
  lemma ReportedInsideHorizon(g: Graph, sem: Semantics)
    requires Closed(g)
    ensures var r := Reported(g, sem);
      && r[Target(g)] == 0
      && r[0] >= 1
      && forall v :: 0 < v < Target(g) ==> 1 <= r[v] < r[0]
  {
    AlapTarget(g, sem);
    ReportedAfterExit(g, sem, 0);
    forall v | 0 < v < Target(g)
      ensures 1 <= Reported(g, sem)[v] < Reported(g, sem)[0]
    {
      ReportedAfterExit(g, sem, v);
      ReportedBeforeEntry(g, sem, v);
    }
  }

  // ---------------------------------------------------------------------------
  // The intended passes agree

  lemma {:induction false} SlackUpTo(g: Graph, v: nat)
    requires Closed(g) && v < g.nodes
    ensures Asap(g, Intended)[v] + Reported(g, Intended)[v] <= Reported(g, Intended)[0]
    decreases v
  {
    if v > 0 {
      var c := Asap(g, Intended);
      assert HasInArc(g, v);
      var b :| b in g.arcs && b.dst == v;
      InArcsComplete(g.arcs, b);
      AsapNode(g, Intended, v);
      var a :| a in InArcs(g.arcs, v) && c[v] == c[a.src] + a.weight;
      AlapArc(g, Intended, a);
      SlackUpTo(g, a.src);
    } else {
      AsapSource(g, Intended);
    }
  }

  lemma {:induction false} LengthCoversFrom(g: Graph, v: nat)
    requires Closed(g) && v < g.nodes
    ensures Asap(g, Intended)[v] + Reported(g, Intended)[v] <= Asap(g, Intended)[Target(g)]
    decreases g.nodes - v
  {
    if v < Target(g) {
      var c := Alap(g, Intended);
      assert HasOutArc(g, v);
      var b :| b in g.arcs && b.src == v;
      OutArcsComplete(g.arcs, b);
      AlapNode(g, Intended, v);
      var a :| a in OutArcs(g.arcs, v) && c[v] == c[a.dst] - a.weight;
      AsapArc(g, Intended, a);
      LengthCoversFrom(g, a.dst);
    } else {
      AlapTarget(g, Intended);
    }
  }

  /**
    With the intended guards on a closed graph the two passes agree on the
    schedule length: the ALAP report of the source equals the ASAP cycle of
    the target; and every node's slack is non-negative: its ALAP cycle in
    forward time (Total minus its report) is at least its ASAP cycle.
   */
  lemma IntendedPassesAgree(g: Graph)
    requires Closed(g)
    ensures var total := Asap(g, Intended)[Target(g)];
      && Reported(g, Intended)[0] == total
      && forall v :: 0 <= v < g.nodes ==> Asap(g, Intended)[v] <= total - Reported(g, Intended)[v]
  {
    AsapSource(g, Intended);
    AlapTarget(g, Intended);
    SlackUpTo(g, Target(g));
    LengthCoversFrom(g, 0);
    forall v | 0 <= v < g.nodes
      ensures Asap(g, Intended)[v] <= Asap(g, Intended)[Target(g)] - Reported(g, Intended)[v]
    {
      SlackUpTo(g, v);
    }
  }
}
