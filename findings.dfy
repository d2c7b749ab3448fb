/**
  Three small circuits on which a guard of the builder or of one of the two
  schedulers, as written, disagrees with what it evidently intends. For each,
  the arcs the builder adds are computed gate by gate, and the schedules of
  the two readings are compared on the resulting graph.
 */
module Findings {
  import opened Digraph
  import opened HazardGraph
  import opened Schedule

  // ---------------------------------------------------------------------------
  // Helpers: the built graph seen as per-gate arc lists plus the closing arcs

  lemma {:induction false} InArcsNone(arcs: seq<Arc>, v: nat)
    requires forall a :: a in arcs ==> a.dst != v
    ensures InArcs(arcs, v) == []
  {
    if arcs != [] {
      assert arcs[0] in arcs;
      InArcsNone(arcs[1..], v);
    }
  }

  /** The closing arcs all enter the target. */
  lemma ClosingInArcs(h: seq<Arc>, t: nat, v: nat)
    requires v != t
    ensures InArcs(ClosingArcs(h, t, 0), v) == []
  {
    ClosingArcFacts(h, t, 0);
    InArcsNone(ClosingArcs(h, t, 0), v);
  }

  /** A graph built from hazard arcs that all point forward inside [0, t) is well formed and forward. */
  lemma BuiltForward(g: Graph, h: seq<Arc>, t: nat)
    requires g.nodes == t + 1 && t >= 1 && g.arcs == h + ClosingArcs(h, t, 0)
    requires forall a :: a in h ==> a.src < a.dst < t
    ensures WellFormed(g) && Forward(g)
  {
    ClosingArcFacts(h, t, 0);
  }

  /** Off the target, the in-arcs of a built graph are those of its hazard arcs. */
  lemma BuiltInArcs(g: Graph, h: seq<Arc>, t: nat)
    requires g.arcs == h + ClosingArcs(h, t, 0)
    ensures forall v :: v != t ==> InArcs(g.arcs, v) == InArcs(h, v)
  {
    forall v | v != t
      ensures InArcs(g.arcs, v) == InArcs(h, v)
    {
      ClosingInArcs(h, t, v);
      InArcsAppend(h, ClosingArcs(h, t, 0), v);
    }
  }

  lemma InArcsOfParts(g0: seq<Arc>, g1: seq<Arc>, g2: seq<Arc>, v: nat)
    ensures InArcs(g0 + g1 + g2, v) == InArcs(g2, v) + InArcs(g1, v) + InArcs(g0, v)
  {
    InArcsAppend(g0 + g1, g2, v);
    InArcsAppend(g0, g1, v);
  }

  lemma OutArcsOfParts(g0: seq<Arc>, g1: seq<Arc>, g2: seq<Arc>, closing: seq<Arc>, v: nat)
    ensures OutArcs(g0 + g1 + g2 + closing, v) == OutArcs(closing, v) + OutArcs(g2, v) + OutArcs(g1, v) + OutArcs(g0, v)
  {
    OutArcsAppend(g0 + g1 + g2, closing, v);
    OutArcsAppend(g0 + g1, g2, v);
    OutArcsAppend(g0, g1, v);
  }

  /** The one-arc in-arc list of a single arc. */
  function Entering(a: Arc, v: nat): seq<Arc> {
    if a.dst == v then [a] else []
  }

  lemma InArcsPair(x: Arc, y: Arc, v: nat)
    ensures InArcs([x, y], v) == Entering(y, v) + Entering(x, v)
  {
    assert [x, y][1..] == [y];
    assert [y][1..] == [];
    assert InArcs([y], v) == InArcs([], v) + Entering(y, v);
  }

  lemma InArcsTwoPairs(x0: Arc, x1: Arc, y0: Arc, y1: Arc, v: nat)
    ensures InArcs([x0, x1] + [y0, y1], v) == Entering(y1, v) + Entering(y0, v) + Entering(x1, v) + Entering(x0, v)
  {
    InArcsAppend([x0, x1], [y0, y1], v);
    InArcsPair(x0, x1, v);
    InArcsPair(y0, y1, v);
  }

  // ---------------------------------------------------------------------------
  // The WAR weight guard tests the last writer instead of the reader

  /** g0 reads q0 (and writes q1); g1 then writes q0, which g0 read. */
  const WarCircuit: seq<Gate> := [Gate([0, 1], 5, "g0"), Gate([0], 1, "g1")]

  lemma WarCircuitGate0(sem: Semantics)
    ensures GateArcs(WarCircuit, sem, 0, 2) == [Arc(0, 1, 1, 0, RAW), Arc(0, 1, 1, 1, WAW)]
  {
    var c := WarCircuit;
    assert WriterBefore(c, 0, 0) == 0 && WriterBefore(c, 0, 1) == 0;
    assert OperandArcs(c, sem, 0, 0) == [Arc(0, 1, 1, 0, RAW)];
    assert ReadersBefore(c, 0, 1) == [];
    assert Count(c[0].operands, 1, 1) == 0;
    assert OperandArcs(c, sem, 0, 1) == [Arc(0, 1, 1, 1, WAW)];
    assert GateArcs(c, sem, 0, 1) == [Arc(0, 1, 1, 0, RAW)];
  }

  lemma WarCircuitGate1(sem: Semantics)
    ensures GateArcs(WarCircuit, sem, 1, 1) == [Arc(0, 2, 1, 0, WAW), Arc(1, 2, WarWeight(WarCircuit, sem, 0, 1), 0, WAR)]
  {
    var c := WarCircuit;
    var w := WarWeight(c, sem, 0, 1);
    assert WriterBefore(c, 1, 0) == 0;
    assert Count(c[0].operands, 0, 1) == 1;
    assert ReadersBefore(c, 1, 0) == [1];
    assert Count(c[1].operands, 0, 0) == 0;
    assert OperandArcs(c, sem, 1, 0) == [Arc(0, 2, 1, 0, WAW), Arc(1, 2, w, 0, WAR)];
  }

  lemma WarCircuitHazards(sem: Semantics)
    ensures HazardArcs(WarCircuit, sem, 2) ==
      [Arc(0, 1, 1, 0, RAW), Arc(0, 1, 1, 1, WAW)]
      + [Arc(0, 2, 1, 0, WAW), Arc(1, 2, WarWeight(WarCircuit, sem, 0, 1), 0, WAR)]
  {
    WarCircuitGate0(sem);
    WarCircuitGate1(sem);
    HazardArcsOfTwo(WarCircuit, sem);
  }

  /** The reader g0 takes 5 cycles, but as written the WAR arc weighs 1 because the producer is the source. */
  lemma WarCircuitWeight(sem: Semantics)
    ensures WarWeight(WarCircuit, sem, 0, 1) == if sem == AsWritten then 1 else 5
  {
  }

  /** The graph of the WAR circuit, whose only semantics-dependent part is the WAR weight w. */
  predicate WarCircuitGraph(g: Graph, w: nat) {
    && WellFormed(g) && Forward(g) && g.nodes == 4
    && Arc(1, 2, w, 0, WAR) in g.arcs
    && InArcs(g.arcs, 1) == [Arc(0, 1, 1, 1, WAW), Arc(0, 1, 1, 0, RAW)]
    && InArcs(g.arcs, 2) == [Arc(1, 2, w, 0, WAR), Arc(0, 2, 1, 0, WAW)]
  }

  lemma InArcsOfTwoPairs(arcs: seq<Arc>, h: seq<Arc>, x0: Arc, x1: Arc, y0: Arc, y1: Arc, t: nat)
    requires h == [x0, x1] + [y0, y1] && x0.dst == x1.dst == 1 && y0.dst == y1.dst == 2 && t > 2
    requires forall u :: u != t ==> InArcs(arcs, u) == InArcs(h, u)
    ensures InArcs(arcs, 1) == [x1, x0] && InArcs(arcs, 2) == [y1, y0]
  {
    InArcsTwoPairs(x0, x1, y0, y1, 1);
    InArcsTwoPairs(x0, x1, y0, y1, 2);
  }

  lemma WarCircuitParts(g: Graph, w: nat)
    requires g.nodes == 4
    requires g.arcs == [Arc(0, 1, 1, 0, RAW), Arc(0, 1, 1, 1, WAW)] + [Arc(0, 2, 1, 0, WAW), Arc(1, 2, w, 0, WAR)]
      + ClosingArcs([Arc(0, 1, 1, 0, RAW), Arc(0, 1, 1, 1, WAW)] + [Arc(0, 2, 1, 0, WAW), Arc(1, 2, w, 0, WAR)], 3, 0)
    ensures WarCircuitGraph(g, w)
  {
    var h := [Arc(0, 1, 1, 0, RAW), Arc(0, 1, 1, 1, WAW)] + [Arc(0, 2, 1, 0, WAW), Arc(1, 2, w, 0, WAR)];
    BuiltForward(g, h, 3);
    BuiltInArcs(g, h, 3);
    InArcsOfTwoPairs(g.arcs, h, h[0], h[1], h[2], h[3], 3);
    assert Arc(1, 2, w, 0, WAR) in InArcs(g.arcs, 2);
  }

  /** What the builder makes of the WAR circuit under either reading of the weight guard. */
  lemma WarCircuitShape(ckt: seq<Gate>, g: Graph, sem: Semantics)
    requires ckt == WarCircuit && g == Build(ckt, sem)
    ensures WarCircuitGraph(g, if sem == AsWritten then 1 else 5)
  {
    WarCircuitHazards(sem);
    WarCircuitWeight(sem);
    WarCircuitParts(g, if sem == AsWritten then 1 else 5);
  }

  lemma WarCircuitFirst(g: Graph, sem: Semantics, w: nat)
    requires WarCircuitGraph(g, w)
    ensures Asap(g, sem)[1] == 1
  {
    var c := Asap(g, sem);
    AsapSource(g, sem);
    AsapAt(g, sem, 1);
    var x := Arc(0, 1, 1, 1, WAW);
    assert [x, Arc(0, 1, 1, 0, RAW)][..1] == [x] && [x][..0] == [];
    assert Relaxed(sem, 0, [x], c) == AsapStep(sem, 0, 0, 1) == 1;
    assert c[1] == AsapStep(sem, 1, 0, 1);
  }

  /** ASAP, with either guard, on the WAR circuit's graph: g1 starts w cycles after g0. */
  lemma WarCircuitSchedule(g: Graph, sem: Semantics, w: nat)
    requires WarCircuitGraph(g, w) && w >= 1
    ensures Asap(g, sem)[1] == 1 && Asap(g, sem)[2] == 1 + w
  {
    var c := Asap(g, sem);
    AsapSource(g, sem);
    WarCircuitFirst(g, sem, w);
    AsapAt(g, sem, 2);
    var y := Arc(1, 2, w, 0, WAR);
    assert [y, Arc(0, 2, 1, 0, WAW)][..1] == [y] && [y][..0] == [];
    assert Relaxed(sem, 0, [y], c) == AsapStep(sem, 0, 1, w) == 1 + w;
    assert c[2] == AsapStep(sem, 1 + w, 0, 1);
  }

  /**
    As written the WAR arc g0 -> g1 weighs 1 (WarCircuitShape), because the
    last writer of q0 is the source, although g0 takes 5 cycles; ASAP then
    starts g1 one cycle after g0, while g0 still reads q0. With the guard on
    the reader the arc weighs g0's latency and g1 starts 5 cycles after g0.
   */
  lemma WarGuardCounterexample(g: Graph, fixed: Graph)
    requires WarCircuitGraph(g, 1) && WarCircuitGraph(fixed, 5)
    ensures WarCircuit[0].latency == 5 && Arc(1, 2, 1, 0, WAR) in g.arcs
    ensures Asap(g, AsWritten)[1] == 1 && Asap(g, AsWritten)[2] == 2
    ensures Asap(g, AsWritten)[2] < Asap(g, AsWritten)[1] + WarCircuit[0].latency
    ensures Asap(fixed, Intended)[2] == Asap(fixed, Intended)[1] + WarCircuit[0].latency == 6
  {
    WarCircuitSchedule(g, AsWritten, 1);
    WarCircuitSchedule(fixed, Intended, 5);
  }

  // ---------------------------------------------------------------------------
  // The ASAP guard compares against the predecessor's cycle, not its finish

  /** g0 writes q0 for 5 cycles, g1 writes q1, g2 reads q0 and writes q1. */
  const AsapCircuit: seq<Gate> := [Gate([0], 5, "g0"), Gate([1], 1, "g1"), Gate([0, 1], 1, "g2")]

  lemma AsapCircuitGates(sem: Semantics)
    ensures GateArcs(AsapCircuit, sem, 0, 1) == [Arc(0, 1, 1, 0, WAW)]
    ensures GateArcs(AsapCircuit, sem, 1, 1) == [Arc(0, 2, 1, 1, WAW)]
  {
    var c := AsapCircuit;
    assert WriterBefore(c, 0, 0) == 0;
    assert OperandArcs(c, sem, 0, 0) == [Arc(0, 1, 1, 0, WAW)];
    assert WriterBefore(c, 1, 1) == 0;
    assert OperandArcs(c, sem, 1, 0) == [Arc(0, 2, 1, 1, WAW)];
  }

  lemma AsapCircuitGate2(sem: Semantics)
    ensures GateArcs(AsapCircuit, sem, 2, 2) == [Arc(1, 3, 5, 0, RAW), Arc(2, 3, 1, 1, WAW)]
  {
    var c := AsapCircuit;
    assert WriterBefore(c, 2, 0) == 1;
    assert WriterBefore(c, 2, 1) == 2;
    assert ReadersBefore(c, 2, 1) == [];
    assert OperandArcs(c, sem, 2, 0) == [Arc(1, 3, 5, 0, RAW)];
    assert OperandArcs(c, sem, 2, 1) == [Arc(2, 3, 1, 1, WAW)];
    assert GateArcs(c, sem, 2, 1) == [Arc(1, 3, 5, 0, RAW)];
  }

  lemma AsapCircuitHazards(sem: Semantics)
    ensures HazardArcs(AsapCircuit, sem, 3) ==
      [Arc(0, 1, 1, 0, WAW)] + [Arc(0, 2, 1, 1, WAW)] + [Arc(1, 3, 5, 0, RAW), Arc(2, 3, 1, 1, WAW)]
  {
    AsapCircuitGates(sem);
    AsapCircuitGate2(sem);
    HazardArcsOfThree(AsapCircuit, sem);
  }

  lemma AsapCircuitInArcs(v: nat)
    requires 1 <= v <= 3
    ensures InArcs([Arc(1, 3, 5, 0, RAW), Arc(2, 3, 1, 1, WAW)], v) + InArcs([Arc(0, 2, 1, 1, WAW)], v)
        + InArcs([Arc(0, 1, 1, 0, WAW)], v)
      == if v == 1 then [Arc(0, 1, 1, 0, WAW)]
         else if v == 2 then [Arc(0, 2, 1, 1, WAW)]
         else [Arc(2, 3, 1, 1, WAW), Arc(1, 3, 5, 0, RAW)]
  {
  }

  /** The graph of the ASAP circuit, the same under both readings. */
  predicate AsapCircuitGraph(g: Graph) {
    && WellFormed(g) && Forward(g) && g.nodes == 5
    && Arc(1, 3, 5, 0, RAW) in g.arcs
    && InArcs(g.arcs, 1) == [Arc(0, 1, 1, 0, WAW)]
    && InArcs(g.arcs, 2) == [Arc(0, 2, 1, 1, WAW)]
    && InArcs(g.arcs, 3) == [Arc(2, 3, 1, 1, WAW), Arc(1, 3, 5, 0, RAW)]
  }

  lemma AsapCircuitParts(g: Graph)
    requires g.nodes == 5
    requires g.arcs == [Arc(0, 1, 1, 0, WAW)] + [Arc(0, 2, 1, 1, WAW)] + [Arc(1, 3, 5, 0, RAW), Arc(2, 3, 1, 1, WAW)]
      + ClosingArcs([Arc(0, 1, 1, 0, WAW)] + [Arc(0, 2, 1, 1, WAW)] + [Arc(1, 3, 5, 0, RAW), Arc(2, 3, 1, 1, WAW)], 4, 0)
    ensures AsapCircuitGraph(g)
  {
    var g0, g1, g2 := [Arc(0, 1, 1, 0, WAW)], [Arc(0, 2, 1, 1, WAW)], [Arc(1, 3, 5, 0, RAW), Arc(2, 3, 1, 1, WAW)];
    BuiltForward(g, g0 + g1 + g2, 4);
    BuiltInArcs(g, g0 + g1 + g2, 4);
    assert g2[0] in g.arcs;
    InArcsOfParts(g0, g1, g2, 1);
    InArcsOfParts(g0, g1, g2, 2);
    InArcsOfParts(g0, g1, g2, 3);
    AsapCircuitInArcs(1);
    AsapCircuitInArcs(2);
    AsapCircuitInArcs(3);
  }

  /** What the builder makes of the ASAP circuit. */
  lemma AsapCircuitShape(ckt: seq<Gate>, g: Graph, sem: Semantics)
    requires ckt == AsapCircuit && g == Build(ckt, sem)
    ensures AsapCircuitGraph(g)
  {
    AsapCircuitHazards(sem);
    AsapCircuitParts(g);
  }

  /** ASAP on the ASAP circuit's graph, under either reading of the guard. */
  lemma AsapCircuitSchedule(g: Graph, sem: Semantics)
    requires AsapCircuitGraph(g)
    ensures Asap(g, sem)[1] == 1 && Asap(g, sem)[3] == if sem == AsWritten then 2 else 6
  {
    var c := Asap(g, sem);
    AsapSource(g, sem);
    AsapAt(g, sem, 1);
    AsapAt(g, sem, 2);
    AsapAt(g, sem, 3);
    assert c[1] == 1;
    assert c[2] == 1;
    var x := Arc(2, 3, 1, 1, WAW);
    assert [x, Arc(1, 3, 5, 0, RAW)][..1] == [x];
    assert Relaxed(sem, 0, [x], c) == 2;
  }

  /**
    As written, g2 lands at cycle 2 although its in-arc from g0 (cycle 1,
    weight 5) asks for cycle 6: once the running cycle is past a
    predecessor's own cycle the guard skips that in-arc, whatever its weight.
    With the intended guard (compare against cycle + weight) g2 lands at 6.
   */
  lemma AsapGuardCounterexample(g: Graph, fixed: Graph)
    requires AsapCircuitGraph(g) && AsapCircuitGraph(fixed)
    ensures Arc(1, 3, 5, 0, RAW) in g.arcs
    ensures Asap(g, AsWritten)[1] == 1 && Asap(g, AsWritten)[3] == 2
    ensures Asap(g, AsWritten)[3] < Asap(g, AsWritten)[1] + 5
    ensures Asap(fixed, Intended)[3] == Asap(fixed, Intended)[1] + 5 == 6
  {
    AsapCircuitSchedule(g, AsWritten);
    AsapCircuitSchedule(fixed, Intended);
  }

  // ---------------------------------------------------------------------------
  // The ALAP guard compares against the successor's cycle, not its start minus weight

  /** g0 writes q0 for 5 cycles, g1 reads q0 and writes q1, g2 writes q0. */
  const AlapCircuit: seq<Gate> := [Gate([0], 5, "g0"), Gate([0, 1], 1, "g1"), Gate([0], 1, "g2")]

  lemma AlapCircuitGate0(sem: Semantics)
    ensures GateArcs(AlapCircuit, sem, 0, 1) == [Arc(0, 1, 1, 0, WAW)]
  {
    var c := AlapCircuit;
    assert WriterBefore(c, 0, 0) == 0;
    assert ReadersBefore(c, 0, 0) == [];
    assert OperandArcs(c, sem, 0, 0) == [Arc(0, 1, 1, 0, WAW)];
  }

  lemma AlapCircuitGate1(sem: Semantics)
    ensures GateArcs(AlapCircuit, sem, 1, 2) == [Arc(1, 2, 5, 0, RAW), Arc(0, 2, 1, 1, WAW)]
  {
    var c := AlapCircuit;
    assert WriterBefore(c, 1, 0) == 1;
    assert WriterBefore(c, 1, 1) == 0;
    assert ReadersBefore(c, 1, 1) == [];
    assert Count(c[1].operands, 1, 1) == 0;
    assert OperandArcs(c, sem, 1, 0) == [Arc(1, 2, 5, 0, RAW)];
    assert OperandArcs(c, sem, 1, 1) == [Arc(0, 2, 1, 1, WAW)];
    assert GateArcs(c, sem, 1, 1) == [Arc(1, 2, 5, 0, RAW)];
  }

  lemma AlapCircuitGate2(sem: Semantics)
    ensures GateArcs(AlapCircuit, sem, 2, 1) == [Arc(1, 3, 5, 0, WAW), Arc(2, 3, 1, 0, WAR)]
  {
    var c := AlapCircuit;
    assert WriterBefore(c, 2, 0) == 1;
    assert Count(c[1].operands, 0, 1) == 1;
    assert ReadersBefore(c, 2, 0) == [2];
    assert Count(c[2].operands, 0, 0) == 0;
    assert OperandArcs(c, sem, 2, 0) == [Arc(1, 3, 5, 0, WAW), Arc(2, 3, 1, 0, WAR)];
  }

  lemma AlapCircuitHazards(sem: Semantics)
    ensures HazardArcs(AlapCircuit, sem, 3) ==
      [Arc(0, 1, 1, 0, WAW)] + [Arc(1, 2, 5, 0, RAW), Arc(0, 2, 1, 1, WAW)] + [Arc(1, 3, 5, 0, WAW), Arc(2, 3, 1, 0, WAR)]
  {
    AlapCircuitGate0(sem);
    AlapCircuitGate1(sem);
    AlapCircuitGate2(sem);
    HazardArcsOfThree(AlapCircuit, sem);
  }

  /** Only the last gate of the ALAP circuit has no successor, so only it gets a closing arc. */
  lemma AlapCircuitClosing(h: seq<Arc>)
    requires Arc(0, 1, 1, 0, WAW) in h && Arc(1, 2, 5, 0, RAW) in h && Arc(2, 3, 1, 0, WAR) in h
    requires forall a :: a in h ==> a.src < 3
    ensures ClosingArcs(h, 4, 0) == [Arc(3, 4, 1, 0, RAW)]
  {
    OutArcsComplete(h, Arc(0, 1, 1, 0, WAW));
    OutArcsComplete(h, Arc(1, 2, 5, 0, RAW));
    OutArcsComplete(h, Arc(2, 3, 1, 0, WAR));
    OutDegreeZero(h, 3);
    assert ClosingArcs(h, 4, 3) == [Arc(3, 4, 1, 0, RAW)];
    assert ClosingArcs(h, 4, 2) == ClosingArcs(h, 4, 3);
    assert ClosingArcs(h, 4, 1) == ClosingArcs(h, 4, 2);
  }

  lemma AlapCircuitOutArcs(v: nat)
    requires 1 <= v <= 3
    ensures OutArcs([Arc(3, 4, 1, 0, RAW)], v) + OutArcs([Arc(1, 3, 5, 0, WAW), Arc(2, 3, 1, 0, WAR)], v)
        + OutArcs([Arc(1, 2, 5, 0, RAW), Arc(0, 2, 1, 1, WAW)], v) + OutArcs([Arc(0, 1, 1, 0, WAW)], v)
      == if v == 3 then [Arc(3, 4, 1, 0, RAW)]
         else if v == 2 then [Arc(2, 3, 1, 0, WAR)]
         else [Arc(1, 3, 5, 0, WAW), Arc(1, 2, 5, 0, RAW)]
  {
  }

  /** The graph of the ALAP circuit, the same under both readings. */
  predicate AlapCircuitGraph(g: Graph) {
    && WellFormed(g) && Forward(g) && g.nodes == 5
    && Arc(1, 2, 5, 0, RAW) in g.arcs
    && OutArcs(g.arcs, 3) == [Arc(3, 4, 1, 0, RAW)]
    && OutArcs(g.arcs, 2) == [Arc(2, 3, 1, 0, WAR)]
    && OutArcs(g.arcs, 1) == [Arc(1, 3, 5, 0, WAW), Arc(1, 2, 5, 0, RAW)]
  }

  lemma AlapCircuitArcs(arcs: seq<Arc>, v: nat)
    requires 1 <= v <= 3
    requires forall u :: OutArcs(arcs, u) == OutArcs([Arc(0, 1, 1, 0, WAW)] + [Arc(1, 2, 5, 0, RAW), Arc(0, 2, 1, 1, WAW)]
      + [Arc(1, 3, 5, 0, WAW), Arc(2, 3, 1, 0, WAR)] + [Arc(3, 4, 1, 0, RAW)], u)
    ensures OutArcs(arcs, v) == if v == 3 then [Arc(3, 4, 1, 0, RAW)]
                                else if v == 2 then [Arc(2, 3, 1, 0, WAR)]
                                else [Arc(1, 3, 5, 0, WAW), Arc(1, 2, 5, 0, RAW)]
  {
    OutArcsOfParts([Arc(0, 1, 1, 0, WAW)], [Arc(1, 2, 5, 0, RAW), Arc(0, 2, 1, 1, WAW)],
      [Arc(1, 3, 5, 0, WAW), Arc(2, 3, 1, 0, WAR)], [Arc(3, 4, 1, 0, RAW)], v);
    AlapCircuitOutArcs(v);
  }

  lemma AlapCircuitBuilt(g: Graph, h: seq<Arc>)
    requires g.nodes == 5 && g.arcs == h + ClosingArcs(h, 4, 0)
    requires Arc(0, 1, 1, 0, WAW) in h && Arc(1, 2, 5, 0, RAW) in h && Arc(2, 3, 1, 0, WAR) in h
    requires forall a :: a in h ==> a.src < a.dst < 4
    ensures WellFormed(g) && Forward(g) && g.arcs == h + [Arc(3, 4, 1, 0, RAW)]
  {
    AlapCircuitClosing(h);
    BuiltForward(g, h, 4);
  }

  lemma AlapCircuitParts(g: Graph)
    requires g.nodes == 5 && WellFormed(g) && Forward(g)
    requires g.arcs == [Arc(0, 1, 1, 0, WAW)] + [Arc(1, 2, 5, 0, RAW), Arc(0, 2, 1, 1, WAW)]
      + [Arc(1, 3, 5, 0, WAW), Arc(2, 3, 1, 0, WAR)] + [Arc(3, 4, 1, 0, RAW)]
    ensures AlapCircuitGraph(g)
  {
    AlapCircuitArcs(g.arcs, 1);
    AlapCircuitArcs(g.arcs, 2);
    AlapCircuitArcs(g.arcs, 3);
    assert Arc(1, 2, 5, 0, RAW) in OutArcs(g.arcs, 1);
  }

  lemma AlapCircuitHazardsForward(h: seq<Arc>)
    requires h == [Arc(0, 1, 1, 0, WAW)] + [Arc(1, 2, 5, 0, RAW), Arc(0, 2, 1, 1, WAW)]
      + [Arc(1, 3, 5, 0, WAW), Arc(2, 3, 1, 0, WAR)]
    ensures Arc(0, 1, 1, 0, WAW) in h && Arc(1, 2, 5, 0, RAW) in h && Arc(2, 3, 1, 0, WAR) in h
    ensures forall a :: a in h ==> a.src < a.dst < 4
  {
    assert h[0] in h && h[1] in h && h[4] in h;
  }

  lemma AlapCircuitFromHazards(g: Graph)
    requires g.nodes == 5
    requires g.arcs == [Arc(0, 1, 1, 0, WAW)] + [Arc(1, 2, 5, 0, RAW), Arc(0, 2, 1, 1, WAW)]
      + [Arc(1, 3, 5, 0, WAW), Arc(2, 3, 1, 0, WAR)]
      + ClosingArcs([Arc(0, 1, 1, 0, WAW)] + [Arc(1, 2, 5, 0, RAW), Arc(0, 2, 1, 1, WAW)]
          + [Arc(1, 3, 5, 0, WAW), Arc(2, 3, 1, 0, WAR)], 4, 0)
    ensures AlapCircuitGraph(g)
  {
    var h := [Arc(0, 1, 1, 0, WAW)] + [Arc(1, 2, 5, 0, RAW), Arc(0, 2, 1, 1, WAW)]
      + [Arc(1, 3, 5, 0, WAW), Arc(2, 3, 1, 0, WAR)];
    AlapCircuitHazardsForward(h);
    AlapCircuitBuilt(g, h);
    AlapCircuitParts(g);
  }

  /** What the builder makes of the ALAP circuit. */
  lemma AlapCircuitShape(ckt: seq<Gate>, g: Graph, sem: Semantics)
    requires ckt == AlapCircuit && g == Build(ckt, sem)
    ensures AlapCircuitGraph(g)
  {
    AlapCircuitHazards(sem);
    AlapCircuitFromHazards(g);
  }

  lemma AlapCircuitLate(g: Graph, sem: Semantics)
    requires AlapCircuitGraph(g)
    ensures Alap(g, sem)[3] == MaxCycle - 1 && Alap(g, sem)[2] == MaxCycle - 2
  {
    AlapTarget(g, sem);
    AlapAt(g, sem, 3);
    AlapAt(g, sem, 2);
  }

  /** ALAP on the ALAP circuit's graph, under either reading of the guard. */
  lemma AlapCircuitSchedule(g: Graph, sem: Semantics)
    requires AlapCircuitGraph(g)
    ensures Alap(g, sem)[2] == MaxCycle - 2
    ensures Alap(g, sem)[1] == if sem == AsWritten then MaxCycle - 6 else MaxCycle - 7
  {
    var c := Alap(g, sem);
    AlapCircuitLate(g, sem);
    AlapAt(g, sem, 1);
    var x := Arc(1, 3, 5, 0, WAW);
    assert [x, Arc(1, 2, 5, 0, RAW)][..1] == [x];
    assert Tightened(sem, MaxCycle, [x], c) == MaxCycle - 6;
  }

  /**
    As written, g0 reports 6 although its out-arc to g1 (which reports 2,
    weight 5) asks for 7: once the running cycle is below a successor's own
    cycle the guard skips that out-arc, whatever its weight. With the
    intended guard (compare against cycle - weight) g0 reports 7.
   */
  lemma AlapGuardCounterexample(g: Graph, fixed: Graph)
    requires AlapCircuitGraph(g) && AlapCircuitGraph(fixed)
    ensures Arc(1, 2, 5, 0, RAW) in g.arcs
    ensures Reported(g, AsWritten)[2] == 2 && Reported(g, AsWritten)[1] == 6
    ensures Reported(g, AsWritten)[1] < Reported(g, AsWritten)[2] + 5
    ensures Reported(fixed, Intended)[1] == Reported(fixed, Intended)[2] + 5 == 7
  {
    AlapCircuitSchedule(g, AsWritten);
    AlapCircuitSchedule(fixed, Intended);
  }
}
