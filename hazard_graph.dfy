/**
  The dependence graph that `DependGraph::Init` builds, as a function of the
  circuit. The builder walks the gates in order; of each gate's operands, all
  but the last are reads and the last is the write. Per qubit it remembers the
  last writer (initially the source) and every node that ever read it.

  Node ids: 0 is the source, gate i is node i + 1, and the target, created
  after all gates, is node |ckt| + 1.
 */
module HazardGraph {
  import opened Digraph

  /** The parts of a gate the builder reads. */
  datatype Gate = Gate(operands: seq<nat>, latency: nat, qasm: string)

  /** The gate the two sentinels wrap. Its latency never becomes an arc weight. */
  const NopLabel: string := "nop"
  const Nop: Gate := Gate([], 1, NopLabel)

  /** The builder indexes its per-qubit tables with every operand unchecked. */
  predicate OperandsInRange(ckt: seq<Gate>, nQubits: nat) {
    forall i, j :: 0 <= i < |ckt| && 0 <= j < |ckt[i].operands| ==> ckt[i].operands[j] < nQubits
  }

  /** Latency of the gate node v wraps (the sentinels wrap a nop). */
  function NodeLatency(ckt: seq<Gate>, v: nat): nat {
    if 1 <= v <= |ckt| then ckt[v - 1].latency else Nop.latency
  }

  /** Weight of a RAW or WAW arc leaving `prod`: 1 for the source, else the producer's latency. */
  function Weight(ckt: seq<Gate>, prod: nat): nat {
    if prod == 0 then 1 else NodeLatency(ckt, prod)
  }

  /**
    Weight of a WAR arc from `reader` when the written qubit's last writer is
    `prod`. As written, the guard tests the last writer, not the reader.
   */
  function WarWeight(ckt: seq<Gate>, sem: Semantics, prod: nat, reader: nat): nat {
    match sem
    case AsWritten => if prod == 0 then 1 else NodeLatency(ckt, reader)
    case Intended => Weight(ckt, reader)
  }

  /** The gate writes q: q is its last operand. */
  predicate Writes(gate: Gate, q: nat) {
    |gate.operands| > 0 && gate.operands[|gate.operands| - 1] == q
  }

  /** The number of read positions: every operand but the last. */
  function ReadEnd(gate: Gate): nat {
    if |gate.operands| == 0 then 0 else |gate.operands| - 1
  }

  /** The gate reads q: q occurs before its last operand. */
  predicate Reads(gate: Gate, q: nat) {
    q in gate.operands[..ReadEnd(gate)]
  }

  /** The gate reads the very qubit it writes. */
  predicate SelfRead(gate: Gate) {
    |gate.operands| > 0 && Reads(gate, gate.operands[|gate.operands| - 1])
  }

  predicate NoSelfRead(ckt: seq<Gate>) {
    forall i :: 0 <= i < |ckt| ==> !SelfRead(ckt[i])
  }

  predicate NonEmptyOperands(ckt: seq<Gate>) {
    forall i :: 0 <= i < |ckt| ==> |ckt[i].operands| > 0
  }

  /** Occurrences of q among the first m operands. */
  function Count(ops: seq<nat>, q: nat, m: nat): nat
    requires m <= |ops|
  {
    if m == 0 then 0 else Count(ops, q, m - 1) + (if ops[m - 1] == q then 1 else 0)
  }

  function Repeat(x: nat, n: nat): (r: seq<nat>)
    ensures |r| == n && forall k :: 0 <= k < n ==> r[k] == x
  {
    if n == 0 then [] else Repeat(x, n - 1) + [x]
  }

  /** The last writer of q just before gate i is processed (0, the source, if none). */
  function WriterBefore(ckt: seq<Gate>, i: nat, q: nat): nat
    requires i <= |ckt|
  {
    if i == 0 then 0
    else if Writes(ckt[i - 1], q) then i
    else WriterBefore(ckt, i - 1, q)
  }

  /**
    The reader list of q just before gate i is processed: one entry per read
    position of q in every earlier gate, oldest first. A write never clears it.
   */
  function ReadersBefore(ckt: seq<Gate>, i: nat, q: nat): seq<nat>
    requires i <= |ckt|
  {
    if i == 0 then []
    else ReadersBefore(ckt, i - 1, q) + Repeat(i, Count(ckt[i - 1].operands, q, ReadEnd(ckt[i - 1])))
  }

  /** The WAR arcs a write of q by node `cons` adds, one per recorded reader, in list order. */
  function WarArcs(ckt: seq<Gate>, sem: Semantics, readers: seq<nat>, prod: nat, cons: nat, q: nat): (r: seq<Arc>)
    ensures |r| == |readers|
    ensures forall k :: 0 <= k < |readers| ==> r[k] == Arc(readers[k], cons, WarWeight(ckt, sem, prod, readers[k]), q, WAR)
  {
    if readers == [] then []
    else
      var last := readers[|readers| - 1];
      WarArcs(ckt, sem, readers[..|readers| - 1], prod, cons, q) + [Arc(last, cons, WarWeight(ckt, sem, prod, last), q, WAR)]
  }

  /** The arcs added for operand j of gate i. */
  function OperandArcs(ckt: seq<Gate>, sem: Semantics, i: nat, j: nat): seq<Arc>
    requires i < |ckt| && j < |ckt[i].operands|
  {
    var ops := ckt[i].operands;
    var q := ops[j];
    var prod := WriterBefore(ckt, i, q);
    if j == |ops| - 1 then
      [Arc(prod, i + 1, Weight(ckt, prod), q, WAW)]
        + WarArcs(ckt, sem, ReadersBefore(ckt, i, q) + Repeat(i + 1, Count(ops, q, j)), prod, i + 1, q)
    else
      [Arc(prod, i + 1, Weight(ckt, prod), q, RAW)]
  }

  /** The arcs added for the first j operands of gate i. */
  function GateArcs(ckt: seq<Gate>, sem: Semantics, i: nat, j: nat): seq<Arc>
    requires i < |ckt| && j <= |ckt[i].operands|
  {
    if j == 0 then [] else GateArcs(ckt, sem, i, j - 1) + OperandArcs(ckt, sem, i, j - 1)
  }

  /** The arcs added for the first i gates. */
  function HazardArcs(ckt: seq<Gate>, sem: Semantics, i: nat): seq<Arc>
    requires i <= |ckt|
  {
    if i == 0 then [] else HazardArcs(ckt, sem, i - 1) + GateArcs(ckt, sem, i - 1, |ckt[i - 1].operands|)
  }

  /**
    The closing arcs added while the node iterator visits the nodes t - 1 down
    to k (the target itself is visited first and skipped): each node without
    out-arcs gets one arc to the target, of weight 1, cause 0, kind RAW.
   */
  function ClosingArcs(base: seq<Arc>, t: nat, k: nat): seq<Arc>
    decreases t - k
  {
    if k >= t then []
    else ClosingArcs(base, t, k + 1) + (if OutDegree(base, k) == 0 then [Arc(k, t, 1, 0, RAW)] else [])
  }

  /** The graph `Init` leaves behind. */
  function Build(ckt: seq<Gate>, sem: Semantics): Graph {
    var hazards := HazardArcs(ckt, sem, |ckt|);
    Graph(|ckt| + 2, hazards + ClosingArcs(hazards, |ckt| + 1, 0))
  }

  // ---------------------------------------------------------------------------
  // Reference characterisations of the builder's per-qubit state

  lemma {:induction false} CountPositive(ops: seq<nat>, q: nat, m: nat)
    requires m <= |ops|
    ensures Count(ops, q, m) > 0 <==> q in ops[..m]
  {
    if m > 0 {
      CountPositive(ops, q, m - 1);
      assert ops[..m] == ops[..m - 1] + [ops[m - 1]];
    }
  }

  /**
    The last writer is the newest earlier gate whose last operand is q, or the
    source when no earlier gate writes q.
   */
  lemma {:induction false} WriterBeforeIsLatest(ckt: seq<Gate>, i: nat, q: nat)
    requires i <= |ckt|
    ensures var w := WriterBefore(ckt, i, q);
      && w <= i
      && (w == 0 <==> forall k :: 0 <= k < i ==> !Writes(ckt[k], q))
      && (w > 0 ==> Writes(ckt[w - 1], q))
      && (forall k :: w <= k < i ==> !Writes(ckt[k], q))
  {
    if i > 0 && !Writes(ckt[i - 1], q) {
      WriterBeforeIsLatest(ckt, i - 1, q);
    }
  }

  /**
    A node is on the reader list of q before gate i exactly when it is an
    earlier gate that reads q, whatever was written in between.
   */
  lemma {:induction false} ReadersBeforeMembers(ckt: seq<Gate>, i: nat, q: nat)
    requires i <= |ckt|
    ensures forall r :: r in ReadersBefore(ckt, i, q) <==> 1 <= r <= i && Reads(ckt[r - 1], q)
  {
    if i > 0 {
      ReadersBeforeMembers(ckt, i - 1, q);
      var gate := ckt[i - 1];
      CountPositive(gate.operands, q, ReadEnd(gate));
      var tail := Repeat(i, Count(gate.operands, q, ReadEnd(gate)));
      assert forall r :: r in tail <==> r == i && Reads(gate, q);
    }
  }

  // ---------------------------------------------------------------------------
  // Facts about single arcs

  /** What every arc of the builder's per-gate phase satisfies (before the closing arcs). */
  predicate HazardArcOk(ckt: seq<Gate>, sem: Semantics, a: Arc) {
    && 1 <= a.dst <= |ckt|
    && a.src <= a.dst
    && (a.src == 0 ==> a.weight == 1)
    && (sem == Intended ==> a.weight == Weight(ckt, a.src))
    && (a.src == a.dst ==> a.kind == WAR && SelfRead(ckt[a.dst - 1]))
  }

  lemma OperandArcFacts(ckt: seq<Gate>, sem: Semantics, i: nat, j: nat)
    requires i < |ckt| && j < |ckt[i].operands|
    ensures forall a :: a in OperandArcs(ckt, sem, i, j) ==> a.dst == i + 1 && HazardArcOk(ckt, sem, a)
  {
    var ops := ckt[i].operands;
    var q := ops[j];
    var prod := WriterBefore(ckt, i, q);
    WriterBeforeIsLatest(ckt, i, q);
    if j == |ops| - 1 {
      var readers := ReadersBefore(ckt, i, q) + Repeat(i + 1, Count(ops, q, j));
      ReadersBeforeMembers(ckt, i, q);
      CountPositive(ops, q, j);
      var war := WarArcs(ckt, sem, readers, prod, i + 1, q);
      forall a | a in war
        ensures a.dst == i + 1 && HazardArcOk(ckt, sem, a)
      {
        var k :| 0 <= k < |war| && war[k] == a;
        var r := readers[k];
        assert r in readers;
        assert 1 <= r <= i + 1;
        if r == i + 1 {
          assert ReadEnd(ckt[i]) == j;
          assert q in ops[..j];
        }
      }
    }
  }

  lemma {:induction false} GateArcFacts(ckt: seq<Gate>, sem: Semantics, i: nat, j: nat)
    requires i < |ckt| && j <= |ckt[i].operands|
    ensures forall a :: a in GateArcs(ckt, sem, i, j) ==> a.dst == i + 1 && HazardArcOk(ckt, sem, a)
  {
    if j > 0 {
      var prev, last := GateArcs(ckt, sem, i, j - 1), OperandArcs(ckt, sem, i, j - 1);
      assert GateArcs(ckt, sem, i, j) == prev + last;
      GateArcFacts(ckt, sem, i, j - 1);
      OperandArcFacts(ckt, sem, i, j - 1);
      forall a: Arc | a in prev + last
        ensures a.dst == i + 1 && HazardArcOk(ckt, sem, a)
      {
        if a in prev {
        } else {
          assert a in last;
        }
      }
    }
  }

  lemma {:induction false} HazardArcFacts(ckt: seq<Gate>, sem: Semantics, i: nat)
    requires i <= |ckt|
    ensures forall a :: a in HazardArcs(ckt, sem, i) ==> a.dst <= i && HazardArcOk(ckt, sem, a)
  {
    if i > 0 {
      HazardArcFacts(ckt, sem, i - 1);
      GateArcFacts(ckt, sem, i - 1, |ckt[i - 1].operands|);
    }
  }

  /**
    Closing arcs: each goes from a node in [k, t) that had no out-arc to the
    target with weight 1, cause 0, kind RAW; every such node gets one.
   */
  lemma {:induction false} ClosingArcFacts(base: seq<Arc>, t: nat, k: nat)
    ensures forall a :: a in ClosingArcs(base, t, k) ==>
      a == Arc(a.src, t, 1, 0, RAW) && k <= a.src < t && OutDegree(base, a.src) == 0
    ensures forall v :: k <= v < t && OutDegree(base, v) == 0 ==> Arc(v, t, 1, 0, RAW) in ClosingArcs(base, t, k)
    decreases t - k
  {
    if k < t {
      ClosingArcFacts(base, t, k + 1);
    }
  }

  // ---------------------------------------------------------------------------
  // Where the arcs of one operand end up

  /** The hazard arcs of a three-gate circuit, gate by gate. */
  lemma HazardArcsOfThree(ckt: seq<Gate>, sem: Semantics)
    requires |ckt| == 3
    ensures HazardArcs(ckt, sem, 3) == GateArcs(ckt, sem, 0, |ckt[0].operands|)
      + GateArcs(ckt, sem, 1, |ckt[1].operands|) + GateArcs(ckt, sem, 2, |ckt[2].operands|)
  {
    var h0, h1, h2 := GateArcs(ckt, sem, 0, |ckt[0].operands|), GateArcs(ckt, sem, 1, |ckt[1].operands|), GateArcs(ckt, sem, 2, |ckt[2].operands|);
    assert HazardArcs(ckt, sem, 1) == HazardArcs(ckt, sem, 0) + h0 == h0;
    assert HazardArcs(ckt, sem, 2) == HazardArcs(ckt, sem, 1) + h1;
    assert HazardArcs(ckt, sem, 3) == HazardArcs(ckt, sem, 2) + h2;
  }

  /** The hazard arcs of a two-gate circuit, gate by gate. */
  lemma HazardArcsOfTwo(ckt: seq<Gate>, sem: Semantics)
    requires |ckt| == 2
    ensures HazardArcs(ckt, sem, 2) == GateArcs(ckt, sem, 0, |ckt[0].operands|) + GateArcs(ckt, sem, 1, |ckt[1].operands|)
  {
    var h0, h1 := GateArcs(ckt, sem, 0, |ckt[0].operands|), GateArcs(ckt, sem, 1, |ckt[1].operands|);
    assert HazardArcs(ckt, sem, 1) == HazardArcs(ckt, sem, 0) + h0 == h0;
    assert HazardArcs(ckt, sem, 2) == HazardArcs(ckt, sem, 1) + h1;
  }

  lemma {:induction false} GateArcsGrow(ckt: seq<Gate>, sem: Semantics, i: nat, j: nat, m: nat)
    requires i < |ckt| && j < m <= |ckt[i].operands|
    ensures forall a :: a in OperandArcs(ckt, sem, i, j) ==> a in GateArcs(ckt, sem, i, m)
  {
    var prev, last := GateArcs(ckt, sem, i, m - 1), OperandArcs(ckt, sem, i, m - 1);
    assert GateArcs(ckt, sem, i, m) == prev + last;
    if m - 1 > j {
      GateArcsGrow(ckt, sem, i, j, m - 1);
      assert forall a :: a in prev ==> a in prev + last;
    } else {
      assert forall a :: a in last ==> a in prev + last;
    }
  }

  lemma {:induction false} HazardArcsGrow(ckt: seq<Gate>, sem: Semantics, i: nat, m: nat)
    requires i < m <= |ckt|
    ensures forall a :: a in GateArcs(ckt, sem, i, |ckt[i].operands|) ==> a in HazardArcs(ckt, sem, m)
  {
    var prev, last := HazardArcs(ckt, sem, m - 1), GateArcs(ckt, sem, m - 1, |ckt[m - 1].operands|);
    assert HazardArcs(ckt, sem, m) == prev + last;
    if m - 1 > i {
      HazardArcsGrow(ckt, sem, i, m - 1);
      assert forall a :: a in prev ==> a in prev + last;
    } else {
      assert forall a :: a in last ==> a in prev + last;
    }
  }

  lemma OperandArcsInBuild(ckt: seq<Gate>, sem: Semantics, i: nat, j: nat)
    requires i < |ckt| && j < |ckt[i].operands|
    ensures forall a :: a in OperandArcs(ckt, sem, i, j) ==> a in Build(ckt, sem).arcs
  {
    GateArcsGrow(ckt, sem, i, j, |ckt[i].operands|);
    HazardArcsGrow(ckt, sem, i, |ckt|);
  }

  // ---------------------------------------------------------------------------
  // Properties of the built graph

  /**
    Reads: an operand before the last adds a RAW arc from the qubit's last
    writer with cause q, weighing 1 from the source and the writer's latency
    otherwise, and the gate joins the qubit's reader list.
   */
  lemma ReadAddsRawArc(ckt: seq<Gate>, sem: Semantics, i: nat, j: nat)
    requires i < |ckt| && j + 1 < |ckt[i].operands|
    ensures var q := ckt[i].operands[j];
      var prod := WriterBefore(ckt, i, q);
      && prod <= i
      && Arc(prod, i + 1, if prod == 0 then 1 else ckt[prod - 1].latency, q, RAW) in Build(ckt, sem).arcs
      && i + 1 in ReadersBefore(ckt, i + 1, q)
  {
    var q := ckt[i].operands[j];
    WriterBeforeIsLatest(ckt, i, q);
    RawArcOfRead(ckt, sem, i, j);
    ReadersBeforeMembers(ckt, i + 1, q);
    assert q in ckt[i].operands[..ReadEnd(ckt[i])];
  }

  /** The RAW arc of a read, with the weight the builder gives it. */
  lemma RawArcOfRead(ckt: seq<Gate>, sem: Semantics, i: nat, j: nat)
    requires i < |ckt| && j + 1 < |ckt[i].operands|
    ensures var q := ckt[i].operands[j];
      var prod := WriterBefore(ckt, i, q);
      Arc(prod, i + 1, Weight(ckt, prod), q, RAW) in Build(ckt, sem).arcs
  {
    OperandArcsInBuild(ckt, sem, i, j);
    assert OperandArcs(ckt, sem, i, j)[0] in OperandArcs(ckt, sem, i, j);
  }

  /** The readers list a write walks, the gate itself appended once per read of the qubit. */
  function WriteReaders(ckt: seq<Gate>, i: nat): seq<nat>
    requires i < |ckt| && |ckt[i].operands| > 0
  {
    var ops := ckt[i].operands;
    var q := ops[|ops| - 1];
    ReadersBefore(ckt, i, q) + Repeat(i + 1, Count(ops, q, |ops| - 1))
  }

  /** Each reader the write walks gets a WAR arc into the writing gate. */
  lemma WarArcsOfWrite(ckt: seq<Gate>, sem: Semantics, i: nat)
    requires i < |ckt| && |ckt[i].operands| > 0
    ensures var q := ckt[i].operands[|ckt[i].operands| - 1];
      var prod := WriterBefore(ckt, i, q);
      forall r :: r in WriteReaders(ckt, i) ==>
        Arc(r, i + 1, WarWeight(ckt, sem, prod, r), q, WAR) in Build(ckt, sem).arcs
  {
    var ops := ckt[i].operands;
    var j := |ops| - 1;
    var q := ops[j];
    var prod := WriterBefore(ckt, i, q);
    OperandArcsInBuild(ckt, sem, i, j);
    var readers := WriteReaders(ckt, i);
    var war := WarArcs(ckt, sem, readers, prod, i + 1, q);
    assert forall a :: a in war ==> a in OperandArcs(ckt, sem, i, j);
    forall r | r in readers
      ensures Arc(r, i + 1, WarWeight(ckt, sem, prod, r), q, WAR) in Build(ckt, sem).arcs
    {
      var k :| 0 <= k < |readers| && readers[k] == r;
      assert war[k] in war;
    }
  }

  /** The readers a write walks: every earlier gate that read the qubit, and the gate itself if it reads it. */
  lemma WriteReadersMembers(ckt: seq<Gate>, i: nat)
    requires i < |ckt| && |ckt[i].operands| > 0
    ensures var q := ckt[i].operands[|ckt[i].operands| - 1];
      && (forall r :: 1 <= r <= i && Reads(ckt[r - 1], q) ==> r in WriteReaders(ckt, i))
      && (SelfRead(ckt[i]) ==> i + 1 in WriteReaders(ckt, i))
  {
    var ops := ckt[i].operands;
    var j := |ops| - 1;
    var q := ops[j];
    ReadersBeforeMembers(ckt, i, q);
    var readers := WriteReaders(ckt, i);
    if SelfRead(ckt[i]) {
      CountPositive(ops, q, j);
      assert readers[|ReadersBefore(ckt, i, q)|] == i + 1;
    }
  }

  /** The WAW arc of a write, and the gate becomes the qubit's last writer. */
  lemma WawArcOfWrite(ckt: seq<Gate>, sem: Semantics, i: nat)
    requires i < |ckt| && |ckt[i].operands| > 0
    ensures var q := ckt[i].operands[|ckt[i].operands| - 1];
      var prod := WriterBefore(ckt, i, q);
      && Arc(prod, i + 1, Weight(ckt, prod), q, WAW) in Build(ckt, sem).arcs
      && WriterBefore(ckt, i + 1, q) == i + 1
  {
    var ops := ckt[i].operands;
    var j := |ops| - 1;
    OperandArcsInBuild(ckt, sem, i, j);
    assert OperandArcs(ckt, sem, i, j)[0] in OperandArcs(ckt, sem, i, j);
  }

  /**
    Writes: the last operand adds a WAW arc from the last writer, becomes the
    last writer, and adds a WAR arc from every node ever put on the reader
    list, the gate itself included when it also reads the qubit.
   */
  lemma WriteAddsWawAndWarArcs(ckt: seq<Gate>, sem: Semantics, i: nat)
    requires i < |ckt| && |ckt[i].operands| > 0
    ensures var q := ckt[i].operands[|ckt[i].operands| - 1];
      var prod := WriterBefore(ckt, i, q);
      && Arc(prod, i + 1, Weight(ckt, prod), q, WAW) in Build(ckt, sem).arcs
      && WriterBefore(ckt, i + 1, q) == i + 1
      && (forall r :: 1 <= r <= i && Reads(ckt[r - 1], q) ==>
            Arc(r, i + 1, WarWeight(ckt, sem, prod, r), q, WAR) in Build(ckt, sem).arcs)
      && (SelfRead(ckt[i]) ==> Arc(i + 1, i + 1, WarWeight(ckt, sem, prod, i + 1), q, WAR) in Build(ckt, sem).arcs)
  {
    WawArcOfWrite(ckt, sem, i);
    WarArcsOfWrite(ckt, sem, i);
    WriteReadersMembers(ckt, i);
  }

  /**
    Arc direction and closure: every arc goes from a node to itself or a later
    one; the source has no in-arc and the target no out-arc; every other node
    has an out-arc; an arc into the target is a closing arc (weight 1, cause 0,
    RAW); every arc leaving the source weighs 1.
   */
  lemma BuildShape(ckt: seq<Gate>, sem: Semantics)
    ensures var g := Build(ckt, sem);
      && WellFormed(g)
      && Monotone(g)
      && (forall a :: a in g.arcs ==> a.dst != 0 && a.src != Target(g))
      && (forall v :: 0 <= v < Target(g) ==> HasOutArc(g, v))
      && (forall a :: a in g.arcs && a.dst == Target(g) ==> a.weight == 1 && a.cause == 0 && a.kind == RAW)
      && (forall a :: a in g.arcs && a.src == 0 ==> a.weight == 1)
  {
    var g := Build(ckt, sem);
    var t := |ckt| + 1;
    var hazards := HazardArcs(ckt, sem, |ckt|);
    HazardArcFacts(ckt, sem, |ckt|);
    ClosingArcFacts(hazards, t, 0);
    forall v | 0 <= v < t
      ensures HasOutArc(g, v)
    {
      OutDegreeZero(hazards, v);
      if OutDegree(hazards, v) == 0 {
        assert Arc(v, t, 1, 0, RAW) in g.arcs;
      } else {
        var a :| a in hazards && a.src == v;
        assert a in g.arcs;
      }
    }
  }

  /** The built graph has a self-loop exactly when some gate reads the qubit it writes. */
  lemma BuildSelfLoops(ckt: seq<Gate>, sem: Semantics)
    ensures SelfLoopFree(Build(ckt, sem)) <==> NoSelfRead(ckt)
  {
    if !NoSelfRead(ckt) {
      var i :| 0 <= i < |ckt| && SelfRead(ckt[i]);
      WriteAddsWawAndWarArcs(ckt, sem, i);
    } else {
      var hazards := HazardArcs(ckt, sem, |ckt|);
      HazardArcFacts(ckt, sem, |ckt|);
      ClosingArcFacts(hazards, |ckt| + 1, 0);
    }
  }

  /**
    Since no arc points backwards, a self-loop is the only possible cycle: the
    built graph is a DAG exactly when no gate reads the qubit it writes.
   */
  lemma BuildAcyclic(ckt: seq<Gate>, sem: Semantics)
    ensures Acyclic(Build(ckt, sem)) <==> NoSelfRead(ckt)
  {
    BuildShape(ckt, sem);
    BuildSelfLoops(ckt, sem);
    MonotoneAcyclicIffSelfLoopFree(Build(ckt, sem));
  }

  /** A gate with at least one operand gets an in-arc from its first operand. */
  lemma GateHasInArc(ckt: seq<Gate>, sem: Semantics, i: nat)
    requires i < |ckt| && |ckt[i].operands| > 0
    ensures HasInArc(Build(ckt, sem), i + 1)
  {
    OperandArcsInBuild(ckt, sem, i, 0);
    var a := OperandArcs(ckt, sem, i, 0)[0];
    assert a in OperandArcs(ckt, sem, i, 0);
    assert a.dst == i + 1;
  }

  /**
    When every gate has operands and none reads what it writes, the built
    graph has the closed shape the scheduling theorems rely on.
   */
  lemma BuildClosed(ckt: seq<Gate>, sem: Semantics)
    requires NonEmptyOperands(ckt) && NoSelfRead(ckt)
    ensures Closed(Build(ckt, sem))
  {
    var g := Build(ckt, sem);
    var t := |ckt| + 1;
    BuildShape(ckt, sem);
    BuildSelfLoops(ckt, sem);
    assert Forward(g);
    forall v | 0 < v < g.nodes
      ensures HasInArc(g, v)
    {
      if v == t {
        assert HasOutArc(g, t - 1);
        var a :| a in g.arcs && a.src == t - 1;
        assert a.dst == t;
      } else {
        GateHasInArc(ckt, sem, v - 1);
      }
    }
  }

  /**
    With the intended WAR guard every hazard arc carries the latency of its
    producing node (1 for the source), as every other arc already does.
   */
  lemma IntendedWeights(ckt: seq<Gate>)
    ensures forall a :: a in Build(ckt, Intended).arcs && a.dst != Target(Build(ckt, Intended)) ==>
      a.weight == Weight(ckt, a.src)
  {
    HazardArcFacts(ckt, Intended, |ckt|);
    ClosingArcFacts(HazardArcs(ckt, Intended, |ckt|), |ckt| + 1, 0);
  }
}
