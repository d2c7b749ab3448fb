/**
  The dependence-graph object: it builds the hazard graph of a circuit in
  place, then orders, schedules and lists it. Each method is proved against
  the specification functions of the other modules; the theorems about those
  functions carry over to what the methods compute.
 */
module DependenceGraph {
  import opened Digraph
  import opened HazardGraph
  import opened Schedule
  import opened Listing

  /** The labels of the gates, in circuit order. */
  function GateNames(ckt: seq<Gate>): seq<string> {
    seq(|ckt|, i requires 0 <= i < |ckt| => ckt[i].qasm)
  }

  /** The `name` node map after `Init`: the sentinels are labelled like a nop. */
  function Names(ckt: seq<Gate>): seq<string> {
    [Nop.qasm] + GateNames(ckt) + [Nop.qasm]
  }

  /** The readers list of q while gate i is processed, after its first j operands. */
  function ReadersAt(ckt: seq<Gate>, i: nat, j: nat, q: nat): seq<nat>
    requires i < |ckt| && j <= |ckt[i].operands|
  {
    var ops := ckt[i].operands;
    ReadersBefore(ckt, i, q) + Repeat(i + 1, Count(ops, q, if j < ReadEnd(ckt[i]) then j else ReadEnd(ckt[i])))
  }

  /** The last writer of q while gate i is processed, after its first j operands. */
  function WriterAt(ckt: seq<Gate>, i: nat, j: nat, q: nat): nat
    requires i < |ckt| && j <= |ckt[i].operands|
  {
    if j == |ckt[i].operands| then WriterBefore(ckt, i + 1, q) else WriterBefore(ckt, i, q)
  }

  /** The per-qubit tables just before gate i: last writer and readers list of every qubit. */
  predicate Tables(ckt: seq<Gate>, nQubits: nat, i: nat, lastWriter: array<nat>, lastReaders: array<seq<nat>>)
    requires i <= |ckt|
    reads lastWriter, lastReaders
  {
    && lastWriter.Length == nQubits && lastReaders.Length == nQubits
    && (forall q :: 0 <= q < nQubits ==> lastWriter[q] == WriterBefore(ckt, i, q))
    && (forall q :: 0 <= q < nQubits ==> lastReaders[q] == ReadersBefore(ckt, i, q))
  }

  /** The per-qubit tables while gate i is processed, after its first j operands. */
  predicate TablesAt(ckt: seq<Gate>, nQubits: nat, i: nat, j: nat, lastWriter: array<nat>, lastReaders: array<seq<nat>>)
    requires i < |ckt| && j <= |ckt[i].operands|
    reads lastWriter, lastReaders
  {
    && lastWriter.Length == nQubits && lastReaders.Length == nQubits
    && (forall q :: 0 <= q < nQubits ==> lastWriter[q] == WriterAt(ckt, i, j, q))
    && (forall q :: 0 <= q < nQubits ==> lastReaders[q] == ReadersAt(ckt, i, j, q))
  }

  /** Before its first operand, a gate has changed neither table. */
  lemma TablesStart(ckt: seq<Gate>, i: nat, q: nat)
    requires i < |ckt|
    ensures WriterAt(ckt, i, 0, q) == WriterBefore(ckt, i, q)
    ensures ReadersAt(ckt, i, 0, q) == ReadersBefore(ckt, i, q)
  {
    assert ReadersBefore(ckt, i, q) + [] == ReadersBefore(ckt, i, q);
  }

  /** After its last operand, the tables are those before the next gate. */
  lemma TablesEnd(ckt: seq<Gate>, i: nat, q: nat)
    requires i < |ckt|
    ensures WriterAt(ckt, i, |ckt[i].operands|, q) == WriterBefore(ckt, i + 1, q)
    ensures ReadersAt(ckt, i, |ckt[i].operands|, q) == ReadersBefore(ckt, i + 1, q)
  {
  }

  /** One operand, for the writer table: the last operand makes the gate the qubit's last writer. */
  lemma WriterStep(ckt: seq<Gate>, i: nat, j: nat, q: nat)
    requires i < |ckt| && j < |ckt[i].operands|
    ensures var ops := ckt[i].operands;
      WriterAt(ckt, i, j + 1, q) == if j == |ops| - 1 && q == ops[j] then i + 1 else WriterAt(ckt, i, j, q)
  {
    var ops := ckt[i].operands;
    assert WriterAt(ckt, i, j, q) == WriterBefore(ckt, i, q);
    if j == |ops| - 1 {
      assert Writes(ckt[i], q) <==> q == ops[j];
    }
  }

  /** One operand, for the readers table: any operand but the last appends the gate to the qubit's readers list. */
  lemma ReadersStep(ckt: seq<Gate>, i: nat, j: nat, q: nat)
    requires i < |ckt| && j < |ckt[i].operands|
    ensures var ops := ckt[i].operands;
      ReadersAt(ckt, i, j + 1, q) == if j < |ops| - 1 && q == ops[j] then ReadersAt(ckt, i, j, q) + [i + 1] else ReadersAt(ckt, i, j, q)
  {
    var ops := ckt[i].operands;
    var before := ReadersBefore(ckt, i, q);
    assert ReadEnd(ckt[i]) == |ops| - 1;
    if j < |ops| - 1 {
      var n := Count(ops, q, j);
      assert ReadersAt(ckt, i, j, q) == before + Repeat(i + 1, n);
      assert ReadersAt(ckt, i, j + 1, q) == before + Repeat(i + 1, Count(ops, q, j + 1));
      if q == ops[j] {
        assert Repeat(i + 1, n + 1) == Repeat(i + 1, n) + [i + 1];
        assert before + (Repeat(i + 1, n) + [i + 1]) == (before + Repeat(i + 1, n)) + [i + 1];
      }
    }
  }

  lemma TablesAtStart(ckt: seq<Gate>, nQubits: nat, i: nat, lastWriter: array<nat>, lastReaders: array<seq<nat>>)
    requires i < |ckt| && Tables(ckt, nQubits, i, lastWriter, lastReaders)
    ensures TablesAt(ckt, nQubits, i, 0, lastWriter, lastReaders)
  {
    forall q | 0 <= q < nQubits
      ensures lastWriter[q] == WriterAt(ckt, i, 0, q) && lastReaders[q] == ReadersAt(ckt, i, 0, q)
    {
      TablesStart(ckt, i, q);
    }
  }

  lemma TablesAtEnd(ckt: seq<Gate>, nQubits: nat, i: nat, lastWriter: array<nat>, lastReaders: array<seq<nat>>)
    requires i < |ckt| && TablesAt(ckt, nQubits, i, |ckt[i].operands|, lastWriter, lastReaders)
    ensures Tables(ckt, nQubits, i + 1, lastWriter, lastReaders)
  {
    forall q | 0 <= q < nQubits
      ensures lastWriter[q] == WriterBefore(ckt, i + 1, q) && lastReaders[q] == ReadersBefore(ckt, i + 1, q)
    {
      TablesEnd(ckt, i, q);
    }
  }

  /** The node gates once every gate has its node, and the target is about to get one. */
  lemma WrappedCircuit(gates: seq<Gate>, ckt: seq<Gate>)
    requires |gates| == |ckt| + 1 && gates[0] == Nop
    requires forall v :: 1 <= v <= |ckt| ==> gates[v] == ckt[v - 1]
    ensures gates + [Nop] == [Nop] + ckt + [Nop]
  {
    assert gates == [Nop] + ckt;
  }

  /** The node labels once every gate has its node, and the target is about to get one. */
  lemma LabelledCircuit(labels: seq<string>, ckt: seq<Gate>)
    requires |labels| == |ckt| + 1 && labels[0] == NopLabel
    requires forall v :: 1 <= v <= |ckt| ==> labels[v] == ckt[v - 1].qasm
    ensures labels + [NopLabel] == Names(ckt)
  {
    assert labels == [NopLabel] + GateNames(ckt);
  }

  /** A gate's arcs start empty, and once all its operands are done they extend the hazard arcs by one gate. */
  lemma HazardArcsNext(ckt: seq<Gate>, sem: Semantics, i: nat)
    requires i < |ckt|
    ensures HazardArcs(ckt, sem, i) + GateArcs(ckt, sem, i, 0) == HazardArcs(ckt, sem, i)
    ensures HazardArcs(ckt, sem, i + 1) == HazardArcs(ckt, sem, i) + GateArcs(ckt, sem, i, |ckt[i].operands|)
  {
    assert GateArcs(ckt, sem, i, 0) == [];
    assert HazardArcs(ckt, sem, i) + [] == HazardArcs(ckt, sem, i);
  }

  /** The arcs of the first j + 1 operands: those of the first j, then those of operand j. */
  lemma GateArcsNext(ckt: seq<Gate>, sem: Semantics, i: nat, j: nat)
    requires i < |ckt| && j < |ckt[i].operands|
    ensures GateArcs(ckt, sem, i, j + 1) == GateArcs(ckt, sem, i, j) + OperandArcs(ckt, sem, i, j)
  {
  }

  /**
    The arcs of operand j in terms of the tables the builder holds at that
    point: its producer is the qubit's last writer, no later than the gate
    before, every reader on the list is no later than the gate itself, and a
    write walks the readers list as it stands.
   */
  lemma OperandArcsShape(ckt: seq<Gate>, sem: Semantics, i: nat, j: nat)
    requires i < |ckt| && j < |ckt[i].operands|
    ensures var q := ckt[i].operands[j];
      var prod := WriterAt(ckt, i, j, q);
      && prod <= i
      && (forall r :: r in ReadersAt(ckt, i, j, q) ==> r <= i + 1)
      && OperandArcs(ckt, sem, i, j) ==
        (if j == |ckt[i].operands| - 1
         then [Arc(prod, i + 1, Weight(ckt, prod), q, WAW)]
           + WarArcs(ckt, sem, ReadersAt(ckt, i, j, q), prod, i + 1, q)
         else [Arc(prod, i + 1, Weight(ckt, prod), q, RAW)])
  {
    var ops := ckt[i].operands;
    var q := ops[j];
    WriterBeforeIsLatest(ckt, i, q);
    ReadersBeforeMembers(ckt, i, q);
    assert WriterAt(ckt, i, j, q) == WriterBefore(ckt, i, q);
    if j == |ops| - 1 {
      assert ReadEnd(ckt[i]) == j;
      assert ReadersAt(ckt, i, j, q) == ReadersBefore(ckt, i, q) + Repeat(i + 1, Count(ops, q, j));
    }
  }

  /**
    Visiting node k adds its closing arc, if any, after those of the later
    nodes; the closing arcs already added leave from later nodes, so the
    out-degree the visit reads is that of the hazard arcs.
   */
  lemma ClosingVisit(base: seq<Arc>, t: nat, k: nat)
    ensures OutDegree(base + ClosingArcs(base, t, k + 1), k) == OutDegree(base, k)
    ensures ClosingArcs(base, t, k) ==
      ClosingArcs(base, t, k + 1) + (if k < t && OutDegree(base, k) == 0 then [Arc(k, t, 1, 0, RAW)] else [])
  {
    var closing := ClosingArcs(base, t, k + 1);
    ClosingArcFacts(base, t, k + 1);
    OutDegreeZero(closing, k);
    OutArcsAppend(base, closing, k);
    if k >= t {
      assert closing + [] == closing;
    }
  }

  lemma Associative<T>(a: seq<T>, b: seq<T>, c: seq<T>)
    ensures (a + b) + c == a + (b + c)
  {
  }

  /** The joined text of one non-empty cycle, written part by part as the listing does. */
  method WriteCycle(parts: seq<string>) returns (line: string)
    ensures line == Join(parts)
  {
    line := "";
    var i := 0;
    while i < |parts|
      invariant 0 <= i <= |parts|
      invariant line == Join(parts[..i]) + (if 0 < i < |parts| then Separator else "")
    {
      assert parts[..i + 1][..i] == parts[..i];
      line := line + parts[i];
      if i != |parts| - 1 {
        line := line + Separator;
      }
      i := i + 1;
    }
    assert parts[..|parts|] == parts;
  }

  /** One more arc, scanned from the newest end, in front of the in-arcs of a suffix. */
  lemma InArcsStep(arcs: seq<Arc>, k: nat, v: nat)
    requires k < |arcs|
    ensures InArcs(arcs[k..], v) == InArcs(arcs[k + 1..], v) + (if arcs[k].dst == v then [arcs[k]] else [])
    ensures forall a :: a in InArcs(arcs[k..], v) ==> a in arcs
  {
    assert arcs[k..][1..] == arcs[k + 1..];
    forall a | a in InArcs(arcs[k..], v)
      ensures a in arcs
    {
      var j :| 0 <= j < |arcs[k..]| && arcs[k..][j] == a;
      assert arcs[k + j] == a;
    }
  }

  lemma OutArcsStep(arcs: seq<Arc>, k: nat, v: nat)
    requires k < |arcs|
    ensures OutArcs(arcs[k..], v) == OutArcs(arcs[k + 1..], v) + (if arcs[k].src == v then [arcs[k]] else [])
    ensures forall a :: a in OutArcs(arcs[k..], v) ==> a in arcs
  {
    assert arcs[k..][1..] == arcs[k + 1..];
    forall a | a in OutArcs(arcs[k..], v)
      ensures a in arcs
    {
      var j :| 0 <= j < |arcs[k..]| && arcs[k..][j] == a;
      assert arcs[k + j] == a;
    }
  }

  /** Folding one more in-arc is one ASAP step. */
  lemma RelaxedStep(sem: Semantics, ins: seq<Arc>, a: Arc, c: seq<int>)
    requires forall b :: b in ins ==> b.src < |c|
    requires a.src < |c|
    ensures Relaxed(sem, 0, ins + [a], c) == AsapStep(sem, Relaxed(sem, 0, ins, c), c[a.src], a.weight)
  {
    assert (ins + [a])[..|ins|] == ins;
  }

  /** Folding one more out-arc is one ALAP step. */
  lemma TightenedStep(sem: Semantics, outs: seq<Arc>, a: Arc, c: seq<int>)
    requires forall b :: b in outs ==> b.dst < |c|
    requires a.dst < |c|
    ensures Tightened(sem, MaxCycle, outs + [a], c) == AlapStep(sem, Tightened(sem, MaxCycle, outs, c), c[a.dst], a.weight)
  {
    assert (outs + [a])[..|outs|] == outs;
  }

  /** Visiting node k in the ASAP pass sets its entry to the fold over its in-arcs. */
  lemma AsapAfterNext(g: Graph, sem: Semantics, k: nat, c: seq<int>)
    requires WellFormed(g) && 1 <= k < g.nodes && c == AsapAfter(g, sem, k)
    ensures forall a :: a in g.arcs ==> a.src < |c|
    ensures AsapAfter(g, sem, k + 1) == c[k := Relaxed(sem, 0, InArcs(g.arcs, k), c)]
  {
  }

  /** Visiting node n - k - 1 in the ALAP pass sets its entry to the fold over its out-arcs. */
  lemma AlapAfterNext(g: Graph, sem: Semantics, k: nat, c: seq<int>)
    requires WellFormed(g) && 1 <= k < g.nodes && c == AlapAfter(g, sem, k)
    ensures forall a :: a in g.arcs ==> a.dst < |c|
    ensures AlapAfter(g, sem, k + 1) == c[g.nodes - k - 1 := Tightened(sem, MaxCycle, OutArcs(g.arcs, g.nodes - k - 1), c)]
  {
  }

  /** A zeroed map with the source set to 0 is the ASAP map after the source. */
  lemma AsapStart(g: Graph, sem: Semantics, c: seq<int>)
    requires WellFormed(g) && c == seq(g.nodes, _ => 0)[0 := 0]
    ensures c == AsapAfter(g, sem, 1)
  {
  }

  /** A zeroed map with the target set to MaxCycle is the ALAP map after the target. */
  lemma AlapStart(g: Graph, sem: Semantics, c: seq<int>)
    requires WellFormed(g) && c == seq(g.nodes, _ => 0)[g.nodes - 1 := MaxCycle]
    ensures c == AlapAfter(g, sem, 1)
  {
  }

  /** Scanning arc k after the newer ones: one ASAP step if it enters v, nothing otherwise. */
  lemma RelaxedSuffix(sem: Semantics, arcs: seq<Arc>, k: nat, v: nat, c: seq<int>)
    requires k < |arcs| && forall a :: a in arcs ==> a.src < |c|
    ensures forall a :: a in InArcs(arcs[k..], v) ==> a.src < |c|
    ensures forall a :: a in InArcs(arcs[k + 1..], v) ==> a.src < |c|
    ensures Relaxed(sem, 0, InArcs(arcs[k..], v), c)
      == if arcs[k].dst == v
         then AsapStep(sem, Relaxed(sem, 0, InArcs(arcs[k + 1..], v), c), c[arcs[k].src], arcs[k].weight)
         else Relaxed(sem, 0, InArcs(arcs[k + 1..], v), c)
  {
    InArcsStep(arcs, k, v);
    assert arcs[k] in arcs;
    if arcs[k].dst == v {
      RelaxedStep(sem, InArcs(arcs[k + 1..], v), arcs[k], c);
    } else {
      assert InArcs(arcs[k..], v) == InArcs(arcs[k + 1..], v);
    }
  }

  /** Scanning arc k after the newer ones: one ALAP step if it leaves v, nothing otherwise. */
  lemma TightenedSuffix(sem: Semantics, arcs: seq<Arc>, k: nat, v: nat, c: seq<int>)
    requires k < |arcs| && forall a :: a in arcs ==> a.dst < |c|
    ensures forall a :: a in OutArcs(arcs[k..], v) ==> a.dst < |c|
    ensures forall a :: a in OutArcs(arcs[k + 1..], v) ==> a.dst < |c|
    ensures Tightened(sem, MaxCycle, OutArcs(arcs[k..], v), c)
      == if arcs[k].src == v
         then AlapStep(sem, Tightened(sem, MaxCycle, OutArcs(arcs[k + 1..], v), c), c[arcs[k].dst], arcs[k].weight)
         else Tightened(sem, MaxCycle, OutArcs(arcs[k + 1..], v), c)
  {
    OutArcsStep(arcs, k, v);
    assert arcs[k] in arcs;
    if arcs[k].src == v {
      TightenedStep(sem, OutArcs(arcs[k + 1..], v), arcs[k], c);
    } else {
      assert OutArcs(arcs[k..], v) == OutArcs(arcs[k + 1..], v);
    }
  }

  /** The ASAP cycle of v: the running value over its in-arcs, newest arc first. */
  method RelaxNode(sem: Semantics, arcs: seq<Arc>, v: nat, cycle: seq<int>) returns (curr: int)
    requires forall a :: a in arcs ==> a.src < |cycle|
    ensures curr == Relaxed(sem, 0, InArcs(arcs, v), cycle)
  {
    curr := 0;
    var k := |arcs|;
    while k > 0
      invariant 0 <= k <= |arcs|
      invariant forall a :: a in InArcs(arcs[k..], v) ==> a.src < |cycle|
      invariant curr == Relaxed(sem, 0, InArcs(arcs[k..], v), cycle)
    {
      k := k - 1;
      RelaxedSuffix(sem, arcs, k, v, cycle);
      var a := arcs[k];
      if a.dst == v {
        var srcCycle := cycle[a.src];
        if (sem == AsWritten && curr <= srcCycle) || (sem == Intended && curr <= srcCycle + a.weight) {
          curr := srcCycle + a.weight;
        }
      }
    }
    assert arcs[0..] == arcs;
  }

  /** The ALAP cycle of v: the running value over its out-arcs, newest arc first. */
  method TightenNode(sem: Semantics, arcs: seq<Arc>, v: nat, cycle: seq<int>) returns (curr: int)
    requires forall a :: a in arcs ==> a.dst < |cycle|
    ensures curr == Tightened(sem, MaxCycle, OutArcs(arcs, v), cycle)
  {
    curr := MaxCycle;
    var k := |arcs|;
    while k > 0
      invariant 0 <= k <= |arcs|
      invariant forall a :: a in OutArcs(arcs[k..], v) ==> a.dst < |cycle|
      invariant curr == Tightened(sem, MaxCycle, OutArcs(arcs[k..], v), cycle)
    {
      k := k - 1;
      TightenedSuffix(sem, arcs, k, v, cycle);
      var a := arcs[k];
      if a.src == v {
        var dstCycle := cycle[a.dst];
        if (sem == AsWritten && curr >= dstCycle) || (sem == Intended && curr >= dstCycle - a.weight) {
          curr := dstCycle - a.weight;
        }
      }
    }
    assert arcs[0..] == arcs;
  }

  /** One step of the ASAP pass: node v, the next in id order, gets its cycle. */
  method AsapVisit(g: Graph, sem: Semantics, ghost done: nat, v: nat, cycle: seq<int>) returns (next: seq<int>)
    requires WellFormed(g) && 1 <= done < g.nodes && v == done && cycle == AsapAfter(g, sem, done)
    ensures next == AsapAfter(g, sem, done + 1)
  {
    AsapAfterNext(g, sem, done, cycle);
    var curr := RelaxNode(sem, g.arcs, v, cycle);
    next := cycle[v := curr];
  }

  /** One step of the ALAP pass: node v, the next in reverse id order, gets its cycle. */
  method AlapVisit(g: Graph, sem: Semantics, ghost done: nat, v: nat, cycle: seq<int>) returns (next: seq<int>)
    requires WellFormed(g) && 1 <= done < g.nodes && v == g.nodes - done - 1 && cycle == AlapAfter(g, sem, done)
    ensures next == AlapAfter(g, sem, done + 1)
  {
    AlapAfterNext(g, sem, done, cycle);
    var curr := TightenNode(sem, g.arcs, v, cycle);
    next := cycle[v := curr];
  }

  /**
    The ASAP pass over the node vector read back to front: the source at 0,
    then every other node at the fold over its in-arcs.
   */
  method AsapPass(g: Graph, sem: Semantics, order: seq<nat>) returns (cycle: seq<int>)
    requires WellFormed(g) && order == NodeMapOrder(g.nodes)
    ensures cycle == Asap(g, sem)
  {
    var n := g.nodes;
    cycle := seq(n, _ => 0);
    var k := n - 1;
    cycle := cycle[order[k] := 0];
    AsapStart(g, sem, cycle);
    ghost var done := 1;
    while k > 0
      invariant 0 <= k < n && done == n - k
      invariant cycle == AsapAfter(g, sem, done)
    {
      k := k - 1;
      cycle := AsapVisit(g, sem, done, order[k], cycle);
      done := done + 1;
    }
  }

  /**
    The ALAP pass over the node vector front to back: the target at MaxCycle,
    then every other node at the fold over its out-arcs.
   */
  method AlapPass(g: Graph, sem: Semantics, order: seq<nat>) returns (cycle: seq<int>)
    requires WellFormed(g) && order == NodeMapOrder(g.nodes)
    ensures cycle == Alap(g, sem)
  {
    var n := g.nodes;
    cycle := seq(n, _ => 0);
    var k := 0;
    cycle := cycle[order[k] := MaxCycle];
    AlapStart(g, sem, cycle);
    k := k + 1;
    ghost var done := 1;
    while k < n
      invariant 1 <= k <= n && done == k
      invariant cycle == AlapAfter(g, sem, done)
    {
      cycle := AlapVisit(g, sem, done, order[k], cycle);
      k := k + 1;
      done := done + 1;
    }
  }

  /** The bucket map after the nodes of `visit`: one entry per non-empty cycle, holding its labels in visit order. */
  ghost predicate Bucketed(buckets: map<int, seq<string>>, labels: seq<string>, visit: seq<nat>, key: seq<int>)
    requires Within(visit, |labels|) && Within(visit, |key|)
  {
    forall x ::
      && (x in buckets <==> BucketNodes(visit, key, x) != [])
      && (x in buckets ==> buckets[x] == BucketLabels(labels, visit, key, x))
  }

  /** Visiting one more node extends its own bucket by its label and leaves the others alone. */
  lemma BucketAppend(labels: seq<string>, visit: seq<nat>, key: seq<int>, v: nat, x: int)
    requires Within(visit, |labels|) && Within(visit, |key|) && v < |labels| && v < |key|
    ensures Within(visit + [v], |labels|) && Within(visit + [v], |key|)
    ensures BucketNodes(visit + [v], key, x) == BucketNodes(visit, key, x) + (if key[v] == x then [v] else [])
    ensures BucketLabels(labels, visit + [v], key, x) ==
      BucketLabels(labels, visit, key, x) + (if key[v] == x then [labels[v]] else [])
  {
    assert forall i :: 0 <= i < |visit| ==> visit[i] == (visit + [v])[i];
    assert (visit + [v])[..|visit|] == visit;
    var nodes := BucketNodes(visit, key, x);
    BucketNodesWithin(visit, key, x, |labels|);
    if key[v] == x {
      assert (nodes + [v])[..|nodes|] == nodes;
    } else {
      assert nodes + [] == nodes;
    }
  }

  /** Puts the label of node v, whose key is x, at the end of bucket x. */
  method AddToBucket(labels: seq<string>, ghost visit: seq<nat>, ghost key: seq<int>, v: nat, x: int,
                     buckets: map<int, seq<string>>) returns (next: map<int, seq<string>>)
    requires Within(visit, |labels|) && Within(visit, |key|) && v < |labels| && v < |key|
    requires x == key[v]
    requires Bucketed(buckets, labels, visit, key)
    ensures Within(visit + [v], |labels|) && Within(visit + [v], |key|)
    ensures Bucketed(next, labels, visit + [v], key)
  {
    BucketAppend(labels, visit, key, v, x);
    next := buckets[x := (if x in buckets then buckets[x] else []) + [labels[v]]];
    forall y
      ensures && (y in next <==> BucketNodes(visit + [v], key, y) != [])
              && (y in next ==> next[y] == BucketLabels(labels, visit + [v], key, y))
    {
      BucketAppend(labels, visit, key, v, y);
    }
  }

  /** The line of cycle x, read off the bucket map: its labels joined, or the nop line. */
  method CycleLine(buckets: map<int, seq<string>>, ghost labels: seq<string>, ghost visit: seq<nat>, ghost key: seq<int>, x: int)
    returns (line: string)
    requires Within(visit, |labels|) && Within(visit, |key|)
    requires Bucketed(buckets, labels, visit, key)
    ensures line == Line(labels, visit, key, x)
  {
    if x in buckets {
      line := WriteCycle(buckets[x]);
    } else {
      line := EmptyCycle;
    }
  }

  /** The lines of cycles 1 .. total - 1, in ascending order. */
  method ListUp(buckets: map<int, seq<string>>, ghost labels: seq<string>, ghost visit: seq<nat>, ghost key: seq<int>, total: int)
    returns (lines: seq<string>)
    requires Within(visit, |labels|) && Within(visit, |key|)
    requires Bucketed(buckets, labels, visit, key)
    ensures lines == LinesUp(labels, visit, key, 1, total)
  {
    lines := [];
    var curr := 1;
    while curr < total
      invariant 1 <= curr && (curr <= total || curr == 1)
      invariant lines == LinesUp(labels, visit, key, 1, curr)
    {
      var line := CycleLine(buckets, labels, visit, key, curr);
      lines := lines + [line];
      curr := curr + 1;
    }
  }

  /** The lines of cycles first down to 1, in descending order. */
  method ListDown(buckets: map<int, seq<string>>, ghost labels: seq<string>, ghost visit: seq<nat>, ghost key: seq<int>, first: int)
    returns (lines: seq<string>)
    requires Within(visit, |labels|) && Within(visit, |key|)
    requires Bucketed(buckets, labels, visit, key)
    ensures lines == LinesDown(labels, visit, key, first, 0)
  {
    lines := [];
    var curr := first;
    while curr > 0
      invariant curr == first || 0 <= curr < first
      invariant lines == LinesDown(labels, visit, key, first, curr)
    {
      var line := CycleLine(buckets, labels, visit, key, curr);
      lines := lines + [line];
      curr := curr - 1;
    }
  }

  class DependGraph {
    /** Which reading of the three guards this object follows. */
    const sem: Semantics
    /** The number of nodes added so far; their ids are 0 .. nodeCount - 1. */
    var nodeCount: nat
    /** Every arc with its weight, cause and kind, in the order it was added. */
    var arcs: seq<Arc>
    /** The gate each node wraps. */
    var instruction: seq<Gate>
    /** The label of each node. */
    var name: seq<string>
    /** The dummy source and target. */
    var s: nat
    var t: nat

    function Current(): Graph
      reads this
    {
      Graph(nodeCount, arcs)
    }

    /** A built graph: both sentinels exist, no arc points backwards, every node has a gate and a label. */
    predicate Valid()
      reads this
    {
      && WellFormed(Current())
      && Monotone(Current())
      && |instruction| == nodeCount
      && |name| == nodeCount
      && s == 0
      && t == nodeCount - 1
    }

    /** The gates of nodes 0 .. m: a nop for the source, then the first m gates. */
    predicate Wraps(ckt: seq<Gate>, m: nat)
      reads this`instruction
    {
      && m <= |ckt|
      && |instruction| == m + 1
      && instruction[0] == Nop
      && forall v :: 1 <= v <= m ==> instruction[v] == ckt[v - 1]
    }

    /** The labels of nodes 0 .. m: the nop label, then those of the first m gates. */
    predicate Labels(ckt: seq<Gate>, m: nat)
      reads this`name
    {
      && m <= |ckt|
      && |name| == m + 1
      && name[0] == NopLabel
      && forall v :: 1 <= v <= m ==> name[v] == ckt[v - 1].qasm
    }

    /** The nodes of the source and the first m gates, with their gates and labels. */
    predicate Nodes(ckt: seq<Gate>, m: nat)
      reads this`nodeCount, this`instruction, this`name
    {
      && m <= |ckt|
      && nodeCount == m + 1
      && Wraps(ckt, m)
      && Labels(ckt, m)
    }

    /** The state of `Init` just before gate i: the source and i gate nodes with their hazard arcs. */
    predicate Building(ckt: seq<Gate>, i: nat)
      reads this`nodeCount, this`instruction, this`name, this`arcs
    {
      && Nodes(ckt, i)
      && arcs == HazardArcs(ckt, sem, i)
    }

    constructor(sem: Semantics)
      ensures this.sem == sem
      ensures nodeCount == 0 && arcs == [] && instruction == [] && name == []
    {
      this.sem := sem;
      nodeCount := 0;
      arcs := [];
      instruction := [];
      name := [];
      s := 0;
      t := 0;
    }

    /**
      Builds the hazard graph of the circuit: the source, one node per gate
      with its RAW, WAW and WAR arcs, the target, and the closing arcs.
     */
    method Init(ckt: seq<Gate>, nQubits: nat)
      requires nodeCount == 0 && arcs == [] && instruction == [] && name == []
      requires OperandsInRange(ckt, nQubits)
      modifies this
      ensures Current() == Build(ckt, sem)
      ensures instruction == [Nop] + ckt + [Nop]
      ensures name == Names(ckt)
      ensures s == 0 && t == |ckt| + 1
      ensures Valid()
    {
      nodeCount := 1;
      instruction := [Nop];
      name := [NopLabel];
      s := 0;
      var lastReaders := new seq<nat>[nQubits](_ => []);
      var lastWriter := new nat[nQubits](_ => 0);
      AddGates(ckt, nQubits, lastWriter, lastReaders);
      AddTarget(ckt);
      CloseToTarget();
      BuildShape(ckt, sem);
    }

    /** One node per gate, in circuit order, each with its hazard arcs. */
    method AddGates(ckt: seq<Gate>, nQubits: nat, lastWriter: array<nat>, lastReaders: array<seq<nat>>)
      requires OperandsInRange(ckt, nQubits)
      requires Building(ckt, 0)
      requires Tables(ckt, nQubits, 0, lastWriter, lastReaders)
      modifies this`nodeCount, this`instruction, this`name, this`arcs, lastWriter, lastReaders
      ensures Building(ckt, |ckt|)
    {
      var i := 0;
      while i < |ckt|
        invariant 0 <= i <= |ckt|
        invariant Building(ckt, i)
        invariant Tables(ckt, nQubits, i, lastWriter, lastReaders)
      {
        AddGate(ckt, nQubits, i, lastWriter, lastReaders);
        i := i + 1;
      }
      assert i == |ckt|;
    }

    /** The target node, created after every gate; like the source it wraps a nop. */
    method AddTarget(ckt: seq<Gate>)
      requires Nodes(ckt, |ckt|)
      modifies this`nodeCount, this`instruction, this`name, this`t
      ensures nodeCount == |ckt| + 2 && t == |ckt| + 1
      ensures instruction == [Nop] + ckt + [Nop]
      ensures name == Names(ckt)
    {
      t := nodeCount;
      nodeCount := nodeCount + 1;
      WrappedCircuit(instruction, ckt);
      instruction := instruction + [Nop];
      LabelledCircuit(name, ckt);
      name := name + [NopLabel];
    }

    /** Adds the node of gate i and its arcs, operand by operand, keeping the tables up to date. */
    method AddGate(ckt: seq<Gate>, nQubits: nat, i: nat, lastWriter: array<nat>, lastReaders: array<seq<nat>>)
      requires OperandsInRange(ckt, nQubits) && i < |ckt|
      requires Building(ckt, i)
      requires Tables(ckt, nQubits, i, lastWriter, lastReaders)
      modifies this`nodeCount, this`instruction, this`name, this`arcs, lastWriter, lastReaders
      ensures Building(ckt, i + 1)
      ensures Tables(ckt, nQubits, i + 1, lastWriter, lastReaders)
    {
      AddNode(ckt, i);
      HazardArcsNext(ckt, sem, i);
      AddOperands(ckt, nQubits, i, lastWriter, lastReaders, HazardArcs(ckt, sem, i));
    }

    /** The arcs of gate i, operand by operand, with the tables updated after each. */
    method AddOperands(ckt: seq<Gate>, nQubits: nat, i: nat, lastWriter: array<nat>, lastReaders: array<seq<nat>>, ghost base: seq<Arc>)
      requires OperandsInRange(ckt, nQubits) && i < |ckt|
      requires nodeCount == i + 2 && Wraps(ckt, i + 1)
      requires arcs == base + GateArcs(ckt, sem, i, 0)
      requires Tables(ckt, nQubits, i, lastWriter, lastReaders)
      modifies this`arcs, lastWriter, lastReaders
      ensures arcs == base + GateArcs(ckt, sem, i, |ckt[i].operands|)
      ensures Tables(ckt, nQubits, i + 1, lastWriter, lastReaders)
    {
      TablesAtStart(ckt, nQubits, i, lastWriter, lastReaders);
      var count := |ckt[i].operands|;
      var j := 0;
      while j < count
        invariant 0 <= j <= count
        invariant arcs == base + GateArcs(ckt, sem, i, j)
        invariant TablesAt(ckt, nQubits, i, j, lastWriter, lastReaders)
      {
        AddOperand(ckt, nQubits, i, j, lastWriter, lastReaders, base);
        j := j + 1;
      }
      assert j == |ckt[i].operands|;
      TablesAtEnd(ckt, nQubits, i, lastWriter, lastReaders);
    }

    /** The node of gate i: it wraps the gate and carries its label. */
    method AddNode(ckt: seq<Gate>, i: nat)
      requires i < |ckt| && Nodes(ckt, i)
      modifies this`nodeCount, this`instruction, this`name
      ensures Nodes(ckt, i + 1)
    {
      nodeCount := nodeCount + 1;
      instruction := instruction + [ckt[i]];
      name := name + [ckt[i].qasm];
    }

    /** Operand j of gate i: its arcs, then the table update. */
    method AddOperand(ckt: seq<Gate>, nQubits: nat, i: nat, j: nat, lastWriter: array<nat>, lastReaders: array<seq<nat>>, ghost base: seq<Arc>)
      requires OperandsInRange(ckt, nQubits) && i < |ckt| && j < |ckt[i].operands|
      requires nodeCount == i + 2 && Wraps(ckt, i + 1)
      requires arcs == base + GateArcs(ckt, sem, i, j)
      requires TablesAt(ckt, nQubits, i, j, lastWriter, lastReaders)
      modifies this`arcs, lastWriter, lastReaders
      ensures arcs == base + GateArcs(ckt, sem, i, j + 1)
      ensures TablesAt(ckt, nQubits, i, j + 1, lastWriter, lastReaders)
    {
      var q := ckt[i].operands[j];
      assert q < nQubits;
      GateArcsNext(ckt, sem, i, j);
      AddOperandArcs(ckt, i, j, lastWriter[q], lastReaders[q]);
      Associative(base, GateArcs(ckt, sem, i, j), OperandArcs(ckt, sem, i, j));
      UpdateTables(ckt, nQubits, i, j, lastWriter, lastReaders);
    }

    /**
      The arcs of operand j of gate i: a RAW arc from the qubit's last writer
      for a read; for the last operand a WAW arc instead, then one WAR arc per
      entry of a copy of the qubit's readers list.
     */
    method AddOperandArcs(ckt: seq<Gate>, i: nat, j: nat, prod: nat, readers: seq<nat>)
      requires i < |ckt| && j < |ckt[i].operands|
      requires nodeCount == i + 2 && Wraps(ckt, i + 1)
      requires prod == WriterAt(ckt, i, j, ckt[i].operands[j])
      requires readers == ReadersAt(ckt, i, j, ckt[i].operands[j])
      modifies this`arcs
      ensures arcs == old(arcs) + OperandArcs(ckt, sem, i, j)
    {
      var ops := ckt[i].operands;
      var q := ops[j];
      OperandArcsShape(ckt, sem, i, j);
      NodeWeight(ckt, i + 1, prod);
      var w := if prod == 0 then 1 else instruction[prod].latency;
      if j == |ops| - 1 {
        arcs := arcs + [Arc(prod, nodeCount - 1, w, q, WAW)];
        AddWarArcs(ckt, readers, prod, nodeCount - 1, q);
        Associative(old(arcs), [Arc(prod, nodeCount - 1, w, q, WAW)], WarArcs(ckt, sem, readers, prod, nodeCount - 1, q));
      } else {
        arcs := arcs + [Arc(prod, nodeCount - 1, w, q, RAW)];
      }
    }

    /** The last operand makes the gate the qubit's last writer; any other puts it on the readers list. */
    method UpdateTables(ckt: seq<Gate>, nQubits: nat, i: nat, j: nat, lastWriter: array<nat>, lastReaders: array<seq<nat>>)
      requires OperandsInRange(ckt, nQubits) && i < |ckt| && j < |ckt[i].operands|
      requires nodeCount == i + 2
      requires TablesAt(ckt, nQubits, i, j, lastWriter, lastReaders)
      modifies lastWriter, lastReaders
      ensures TablesAt(ckt, nQubits, i, j + 1, lastWriter, lastReaders)
    {
      var ops := ckt[i].operands;
      var q := ops[j];
      assert q < nQubits;
      if j == |ops| - 1 {
        lastWriter[q] := nodeCount - 1;
      } else {
        lastReaders[q] := lastReaders[q] + [nodeCount - 1];
      }
      forall q' | 0 <= q' < nQubits
        ensures lastWriter[q'] == WriterAt(ckt, i, j + 1, q')
      {
        WriterStep(ckt, i, j, q');
      }
      forall q' | 0 <= q' < nQubits
        ensures lastReaders[q'] == ReadersAt(ckt, i, j + 1, q')
      {
        ReadersStep(ckt, i, j, q');
      }
    }

    /** The latency the builder reads off a node's gate is the node's latency. */
    lemma NodeWeight(ckt: seq<Gate>, m: nat, v: nat)
      requires Wraps(ckt, m) && v <= m
      ensures instruction[v].latency == NodeLatency(ckt, v)
      ensures (if v == 0 then 1 else instruction[v].latency) == Weight(ckt, v)
    {
    }

    /** One WAR arc into `cons` per recorded reader of q, in list order. */
    method AddWarArcs(ckt: seq<Gate>, readers: seq<nat>, prod: nat, cons: nat, q: nat)
      requires cons <= |ckt| && Wraps(ckt, cons)
      requires forall r :: r in readers ==> r <= cons
      modifies this`arcs
      ensures arcs == old(arcs) + WarArcs(ckt, sem, readers, prod, cons, q)
    {
      var k := 0;
      while k < |readers|
        invariant 0 <= k <= |readers|
        invariant arcs == old(arcs) + WarArcs(ckt, sem, readers[..k], prod, cons, q)
      {
        var r := readers[k];
        assert r in readers;
        var w := match sem
          case AsWritten => if prod == 0 then 1 else instruction[r].latency
          case Intended => if r == 0 then 1 else instruction[r].latency;
        assert readers[..k + 1][..k] == readers[..k];
        arcs := arcs + [Arc(r, cons, w, q, WAR)];
        k := k + 1;
      }
      assert readers[..k] == readers;
    }

    /** What the out-degree map reports for v: the arcs that currently leave it. */
    method OutDegreeOf(v: nat) returns (d: nat)
      ensures d == OutDegree(arcs, v)
    {
      d := 0;
      var k := |arcs|;
      while k > 0
        invariant 0 <= k <= |arcs|
        invariant d == OutDegree(arcs[k..], v)
      {
        k := k - 1;
        assert arcs[k..][1..] == arcs[k + 1..];
        if arcs[k].src == v {
          d := d + 1;
        }
      }
    }

    /**
      Visits the nodes newest first; every node but the target whose out-degree
      is still 0 gets an arc to the target.
     */
    method CloseToTarget()
      requires t == nodeCount - 1
      modifies this`arcs
      ensures arcs == old(arcs) + ClosingArcs(old(arcs), t, 0)
    {
      ghost var base := arcs;
      var k := nodeCount;
      while k > 0
        invariant 0 <= k <= nodeCount
        invariant arcs == base + ClosingArcs(base, t, k)
      {
        k := k - 1;
        ClosingVisit(base, t, k);
        var deg := OutDegreeOf(k);
        ghost var added := if k < t && OutDegree(base, k) == 0 then [Arc(k, t, 1, 0, RAW)] else [];
        if deg == 0 && k != t {
          arcs := arcs + [Arc(k, t, 1, 0, RAW)];
        }
        assert arcs == base + ClosingArcs(base, t, k + 1) + added;
      }
    }

    /**
      The node vector both schedulers walk, and whether the graph is a DAG
      (only reported, never acted on).
     */
    method TopologicalSort() returns (order: seq<nat>, isDag: bool)
      requires Valid()
      ensures order == NodeMapOrder(nodeCount)
      ensures isDag <==> Acyclic(Current())
    {
      isDag := true;
      var k := 0;
      while k < |arcs|
        invariant 0 <= k <= |arcs|
        invariant isDag <==> forall m :: 0 <= m < k ==> arcs[m].src != arcs[m].dst
      {
        if arcs[k].src == arcs[k].dst {
          isDag := false;
        }
        k := k + 1;
      }
      MonotoneAcyclicIffSelfLoopFree(Current());
      order := [];
      var v := 0;
      while v < nodeCount
        invariant 0 <= v <= nodeCount
        invariant |order| == v && forall m :: 0 <= m < v ==> order[m] == nodeCount - 1 - m
      {
        order := order + [nodeCount - 1 - v];
        v := v + 1;
      }
    }

    /** ASAP: topological order, then the ASAP pass over it. */
    method ScheduleAsap() returns (cycle: seq<int>, order: seq<nat>)
      requires Valid()
      ensures cycle == Asap(Current(), sem)
      ensures order == NodeMapOrder(nodeCount)
    {
      var isDag;
      order, isDag := TopologicalSort();
      cycle := AsapPass(Current(), sem, order);
    }

    /** ALAP: topological order, then the ALAP pass over it. */
    method ScheduleAlap() returns (cycle: seq<int>, order: seq<nat>)
      requires Valid()
      ensures cycle == Alap(Current(), sem)
      ensures order == NodeMapOrder(nodeCount)
    {
      var isDag;
      order, isDag := TopologicalSort();
      cycle := AlapPass(Current(), sem, order);
    }

    /** The ASAP listing: bucket the nodes walking the node vector back to front, then list cycles 1 .. Total - 1. */
    method QasmScheduledAsap() returns (lines: seq<string>)
      requires Valid()
      ensures lines == AsapListing(Current(), sem, name)
    {
      var cycle, order := ScheduleAsap();
      var n := nodeCount;
      ghost var visit := Ascending(n);
      var buckets: map<int, seq<string>> := map[];
      var k := |order|;
      while k > 0
        invariant 0 <= k <= n
        invariant Bucketed(buckets, name, visit[..n - k], cycle)
      {
        k := k - 1;
        var v := order[k];
        assert visit[..n - k] == visit[..n - k - 1] + [v];
        buckets := AddToBucket(name, visit[..n - k - 1], cycle, v, cycle[v], buckets);
      }
      assert visit[..n] == visit;
      var total := cycle[order[0]];
      lines := ListUp(buckets, name, visit, cycle, total);
    }

    /** The ALAP listing: bucket the nodes by reported value walking the node vector front to back, then list Total - 1 down to 1. */
    method QasmScheduledAlap() returns (lines: seq<string>)
      requires Valid()
      ensures lines == AlapListing(Current(), sem, name)
    {
      var cycle, order := ScheduleAlap();
      var n := nodeCount;
      assert |order| == n;
      ghost var reported := Reported(Current(), sem);
      var buckets: map<int, seq<string>> := map[];
      var k := 0;
      while k < |order|
        invariant 0 <= k <= n
        invariant Bucketed(buckets, name, order[..k], reported)
      {
        var v := order[k];
        assert order[..k + 1] == order[..k] + [v];
        buckets := AddToBucket(name, order[..k], reported, v, MaxCycle - cycle[v], buckets);
        k := k + 1;
      }
      assert order[..n] == order;
      var total := MaxCycle - cycle[order[n - 1]];
      var first := if total == 0 then MaxCycle else total - 1;
      lines := ListDown(buckets, name, order, reported, first);
    }
  }
}
