# OpenQL dependence graph and ASAP/ALAP scheduler, in Dafny

This project models the `DependGraph` class of OpenQL's `ql/dependenceGraph.h`
and proves properties of the model. The class builds the data-hazard graph of
a quantum circuit, sorts it topologically, schedules it as soon as possible
(ASAP) and as late as possible (ALAP), and writes each schedule as
scheduled QASM, one line per cycle.

- **Building the graph.** `Init` adds a dummy source node, then one node per
  gate, then a dummy target node. For every operand of a gate it adds an arc
  from the qubit's last writer. The last operand of a gate is its write and
  adds a WAW arc; every other operand is a read and adds a RAW arc. A write
  also adds a WAR arc from each node on the qubit's readers list. Finally,
  every node with no out-arc gets an arc to the target.
- **Sorting.** `TopologicalSort` yields the node vector that the graph
  library's node map walks: newest node first.
- **ASAP.** `ScheduleASAP` walks that vector back to front. It folds each
  node's in-arcs into a cycle.
- **ALAP.** `ScheduleALAP` walks it front to back, starting from `MAX_CYCLE`.
  It folds each node's out-arcs.
- **Listing.** `PrintQASMScheduledASAP`/`ALAP` put the node labels into one
  bucket per cycle. Each cycle strictly between the two sentinels becomes a
  line: its bucket's labels joined by `" | "`, or `"   nop"` for an empty
  cycle.

Layout:

- `digraph.dfy` (module `Digraph`) defines arcs, graphs and the iteration
  orders of the graph library: node ids 0, 1, … in creation order, node maps
  walked newest first, in/out arc iterators newest arc first.
- `hazard_graph.dfy` (module `HazardGraph`) gives the graph `Init` builds as a
  function of the circuit (`Build`), with the hazard, shape and acyclicity
  theorems.
- `schedule.dfy` (module `Schedule`) gives the two passes as functions
  (`Asap`, `Alap`, and `Reported` for the printed ALAP value), with their
  fixpoint, precedence, horizon and slack theorems.
- `listing.dfy` (module `Listing`) gives the two scheduled-QASM listings as
  functions of the graph, with what they show.
- `depend_graph.dfy` (module `DependenceGraph`) holds the class `DependGraph`.
  Its fields are the node count, the arcs, and the gate and label of every
  node. Its methods update them in place with loops, and each is proved
  against the functions above.
- `findings.dfy` (module `Findings`) holds three small circuits on which a
  guard of the code, as written, differs from what it evidently intends.

Three guards of the code are parameterised by
`Semantics = AsWritten | Intended`:

- the WAR weight guard (line 102);
- the ASAP guard (line 357);
- the ALAP guard (line 470).

The class takes the choice as a constructor argument. `AsWritten` reproduces
the code. `Intended` is the corrected behaviour that the main theorems are
stated for.

The model follows the code, in particular:

- a write does not clear the qubit's readers list, so later writes add WAR
  arcs from every earlier reader again;
- an arc's `cause` is the qubit it was added for;
- the WAR weight follows the guard at line 102 (see Findings);
- the ALAP pass anchors the target at `MAX_CYCLE`, and its report prints
  `MAX_CYCLE - cycle`, so the target reports 0 and the source the schedule
  length.

## Model

| member | source | states |
|---|---|---|
| Digraph.InArcs | ql/dependenceGraph.h:353 | every arc the in-arc iterator yields comes from the graph and enters v |
| Digraph.InArcsComplete | ql/dependenceGraph.h:353 | every arc of the graph is yielded by the in-arc iterator of its head |
| Digraph.InArcsAppend | ql/dependenceGraph.h:353 | arcs added later are yielded first |
| Digraph.OutArcs | ql/dependenceGraph.h:466 | every arc the out-arc iterator yields comes from the graph and leaves v |
| Digraph.OutArcsComplete | ql/dependenceGraph.h:466 | every arc of the graph is yielded by the out-arc iterator of its tail |
| Digraph.OutArcsAppend | ql/dependenceGraph.h:466 | arcs added later are yielded first |
| Digraph.OutDegreeZero | ql/dependenceGraph.h:127-130 | the out-degree map reports 0 exactly when no arc leaves the node |
| Digraph.PathAscends | ql/dependenceGraph.h:310 | along a walk in a graph with no backward arc the ids never decrease |
| Digraph.MonotoneAcyclicIffSelfLoopFree | ql/dependenceGraph.h:310-311 | with no backward arc, the graph is a DAG exactly when it has no self-loop |
| Digraph.NodeMapOrderIsTopological | ql/dependenceGraph.h:306-327 | the node vector starts at the target, ends at the source, and puts every arc's head no later than its tail |
| HazardGraph.Repeat | ql/dependenceGraph.h:113 | the pushes of one gate onto a readers list: n entries, each the given node |
| HazardGraph.WarWeight | ql/dependenceGraph.h:102-105 | the weight of a WAR arc; as written the guard tests the last writer, as intended the reader (what it gives is stated by IntendedWeights and WarGuardCounterexample) |
| HazardGraph.WriterBefore | ql/dependenceGraph.h:81-94 | the last-writer table just before a gate, 0 for the source; characterised by WriterBeforeIsLatest |
| HazardGraph.ReadersBefore | ql/dependenceGraph.h:97-113 | the readers list just before a gate, one entry per read position, never cleared; characterised by ReadersBeforeMembers |
| HazardGraph.OperandArcs | ql/dependenceGraph.h:81-115 | the arcs one operand adds: a WAW arc and the WAR arcs for the last operand, a RAW arc otherwise; stated by OperandArcFacts, ReadAddsRawArc and WriteAddsWawAndWarArcs |
| HazardGraph.ClosingArcs | ql/dependenceGraph.h:126-137 | the closing arcs, newest node first, from every node without out-arcs to the target; stated by ClosingArcFacts |
| HazardGraph.Build | ql/dependenceGraph.h:47-138 | the graph Init leaves: source, gates, target, the hazard arcs then the closing arcs; stated by BuildShape, BuildAcyclic and BuildClosed |
| HazardGraph.CountPositive | ql/dependenceGraph.h:113 | q was pushed at least once exactly when it occurs among the operands read so far |
| HazardGraph.WarArcs | ql/dependenceGraph.h:96-109 | one WAR arc per entry of the readers copy, in list order, with cause q and the guarded weight |
| HazardGraph.WriterBeforeIsLatest | ql/dependenceGraph.h:81-94 | the last writer is the newest earlier gate whose last operand is q, or the source if there is none |
| HazardGraph.ReadersBeforeMembers | ql/dependenceGraph.h:97-113 | a node is on q's readers list exactly when it is an earlier gate reading q; a write never removes it |
| HazardGraph.OperandArcFacts | ql/dependenceGraph.h:81-115 | every arc of one operand enters the gate, never points backwards, and weighs 1 when it leaves the source |
| HazardGraph.GateArcFacts | ql/dependenceGraph.h:76-117 | the same for all operands of a gate |
| HazardGraph.HazardArcFacts | ql/dependenceGraph.h:65-118 | the same for all gates; a self-loop is a WAR arc of a gate that reads what it writes |
| HazardGraph.ClosingArcFacts | ql/dependenceGraph.h:126-137 | a closing arc goes from a node without out-arcs to the target, weight 1, cause 0, RAW, and every such node gets one |
| HazardGraph.GateArcsGrow | ql/dependenceGraph.h:78-117 | an operand's arcs stay among its gate's arcs |
| HazardGraph.HazardArcsGrow | ql/dependenceGraph.h:65-118 | a gate's arcs stay among the arcs of every later stage |
| HazardGraph.OperandArcsInBuild | ql/dependenceGraph.h:47-138 | an operand's arcs are in the built graph |
| HazardGraph.ReadAddsRawArc | ql/dependenceGraph.h:81-115 | a read adds a RAW arc from the last writer (weight 1 from the source, else its latency) and puts the gate on the readers list |
| HazardGraph.RawArcOfRead | ql/dependenceGraph.h:81-89 | the RAW arc of a read, with the producer's weight |
| HazardGraph.WarArcsOfWrite | ql/dependenceGraph.h:96-109 | a write adds a WAR arc from every reader on the list it copies |
| HazardGraph.WriteReadersMembers | ql/dependenceGraph.h:97-113 | that list holds every earlier reader of q, and the gate itself when it also reads q |
| HazardGraph.WawArcOfWrite | ql/dependenceGraph.h:81-94 | a write adds a WAW arc from the last writer and becomes the last writer |
| HazardGraph.WriteAddsWawAndWarArcs | ql/dependenceGraph.h:81-110 | a write adds its WAW arc, becomes the last writer, and adds the WAR arcs, including a self-loop when the gate reads what it writes |
| HazardGraph.BuildShape | ql/dependenceGraph.h:47-138 | the built graph is well formed; no arc points backwards; nothing enters the source or leaves the target; every other node has an out-arc; arcs into the target are closing arcs; arcs out of the source weigh 1 |
| HazardGraph.BuildSelfLoops | ql/dependenceGraph.h:96-109 | the graph has a self-loop exactly when some gate reads the qubit it writes |
| HazardGraph.BuildAcyclic | ql/dependenceGraph.h:310-311 | the built graph is a DAG exactly when no gate reads the qubit it writes |
| HazardGraph.GateHasInArc | ql/dependenceGraph.h:78-83 | a gate with an operand has an in-arc |
| HazardGraph.BuildClosed | ql/dependenceGraph.h:47-138 | when every gate has operands and none reads what it writes, the graph is closed: arcs go forward, every node but the source has a predecessor and every node but the target a successor |
| HazardGraph.IntendedWeights | ql/dependenceGraph.h:102-105 | with the guard on the reader, every hazard arc weighs its producer's latency (1 for the source) |
| Schedule.RelaxedBounds | ql/dependenceGraph.h:352-361 | the ASAP fold never drops below its start, ends at or after every predecessor's cycle (strictly after for weight at least 1), and equals its start or some predecessor's cycle plus weight; with the intended guard it is at least every cycle plus weight |
| Schedule.RelaxedFrame | ql/dependenceGraph.h:355-356 | the ASAP fold reads the cycle map only at the sources of the arcs |
| Schedule.TightenedBounds | ql/dependenceGraph.h:465-474 | the ALAP fold, mirrored: never above its start, at or before every successor's cycle, equal to its start or some successor's cycle minus weight |
| Schedule.TightenedFrame | ql/dependenceGraph.h:468-469 | the ALAP fold reads the cycle map only at the heads of the arcs |
| Schedule.AsapStep | ql/dependenceGraph.h:357-359 | one in-arc update of the running ASAP cycle, with the guard as written or as intended; stated by RelaxedBounds and AsapGuardCounterexample |
| Schedule.AlapStep | ql/dependenceGraph.h:470-472 | one out-arc update of the running ALAP cycle, with the guard as written or as intended; stated by TightenedBounds and AlapGuardCounterexample |
| Schedule.Asap | ql/dependenceGraph.h:341-365 | the ASAP cycle map has one entry per node; its meaning is stated by AsapProperties |
| Schedule.Alap | ql/dependenceGraph.h:454-478 | the ALAP cycle map has one entry per node; its meaning is stated by AlapProperties |
| Schedule.Reported | ql/dependenceGraph.h:491 | the printed ALAP value has one entry per node; its meaning is stated by ReportedProperties |
| Schedule.AsapAfterFrame | ql/dependenceGraph.h:346-364 | once a node is visited it keeps its cycle; an unvisited node still holds 0; no cycle is negative |
| Schedule.AsapAt | ql/dependenceGraph.h:349-363 | on a forward graph a node's final cycle is the fold over its in-arcs of the final map |
| Schedule.AsapFixpoint | ql/dependenceGraph.h:341-365 | the ASAP map is a fixpoint of the fold, with the source at 0 and no negative cycle |
| Schedule.AlapAfterFrame | ql/dependenceGraph.h:459-477 | once a node is visited it keeps its cycle; an unvisited node still holds 0; none exceeds MAX_CYCLE |
| Schedule.AlapAt | ql/dependenceGraph.h:462-476 | a node's final ALAP cycle is the fold over its out-arcs of the final map |
| Schedule.AlapFixpoint | ql/dependenceGraph.h:454-478 | the ALAP map is a fixpoint of the fold, with the target at MAX_CYCLE |
| Schedule.AsapProperties | ql/dependenceGraph.h:341-365 | the source is at 0; a node with no in-arc is at 0; any other node is at some predecessor's cycle plus weight; every arc goes forward in time (strictly for weight at least 1); with the intended guard every arc's weight is respected |
| Schedule.AsapNode | ql/dependenceGraph.h:349-363 | the same facts at one node |
| Schedule.AsapNonNegative | ql/dependenceGraph.h:352 | no ASAP cycle is negative |
| Schedule.AsapSource | ql/dependenceGraph.h:347 | the source is at cycle 0 |
| Schedule.AsapArc | ql/dependenceGraph.h:353-360 | one arc goes forward in the ASAP schedule, respecting its weight under the intended guard |
| Schedule.AlapProperties | ql/dependenceGraph.h:454-478 | the target is at MAX_CYCLE; a node with no out-arc is at MAX_CYCLE; any other node is at some successor's cycle minus weight; every arc goes forward in time; with the intended guard every weight is respected |
| Schedule.AlapNode | ql/dependenceGraph.h:462-476 | the same facts at one node |
| Schedule.AlapTarget | ql/dependenceGraph.h:460 | the target is at MAX_CYCLE and nothing is above it |
| Schedule.AlapArc | ql/dependenceGraph.h:466-473 | one arc goes forward in the ALAP schedule, respecting its weight under the intended guard |
| Schedule.ReportedProperties | ql/dependenceGraph.h:491 | the printed ALAP value is 0 for the target, never negative, and never increases along an arc (strictly for weight at least 1) |
| Schedule.AsapAfterEntry | ql/dependenceGraph.h:347-362 | on a closed graph every node but the source is at cycle 1 or later |
| Schedule.AsapBeforeExit | ql/dependenceGraph.h:347-362 | on a closed graph every node but the target is before the target |
| Schedule.AsapInsideHorizon | ql/dependenceGraph.h:341-365 | with either guard, every gate's ASAP cycle lies strictly between the source's 0 and the target's total |
| Schedule.ReportedAfterExit | ql/dependenceGraph.h:491 | on a closed graph every node but the target reports 1 or more |
| Schedule.ReportedBeforeEntry | ql/dependenceGraph.h:491 | on a closed graph every node but the source reports less than the source |
| Schedule.ReportedInsideHorizon | ql/dependenceGraph.h:491 | with either guard the target reports 0, the source at least 1, and every gate strictly between |
| Schedule.SlackUpTo | ql/dependenceGraph.h:341-478 | with the intended guards a node's ASAP cycle plus its report never exceeds the source's report |
| Schedule.LengthCoversFrom | ql/dependenceGraph.h:341-478 | with the intended guards a node's ASAP cycle plus its report never exceeds the target's ASAP cycle |
| Schedule.IntendedPassesAgree | ql/dependenceGraph.h:341-478 | with the intended guards the source's ALAP report equals the ASAP length, and every node's ALAP start is no earlier than its ASAP start |
| Listing.JoinLength | ql/dependenceGraph.h:437-442 | a joined line holds every part plus one separator between each two |
| Listing.JoinEnds | ql/dependenceGraph.h:437-442 | a joined line starts with the first part and ends with the last |
| Listing.BucketNodesMembers | ql/dependenceGraph.h:420-423 | a bucket holds exactly the visited nodes whose cycle is its key |
| Listing.BucketNodesOrder | ql/dependenceGraph.h:420-423 | a bucket keeps the visit order: ascending ids for ASAP, descending for ALAP |
| Listing.Line | ql/dependenceGraph.h:433-447 | the line of one cycle: its bucket joined with the separator, or the nop line when the bucket is empty; stated by CycleLine |
| Listing.FirstListed | ql/dependenceGraph.h:640 | the first cycle the ALAP listing writes, `TotalCycles - 1` in `size_t`, wrapping when the total is 0 |
| Listing.AsapListing | ql/dependenceGraph.h:416-449 | the ASAP listing: buckets by ASAP cycle in node order, lines of cycles 1 .. Total - 1; stated by AsapListingShowsGates |
| Listing.AlapListing | ql/dependenceGraph.h:625-658 | the ALAP listing: buckets by reported value in node-vector order, lines from Total - 1 down to 1; stated by AlapListingShowsGates |
| Listing.LinesUp | ql/dependenceGraph.h:431-449 | the ascending listing has one line per cycle |
| Listing.LinesDown | ql/dependenceGraph.h:640-658 | the descending listing has one line per cycle |
| Listing.LinesUpAt | ql/dependenceGraph.h:431-449 | line k of an ascending listing is the line of cycle lo + k |
| Listing.LinesDownAt | ql/dependenceGraph.h:640-658 | line k of a descending listing is the line of cycle hi - k |
| Listing.AsapListingLines | ql/dependenceGraph.h:416-449 | on a closed graph the ASAP listing has Total - 1 lines, line k being cycle k + 1 |
| Listing.AsapListedGate | ql/dependenceGraph.h:420-431 | every gate sits in the bucket of a listed cycle |
| Listing.AsapListedBucket | ql/dependenceGraph.h:420-431 | a listed bucket holds neither the source nor the target |
| Listing.AsapListingShowsGates | ql/dependenceGraph.h:416-449 | the ASAP listing shows every gate exactly in its own cycle's line and no sentinel |
| Listing.AlapListingLines | ql/dependenceGraph.h:625-658 | on a closed graph the ALAP listing has Total - 1 lines, line k being cycle Total - 1 - k, with no wrap-around |
| Listing.AlapListedGate | ql/dependenceGraph.h:629-640 | every gate sits in the bucket of a listed reported cycle |
| Listing.AlapListedBucket | ql/dependenceGraph.h:629-640 | a listed bucket holds neither the source nor the target |
| Listing.AlapListingShowsGates | ql/dependenceGraph.h:625-658 | the ALAP listing shows every gate exactly in its reported cycle's line and no sentinel |
| Listing.IntendedListingsAgree | ql/dependenceGraph.h:634-638 | with the intended guards both listings have the same number of lines |
| Findings.WarCircuitShape | ql/dependenceGraph.h:96-109 | the graph of the WAR circuit, with its WAR arc weighing 1 as written and 5 as intended |
| Findings.WarCircuitSchedule | ql/dependenceGraph.h:341-365 | ASAP on that graph puts g1 w cycles after g0 |
| Findings.WarGuardCounterexample | ql/dependenceGraph.h:102-105 | as written, g1 starts 1 cycle after g0 although g0 takes 5 and g1 overwrites what g0 reads; as intended, 5 cycles after |
| Findings.AsapCircuitShape | ql/dependenceGraph.h:65-138 | the graph the builder makes for the ASAP circuit |
| Findings.AsapCircuitSchedule | ql/dependenceGraph.h:352-362 | ASAP puts g2 at cycle 2 as written and 6 as intended |
| Findings.AsapGuardCounterexample | ql/dependenceGraph.h:357-360 | as written, g2 starts before its 5-cycle predecessor ends; as intended, it waits for it |
| Findings.AlapCircuitShape | ql/dependenceGraph.h:65-138 | the graph the builder makes for the ALAP circuit |
| Findings.AlapCircuitSchedule | ql/dependenceGraph.h:465-475 | ALAP puts g0 at MAX_CYCLE - 6 as written and MAX_CYCLE - 7 as intended |
| Findings.AlapGuardCounterexample | ql/dependenceGraph.h:470-473 | as written, g0 reports 6, less than its successor's 2 plus its weight 5; as intended, it reports 7 |
| DependenceGraph.WriterStep | ql/dependenceGraph.h:91-94 | the last operand makes the gate the qubit's last writer; nothing else changes the writer table |
| DependenceGraph.ReadersStep | ql/dependenceGraph.h:111-113 | any operand but the last appends the gate to the qubit's readers list; nothing else changes it |
| DependenceGraph.OperandArcsShape | ql/dependenceGraph.h:81-115 | the producer is no later than the previous gate and every node on the current readers list no later than the gate; an operand's arcs are one WAW arc followed by the WAR arcs of that list when it is the last operand, or one RAW arc otherwise |
| DependenceGraph.ClosingVisit | ql/dependenceGraph.h:128-136 | visiting node k adds a closing arc exactly when k is not the target and had no out-arc before the closing phase |
| DependenceGraph.WriteCycle | ql/dependenceGraph.h:437-442 | writing a bucket part by part, with the separator after all but the last, yields the joined line |
| DependenceGraph.RelaxNode | ql/dependenceGraph.h:352-361 | the loop over the in-arc iterator computes the ASAP fold of the node |
| DependenceGraph.TightenNode | ql/dependenceGraph.h:465-474 | the loop over the out-arc iterator computes the ALAP fold of the node |
| DependenceGraph.AsapVisit | ql/dependenceGraph.h:349-363 | one iteration of the ASAP pass advances the cycle map by one node |
| DependenceGraph.AlapVisit | ql/dependenceGraph.h:462-476 | one iteration of the ALAP pass advances the cycle map by one node |
| DependenceGraph.AsapPass | ql/dependenceGraph.h:346-364 | walking the node vector back to front yields the ASAP map |
| DependenceGraph.AlapPass | ql/dependenceGraph.h:459-477 | walking the node vector front to back yields the ALAP map |
| DependenceGraph.BucketAppend | ql/dependenceGraph.h:422 | visiting one more node extends its own bucket by its label and leaves every other bucket alone |
| DependenceGraph.AddToBucket | ql/dependenceGraph.h:422 | after the push, every bucket holds the labels of the visited nodes with its key, in visit order, and empty cycles have no entry |
| DependenceGraph.CycleLine | ql/dependenceGraph.h:433-447 | a cycle's line is its bucket joined, or "   nop" when it has no bucket |
| DependenceGraph.ListUp | ql/dependenceGraph.h:431-449 | the loop writes the lines of cycles 1 .. Total - 1 in ascending order |
| DependenceGraph.ListDown | ql/dependenceGraph.h:640-658 | the loop writes the lines of cycles first .. 1 in descending order |
| DependenceGraph.DependGraph.constructor | ql/dependenceGraph.h:44-45 | an empty graph with empty node maps |
| DependenceGraph.DependGraph.Init | ql/dependenceGraph.h:47-138 | the object holds exactly the graph of the circuit (source, gates, target, hazard and closing arcs), with a nop around each sentinel and every node's label; the result is a valid graph |
| DependenceGraph.DependGraph.AddGates | ql/dependenceGraph.h:65-118 | after the gate loop, every gate has its node, gate and label, and the arcs are the hazard arcs of the whole circuit |
| DependenceGraph.DependGraph.AddGate | ql/dependenceGraph.h:69-117 | one gate adds its node and its hazard arcs, and moves both tables on to the next gate |
| DependenceGraph.DependGraph.AddNode | ql/dependenceGraph.h:69-73 | the gate's node is the next id, wrapping the gate and carrying its label |
| DependenceGraph.DependGraph.AddOperands | ql/dependenceGraph.h:76-117 | the operand loop appends the gate's arcs in operand order and leaves the tables as before the next gate |
| DependenceGraph.DependGraph.AddOperand | ql/dependenceGraph.h:78-116 | one operand appends its arcs and updates the tables |
| DependenceGraph.DependGraph.AddOperandArcs | ql/dependenceGraph.h:81-115 | appends the operand's WAW and WAR arcs, or its RAW arc, with the weight read off the producer's gate |
| DependenceGraph.DependGraph.UpdateTables | ql/dependenceGraph.h:91-115 | the tables become those after the operand |
| DependenceGraph.DependGraph.NodeWeight | ql/dependenceGraph.h:84-87 | the latency read off a node's gate is the node's latency |
| DependenceGraph.DependGraph.AddWarArcs | ql/dependenceGraph.h:96-109 | the loop over the readers copy appends one WAR arc per reader, in order |
| DependenceGraph.DependGraph.AddTarget | ql/dependenceGraph.h:120-124 | the target is the next id, wrapping a nop |
| DependenceGraph.DependGraph.OutDegreeOf | ql/dependenceGraph.h:127-130 | the out-degree map's value is the number of arcs currently leaving the node |
| DependenceGraph.DependGraph.CloseToTarget | ql/dependenceGraph.h:126-137 | the node loop appends exactly the closing arcs, newest node first |
| DependenceGraph.DependGraph.TopologicalSort | ql/dependenceGraph.h:306-327 | the vector is the node-map order, and the DAG test answers whether the graph is acyclic |
| DependenceGraph.DependGraph.ScheduleAsap | ql/dependenceGraph.h:341-365 | the cycle map is the ASAP map, and the vector the node-map order |
| DependenceGraph.DependGraph.ScheduleAlap | ql/dependenceGraph.h:454-478 | the cycle map is the ALAP map, and the vector the node-map order |
| DependenceGraph.DependGraph.QasmScheduledAsap | ql/dependenceGraph.h:416-449 | the lines written are the ASAP listing of the graph |
| DependenceGraph.DependGraph.QasmScheduledAlap | ql/dependenceGraph.h:625-658 | the lines written are the ALAP listing of the graph |

## Left out

- Console and file output are left out. This covers `Print`, the DOT writers, `PrintTopologicalOrder`, `PrintScheduleASAP`/`ALAP`, the progress messages and the "not a DAG" message. The value the ALAP report prints (`MAX_CYCLE - cycle`, line 491) is modelled by `Reported`.
- DependenceGraph.DependGraph.QasmScheduledAsap: returns the lines instead of writing them to `scheduledASAP.qc`. The failure to open that file is not modelled.
- DependenceGraph.DependGraph.QasmScheduledAlap: returns the lines instead of writing them to `scheduledALAP.qc`. The failure to open that file is not modelled.
- DependenceGraph.DependGraph.TopologicalSort: the rank map that the graph library's `topologicalSort` fills is not modelled. It is read only under `DEBUG`. The node vector comes from walking the node map, whose order depends only on node creation.
- DependenceGraph.RelaxNode: the ASAP sum `srcCycle + weight` is unbounded, not `size_t` with wrap-around. It could only wrap for a schedule longer than 2^64 cycles.
- DependenceGraph.TightenNode: the ALAP difference `targetCycle - weight` is unbounded, where the code computes it in `size_t`. On an acyclic graph it could only wrap for a schedule longer than 2^64 cycles. But every gate that reads the qubit it writes (for example a CNOT on q0, q0) gets a WAR self-loop (BuildSelfLoops). The ALAP pass then reads the node's own cycle, still 0, and the code's `0 - weight` wraps to a value near `MAX_CYCLE`, where the model's cycle goes negative.
- DependenceGraph.DependGraph.ScheduleAlap: on a graph with a self-loop its cycles are the unbounded ones of TightenNode, not the wrapped `size_t` cycles of the code, so from that node on they differ from the code's.
- DependenceGraph.DependGraph.QasmScheduledAlap: on a graph with a self-loop the reported values and the listing follow the unbounded cycles of ScheduleAlap and differ from what the code writes. The listing's own wrap of `TotalCycles - 1` when the total is 0 is modelled.
- DependenceGraph.DependGraph.Init: requires a freshly constructed object, as every caller has. A second `Init` on the same object is not modelled.
- DependenceGraph.DependGraph.Init: requires every operand to be below the qubit count. The code indexes its tables without checking, which is undefined behaviour.
- The gate class (`gate.h`, `circuit.h`) is not part of this model. A gate is a value holding its operands, latency and QASM label. The sentinel nops allocated with `new` are values, and the identity of gate objects is not modelled.
- The `dist` node map and the path `p` are not modelled. The core never uses them.
- DependenceGraph.DependGraph.ScheduleAsap: the caller's `cycle` node map and `order` vector are returned as sequences rather than filled in place. The same holds for ScheduleAlap.
- The `weight`, `cause` and `depType` arc maps are fields of each arc record.

## Findings

| source | as written | input that shows it | evidently intended | confidence | as-written member | corrected member |
|---|---|---|---|---|---|---|
| ql/dependenceGraph.h:102 | the weight of a WAR arc tests whether the qubit's last writer (`prodID`) is the source, not the reader; a reader then gets weight 1 whenever the qubit was never written | g0 = operands [q0, q1], latency 5; g1 = operands [q0]: the WAR arc g0 -> g1 weighs 1, so ASAP starts g1 one cycle after g0 while g0 still reads q0 | the WAR arc weighs the reader's latency (1 only when the reader is the source) | high, not executed | Findings.WarGuardCounterexample | HazardGraph.IntendedWeights |
| ql/dependenceGraph.h:357 | the ASAP guard compares the running cycle with the predecessor's cycle, not with its cycle plus weight, so a later-visited in-arc with a smaller start but larger weight is skipped | g0 = [q0] latency 5, g1 = [q1], g2 = [q0, q1]: g2 is placed at cycle 2 although g0 (cycle 1, weight 5) requires cycle 6 | each node at the maximum over its in-arcs of cycle plus weight | high, not executed | Findings.AsapGuardCounterexample | Schedule.AsapProperties |
| ql/dependenceGraph.h:470 | the ALAP guard compares the running cycle with the successor's cycle, not with its cycle minus weight, so a heavier out-arc can be skipped | g0 = [q0] latency 5, g1 = [q0, q1], g2 = [q0]: g0 reports 6 although g1 (reports 2, weight 5) requires 7 | each node at the minimum over its out-arcs of cycle minus weight | high, not executed | Findings.AlapGuardCounterexample | Schedule.AlapProperties |
