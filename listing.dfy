/**
  The scheduled-QASM listings: the nodes are put into per-cycle buckets in the
  order a pass visits them, and every cycle strictly between the first and the
  last is written as one line, the labels of its bucket joined by " | ", or
  "   nop" when no node sits in that cycle.
 */
module Listing {
  import opened Digraph
  import opened Schedule

  const Separator: string := " | "
  const EmptyCycle: string := "   nop"

  /** The parts in order with the separator between consecutive ones. */
  function Join(parts: seq<string>): string {
    if |parts| == 0 then ""
    else if |parts| == 1 then parts[0]
    else Join(parts[..|parts| - 1]) + Separator + parts[|parts| - 1]
  }

  function TotalLength(parts: seq<string>): nat {
    if parts == [] then 0 else TotalLength(parts[..|parts| - 1]) + |parts[|parts| - 1]|
  }

  /** A joined line holds every part and one separator between each two of them, nothing else. */
  lemma {:induction false} JoinLength(parts: seq<string>)
    requires parts != []
    ensures |Join(parts)| == TotalLength(parts) + |Separator| * (|parts| - 1)
  {
    if |parts| > 1 {
      JoinLength(parts[..|parts| - 1]);
    }
  }

  /** A joined line starts with the first part and ends with the last. */
  lemma {:induction false} JoinEnds(parts: seq<string>)
    requires parts != []
    ensures var s := Join(parts);
      && |parts[0]| <= |s| && s[..|parts[0]|] == parts[0]
      && |parts[|parts| - 1]| <= |s| && s[|s| - |parts[|parts| - 1]|..] == parts[|parts| - 1]
  {
    if |parts| > 1 {
      var front := parts[..|parts| - 1];
      JoinEnds(front);
      var s := Join(parts);
      assert s == Join(front) + Separator + parts[|parts| - 1];
      assert front[0] == parts[0];
      assert s[..|parts[0]|] == Join(front)[..|parts[0]|];
    }
  }

  /** The ids 0 .. n - 1: the node vector read back to front, as the ASAP listing walks it. */
  function Ascending(n: nat): seq<nat> {
    seq(n, i requires 0 <= i < n => i)
  }

  /** Every element is below the bound: each can index a map of that size. */
  predicate Within(s: seq<nat>, bound: int) {
    forall i :: 0 <= i < |s| ==> s[i] < bound
  }

  /** The nodes of `visit` whose key is x, in visit order. */
  function BucketNodes(visit: seq<nat>, key: seq<int>, x: int): seq<nat>
    requires Within(visit, |key|)
  {
    if visit == [] then []
    else
      var last := visit[|visit| - 1];
      BucketNodes(visit[..|visit| - 1], key, x) + (if key[last] == x then [last] else [])
  }

  predicate Increasing(s: seq<nat>) {
    forall i, j :: 0 <= i < j < |s| ==> s[i] < s[j]
  }

  predicate Decreasing(s: seq<nat>) {
    forall i, j :: 0 <= i < j < |s| ==> s[i] > s[j]
  }

  /** A bucket holds exactly the visited nodes whose key is x. */
  lemma {:induction false} BucketNodesMembers(visit: seq<nat>, key: seq<int>, x: int)
    requires Within(visit, |key|)
    ensures forall v :: v in BucketNodes(visit, key, x) <==> v in visit && key[v] == x
  {
    if visit != [] {
      var front := visit[..|visit| - 1];
      BucketNodesMembers(front, key, x);
      assert forall v :: v in visit <==> v in front || v == visit[|visit| - 1];
    }
  }

  /** A bucket keeps the visit order: ascending when the walk is, descending when it is. */
  lemma {:induction false} BucketNodesOrder(visit: seq<nat>, key: seq<int>, x: int)
    requires Within(visit, |key|)
    ensures Increasing(visit) ==> Increasing(BucketNodes(visit, key, x))
    ensures Decreasing(visit) ==> Decreasing(BucketNodes(visit, key, x))
  {
    if visit != [] {
      var front := visit[..|visit| - 1];
      var last := visit[|visit| - 1];
      assert forall i :: 0 <= i < |front| ==> front[i] == visit[i];
      BucketNodesOrder(front, key, x);
      BucketNodesMembers(front, key, x);
      var b := BucketNodes(front, key, x);
      forall i | 0 <= i < |b|
        ensures (Increasing(visit) ==> b[i] < last) && (Decreasing(visit) ==> b[i] > last)
      {
        assert b[i] in b;
        var k :| 0 <= k < |front| && front[k] == b[i];
      }
    }
  }

  /** Bucket nodes come from the walk, so they index whatever the walk indexes. */
  lemma {:induction false} BucketNodesWithin(visit: seq<nat>, key: seq<int>, x: int, bound: int)
    requires Within(visit, |key|) && Within(visit, bound)
    ensures Within(BucketNodes(visit, key, x), bound)
  {
    if visit != [] {
      BucketNodesWithin(visit[..|visit| - 1], key, x, bound);
    }
  }

  /** The labels of the given nodes, in the same order. */
  function LabelsOf(labels: seq<string>, nodes: seq<nat>): (r: seq<string>)
    requires Within(nodes, |labels|)
    ensures |r| == |nodes|
  {
    if nodes == [] then []
    else LabelsOf(labels, nodes[..|nodes| - 1]) + [labels[nodes[|nodes| - 1]]]
  }

  /** The labels in the bucket of cycle x, in visit order. */
  function BucketLabels(labels: seq<string>, visit: seq<nat>, key: seq<int>, x: int): seq<string>
    requires Within(visit, |labels|) && Within(visit, |key|)
  {
    BucketNodesWithin(visit, key, x, |labels|);
    LabelsOf(labels, BucketNodes(visit, key, x))
  }

  /** The text of cycle x: the bucket's labels joined, or the nop line for an empty bucket. */
  function Line(labels: seq<string>, visit: seq<nat>, key: seq<int>, x: int): string
    requires Within(visit, |labels|) && Within(visit, |key|)
  {
    if BucketNodes(visit, key, x) == [] then EmptyCycle else Join(BucketLabels(labels, visit, key, x))
  }

  /** The lines of the cycles lo, lo + 1, ..., hi - 1. */
  function LinesUp(labels: seq<string>, visit: seq<nat>, key: seq<int>, lo: int, hi: int): (r: seq<string>)
    requires Within(visit, |labels|) && Within(visit, |key|)
    ensures |r| == if hi <= lo then 0 else hi - lo
    decreases hi - lo
  {
    if hi <= lo then [] else LinesUp(labels, visit, key, lo, hi - 1) + [Line(labels, visit, key, hi - 1)]
  }

  /** The lines of the cycles hi, hi - 1, ..., lo + 1. */
  function LinesDown(labels: seq<string>, visit: seq<nat>, key: seq<int>, hi: int, lo: int): (r: seq<string>)
    requires Within(visit, |labels|) && Within(visit, |key|)
    ensures |r| == if hi <= lo then 0 else hi - lo
    decreases hi - lo
  {
    if hi <= lo then [] else LinesDown(labels, visit, key, hi, lo + 1) + [Line(labels, visit, key, lo + 1)]
  }

  /** Line k of an ascending listing is the line of cycle lo + k. */
  lemma {:induction false} LinesUpAt(labels: seq<string>, visit: seq<nat>, key: seq<int>, lo: int, hi: int)
    requires Within(visit, |labels|) && Within(visit, |key|)
    ensures forall k :: 0 <= k < |LinesUp(labels, visit, key, lo, hi)| ==>
      LinesUp(labels, visit, key, lo, hi)[k] == Line(labels, visit, key, lo + k)
    decreases hi - lo
  {
    if lo < hi {
      var prev := LinesUp(labels, visit, key, lo, hi - 1);
      LinesUpAt(labels, visit, key, lo, hi - 1);
      var lines := prev + [Line(labels, visit, key, hi - 1)];
      assert LinesUp(labels, visit, key, lo, hi) == lines;
      forall k | 0 <= k < |lines|
        ensures lines[k] == Line(labels, visit, key, lo + k)
      {
        if k < |prev| {
          assert lines[k] == prev[k];
        }
      }
    }
  }

  /** Line k of a descending listing is the line of cycle hi - k. */
  lemma {:induction false} LinesDownAt(labels: seq<string>, visit: seq<nat>, key: seq<int>, hi: int, lo: int)
    requires Within(visit, |labels|) && Within(visit, |key|)
    ensures forall k :: 0 <= k < |LinesDown(labels, visit, key, hi, lo)| ==>
      LinesDown(labels, visit, key, hi, lo)[k] == Line(labels, visit, key, hi - k)
    decreases hi - lo
  {
    if lo < hi {
      var prev := LinesDown(labels, visit, key, hi, lo + 1);
      LinesDownAt(labels, visit, key, hi, lo + 1);
      var lines := prev + [Line(labels, visit, key, lo + 1)];
      assert LinesDown(labels, visit, key, hi, lo) == lines;
      forall k | 0 <= k < |lines|
        ensures lines[k] == Line(labels, visit, key, hi - k)
      {
        if k < |prev| {
          assert lines[k] == prev[k];
        }
      }
    }
  }

  /** An ascending listing from cycle 1 has one line per cycle 1 .. total - 1. */
  lemma LinesUpFrom(labels: seq<string>, visit: seq<nat>, key: seq<int>, total: int, lines: seq<string>)
    requires Within(visit, |labels|) && Within(visit, |key|) && total >= 1
    requires lines == LinesUp(labels, visit, key, 1, total)
    ensures |lines| == total - 1
    ensures forall k :: 0 <= k < |lines| ==> lines[k] == Line(labels, visit, key, k + 1)
  {
    LinesUpAt(labels, visit, key, 1, total);
  }

  /** A descending listing down to cycle 1 has one line per cycle first .. 1. */
  lemma LinesDownTo(labels: seq<string>, visit: seq<nat>, key: seq<int>, first: int, lines: seq<string>)
    requires Within(visit, |labels|) && Within(visit, |key|) && first >= 0
    requires lines == LinesDown(labels, visit, key, first, 0)
    ensures |lines| == first
    ensures forall k :: 0 <= k < |lines| ==> lines[k] == Line(labels, visit, key, first - k)
  {
    LinesDownAt(labels, visit, key, first, 0);
  }

  /**
    The first cycle the ALAP listing writes: Total - 1 in size_t arithmetic,
    which wraps to the largest size_t when Total is 0.
   */
  function FirstListed(total: int): int {
    if total == 0 then MaxCycle else total - 1
  }

  /**
    The ASAP listing: nodes bucketed by ASAP cycle in the order 0 .. n - 1,
    then the cycles 1 .. Total - 1, where Total is the cycle of the first node
    of the node vector (the target).
   */
  function AsapListing(g: Graph, sem: Semantics, labels: seq<string>): seq<string>
    requires WellFormed(g) && |labels| == g.nodes
  {
    var c := Asap(g, sem);
    LinesUp(labels, Ascending(g.nodes), c, 1, c[NodeMapOrder(g.nodes)[0]])
  }

  /**
    The ALAP listing: nodes bucketed by their reported value in the order
    n - 1 .. 0, then the cycles from Total - 1 down to 1, where Total is the
    reported value of the last node of the node vector (the source).
   */
  function AlapListing(g: Graph, sem: Semantics, labels: seq<string>): seq<string>
    requires WellFormed(g) && |labels| == g.nodes
  {
    var r := Reported(g, sem);
    LinesDown(labels, NodeMapOrder(g.nodes), r, FirstListed(r[NodeMapOrder(g.nodes)[g.nodes - 1]]), 0)
  }

  lemma AsapListingLines(g: Graph, sem: Semantics, labels: seq<string>)
    requires Closed(g) && |labels| == g.nodes
    ensures var c := Asap(g, sem); var lines := AsapListing(g, sem, labels);
      && |lines| == c[Target(g)] - 1
      && forall k :: 0 <= k < |lines| ==> lines[k] == Line(labels, Ascending(g.nodes), c, k + 1)
  {
    var c := Asap(g, sem);
    assert NodeMapOrder(g.nodes)[0] == Target(g);
    AsapAfterEntry(g, sem, Target(g));
    LinesUpFrom(labels, Ascending(g.nodes), c, c[Target(g)], AsapListing(g, sem, labels));
  }

  /** A gate sits in the ASAP bucket of its own cycle, which is a listed one. */
  lemma AsapListedGate(g: Graph, sem: Semantics, v: nat)
    requires Closed(g) && 0 < v < Target(g)
    ensures var c := Asap(g, sem);
      && 1 <= c[v] < c[Target(g)]
      && v in BucketNodes(Ascending(g.nodes), c, c[v])
  {
    var c := Asap(g, sem);
    var visit := Ascending(g.nodes);
    AsapInsideHorizon(g, sem);
    BucketNodesMembers(visit, c, c[v]);
    assert visit[v] == v;
  }

  /** A listed ASAP bucket holds gates only: the source is at 0 and the target at Total. */
  lemma AsapListedBucket(g: Graph, sem: Semantics, x: int)
    requires Closed(g)
    requires 1 <= x < Asap(g, sem)[Target(g)]
    ensures forall v :: v in BucketNodes(Ascending(g.nodes), Asap(g, sem), x) ==> 0 < v < Target(g)
  {
    AsapInsideHorizon(g, sem);
    BucketNodesMembers(Ascending(g.nodes), Asap(g, sem), x);
  }

  /**
    On a closed graph the ASAP listing has one line per cycle 1 .. Total - 1,
    every gate sits in the bucket of one of those cycles, and no listed bucket
    holds the source or the target.
   */
  lemma AsapListingShowsGates(g: Graph, sem: Semantics, labels: seq<string>)
    requires Closed(g) && |labels| == g.nodes
    ensures var c := Asap(g, sem); var lines := AsapListing(g, sem, labels); var visit := Ascending(g.nodes);
      && |lines| == c[Target(g)] - 1
      && (forall k :: 0 <= k < |lines| ==> lines[k] == Line(labels, visit, c, k + 1))
      && (forall v :: 0 < v < Target(g) ==> 1 <= c[v] <= |lines| && v in BucketNodes(visit, c, c[v]))
      && (forall x, v :: 1 <= x <= |lines| && v in BucketNodes(visit, c, x) ==> 0 < v < Target(g))
  {
    AsapListingLines(g, sem, labels);
    forall v | 0 < v < Target(g) {
      AsapListedGate(g, sem, v);
    }
    forall x | 1 <= x < Asap(g, sem)[Target(g)] {
      AsapListedBucket(g, sem, x);
    }
  }

  lemma AlapListingLines(g: Graph, sem: Semantics, labels: seq<string>)
    requires Closed(g) && |labels| == g.nodes
    ensures var r := Reported(g, sem); var lines := AlapListing(g, sem, labels);
      && r[0] >= 1
      && |lines| == r[0] - 1
      && forall k :: 0 <= k < |lines| ==> lines[k] == Line(labels, NodeMapOrder(g.nodes), r, r[0] - 1 - k)
  {
    var r := Reported(g, sem);
    assert NodeMapOrder(g.nodes)[g.nodes - 1] == 0;
    ReportedAfterExit(g, sem, 0);
    LinesDownTo(labels, NodeMapOrder(g.nodes), r, r[0] - 1, AlapListing(g, sem, labels));
  }

  /** A gate sits in the ALAP bucket of its reported value, which is a listed one. */
  lemma AlapListedGate(g: Graph, sem: Semantics, v: nat)
    requires Closed(g) && 0 < v < Target(g)
    ensures var r := Reported(g, sem);
      && 1 <= r[v] < r[0]
      && v in BucketNodes(NodeMapOrder(g.nodes), r, r[v])
  {
    var r := Reported(g, sem);
    var visit := NodeMapOrder(g.nodes);
    ReportedInsideHorizon(g, sem);
    BucketNodesMembers(visit, r, r[v]);
    assert visit[g.nodes - 1 - v] == v;
  }

  /** A listed ALAP bucket holds gates only: the target reports 0 and the source Total. */
  lemma AlapListedBucket(g: Graph, sem: Semantics, x: int)
    requires Closed(g)
    requires 1 <= x < Reported(g, sem)[0]
    ensures forall v :: v in BucketNodes(NodeMapOrder(g.nodes), Reported(g, sem), x) ==> 0 < v < Target(g)
  {
    ReportedInsideHorizon(g, sem);
    BucketNodesMembers(NodeMapOrder(g.nodes), Reported(g, sem), x);
  }

  /**
    On a closed graph the ALAP listing has one line per cycle Total - 1 down
    to 1 (no wrap-around, since Total is at least 1), every gate sits in the
    bucket of one of those cycles, and no listed bucket holds the source or the
    target.
   */
  lemma AlapListingShowsGates(g: Graph, sem: Semantics, labels: seq<string>)
    requires Closed(g) && |labels| == g.nodes
    ensures var r := Reported(g, sem); var lines := AlapListing(g, sem, labels); var visit := NodeMapOrder(g.nodes);
      && |lines| == r[0] - 1
      && (forall k :: 0 <= k < |lines| ==> lines[k] == Line(labels, visit, r, r[0] - 1 - k))
      && (forall v :: 0 < v < Target(g) ==> 1 <= r[v] <= |lines| && v in BucketNodes(visit, r, r[v]))
      && (forall x, v :: 1 <= x <= |lines| && v in BucketNodes(visit, r, x) ==> 0 < v < Target(g))
  {
    AlapListingLines(g, sem, labels);
    forall v | 0 < v < Target(g) {
      AlapListedGate(g, sem, v);
    }
    forall x | 1 <= x < Reported(g, sem)[0] {
      AlapListedBucket(g, sem, x);
    }
  }

  /**
    With the intended guards on a closed graph both listings have the same
    number of lines: the ALAP total equals the ASAP schedule length.
   */
  lemma IntendedListingsAgree(g: Graph, labels: seq<string>)
    requires Closed(g) && |labels| == g.nodes
    ensures |AsapListing(g, Intended, labels)| == |AlapListing(g, Intended, labels)|
  {
    AsapListingShowsGates(g, Intended, labels);
    AlapListingShowsGates(g, Intended, labels);
    IntendedPassesAgree(g);
  }
}
