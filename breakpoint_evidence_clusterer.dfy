/** The per-partition clusterer: it reads evidence sorted by contig and start, merges
    consecutive evidence that lies outside the partition's edge zones and whose gap is below a
    threshold, and emits a cluster summary when a gap is too large or when edge evidence
    arrives. Edge evidence is never merged: it flushes the pending cluster and passes through
    unchanged. */
module Clustering {
  import opened JavaTypes
  import opened Intervals
  import opened Evidence
  import opened Edges
  import opened Gluing

  /** What the clusterer holds between calls: nothing (`curInterval == null`), or a pending
      cluster with its accumulated weight. */
  datatype ClusterState = Idle | Accumulating(interval: SVInterval, weight: int)

  /** The clusterer's configuration, fixed at construction. */
  datatype Params = Params(gapSize: Int32, partitionEdges: PartitionEdges)

  /** The record the clusterer creates for a finished cluster. */
  function Summary(interval: SVInterval, weight: int): BreakpointEvidence
  {
    BreakpointEvidence(interval, weight, true)
  }

  /** The summary of the pending cluster, if there is one. */
  function Flush(s: ClusterState): seq<BreakpointEvidence>
  {
    if s.Idle? then [] else [Summary(s.interval, s.weight)]
  }

  function PendingWeight(s: ClusterState): int
  {
    if s.Idle? then 0 else s.weight
  }

  /** The pending cluster, if any, lies outside both edge zones. */
  predicate Interior(p: Params, s: ClusterState)
  {
    s.Accumulating? ==> !p.partitionEdges.OnEdge(s.interval)
  }

  predicate OnEdge(p: Params, e: BreakpointEvidence)
  {
    p.partitionEdges.OnEdge(e.location)
  }

  /** One call of `apply`: the new state and the records it returns. At most two records come
      out; the only records ever returned are the previous pending cluster's summary and the
      input itself (only when it is edge evidence); weight is neither lost nor created; and a
      pending cluster stays clear of the edge zones. */
  function Step(p: Params, s: ClusterState, evidence: BreakpointEvidence): (r: (ClusterState, seq<BreakpointEvidence>))
    ensures |r.1| <= 2
    ensures Weight(r.1) + PendingWeight(r.0) == PendingWeight(s) + evidence.weight
    ensures OnEdge(p, evidence) ==> r.0 == Idle && r.1 == Flush(s) + [evidence]
    ensures !OnEdge(p, evidence) ==> r.0.Accumulating? && (r.1 == [] || (s.Accumulating? && r.1 == Flush(s)))
    ensures !OnEdge(p, evidence) ==> r.0.interval.contig == evidence.location.contig
    ensures Interior(p, s) ==> Interior(p, r.0)
  {
    if OnEdge(p, evidence) then
      if s.Idle? then (Idle, [evidence])
      else (Idle, [Summary(s.interval, s.weight), evidence])
    else
      var interval := evidence.location;
      var weight := evidence.weight;
      if s.Idle? then (Accumulating(interval, weight), [])
      else if GapLen(s.interval, interval) < p.gapSize then
        (Accumulating(Join(s.interval, interval), s.weight + weight), [])
      else
        (Accumulating(interval, weight), [Summary(s.interval, s.weight)])
  }

  /** The clusterer as the gluer's map function: its state threaded through explicitly. */
  function Transition(p: Params): (ClusterState, BreakpointEvidence) -> (ClusterState, seq<BreakpointEvidence>)
  {
    (s: ClusterState, e: BreakpointEvidence) => Step(p, s, e)
  }

  /** Feeding `xs` to a clusterer in state `s`, one `apply` after another. */
  function Cluster(p: Params, s: ClusterState, xs: seq<BreakpointEvidence>): (ClusterState, seq<BreakpointEvidence>)
  {
    Run(Transition(p), s, xs)
  }

  /** The records of `es` that are (or are not) edge evidence, in order. */
  function Select(p: Params, es: seq<BreakpointEvidence>, onEdge: bool): seq<BreakpointEvidence>
  {
    if es == [] then []
    else (if OnEdge(p, es[0]) == onEdge then [es[0]] else []) + Select(p, es[1..], onEdge)
  }

  lemma {:induction false} SelectAppend(p: Params, a: seq<BreakpointEvidence>, b: seq<BreakpointEvidence>, onEdge: bool)
    ensures Select(p, a + b, onEdge) == Select(p, a, onEdge) + Select(p, b, onEdge)
  {
    if a == [] {
      assert a + b == b;
    } else {
      assert (a + b)[0] == a[0];
      assert (a + b)[1..] == a[1..] + b;
      SelectAppend(p, a[1..], b, onEdge);
    }
  }

  lemma {:induction false} SelectWeight(p: Params, es: seq<BreakpointEvidence>)
    ensures Weight(es) == Weight(Select(p, es, true)) + Weight(Select(p, es, false))
  {
    if es != [] {
      SelectWeight(p, es[1..]);
      var head := if OnEdge(p, es[0]) then [es[0]] else [];
      var tail := if OnEdge(p, es[0]) then [] else [es[0]];
      WeightAppend(head, Select(p, es[1..], true));
      WeightAppend(tail, Select(p, es[1..], false));
    }
  }

  /** Folding over `xs + [x]` is one more step after folding over `xs`. */
  lemma ClusterSnoc(p: Params, s: ClusterState, xs: seq<BreakpointEvidence>, x: BreakpointEvidence)
    ensures Cluster(p, s, xs + [x]).0 == Step(p, Cluster(p, s, xs).0, x).0
    ensures Cluster(p, s, xs + [x]).1 == Cluster(p, s, xs).1 + Step(p, Cluster(p, s, xs).0, x).1
  {
    RunSnoc(Transition(p), s, xs, x);
  }

  /** Weight conservation: the weight that went in, plus what was pending before, equals the
      weight that came out plus what is pending now. */
  lemma {:induction false} ClusterConservesWeight(p: Params, s: ClusterState, xs: seq<BreakpointEvidence>)
    ensures Weight(xs) + PendingWeight(s) == Weight(Cluster(p, s, xs).1) + PendingWeight(Cluster(p, s, xs).0)
    decreases |xs|
  {
    if xs != [] {
      var first := Step(p, s, xs[0]);
      ClusterConservesWeight(p, first.0, xs[1..]);
      WeightAppend(first.1, Cluster(p, first.0, xs[1..]).1);
    }
  }

  /** One step, split by edge status: edge records pass through, every other record returned is
      a created summary, and the weight of interior inputs is conserved. */
  lemma StepSplit(p: Params, s: ClusterState, x: BreakpointEvidence)
    requires Interior(p, s)
    ensures Select(p, Step(p, s, x).1, true) == Select(p, [x], true)
    ensures forall e <- Select(p, Step(p, s, x).1, false) :: e.isClusterSummary
    ensures Weight(Select(p, Step(p, s, x).1, false)) + PendingWeight(Step(p, s, x).0) ==
            Weight(Select(p, [x], false)) + PendingWeight(s)
  {
    var out := Step(p, s, x).1;
    assert [x][1..] == [];
    if s.Accumulating? {
      assert Flush(s)[1..] == [];
    }
    if OnEdge(p, x) {
      SelectAppend(p, Flush(s), [x], true);
      SelectAppend(p, Flush(s), [x], false);
    }
  }

  /** Over any run that starts clear of the edge zones: the edge records that come out are
      exactly the edge records that went in, in order and unmodified; every other record that
      comes out is a created cluster summary; and the weight of the interior records that went
      in, plus what was pending before, equals the weight of the summaries plus what is pending
      now. */
  lemma {:induction false} ClusterSplit(p: Params, s: ClusterState, xs: seq<BreakpointEvidence>)
    requires Interior(p, s)
    ensures Interior(p, Cluster(p, s, xs).0)
    ensures Select(p, Cluster(p, s, xs).1, true) == Select(p, xs, true)
    ensures forall e <- Select(p, Cluster(p, s, xs).1, false) :: e.isClusterSummary
    ensures Weight(Select(p, Cluster(p, s, xs).1, false)) + PendingWeight(Cluster(p, s, xs).0) ==
            Weight(Select(p, xs, false)) + PendingWeight(s)
    decreases |xs|
  {
    if xs != [] {
      var first := Step(p, s, xs[0]);
      var rest := Cluster(p, first.0, xs[1..]);
      StepSplit(p, s, xs[0]);
      ClusterSplit(p, first.0, xs[1..]);
      assert xs == [xs[0]] + xs[1..];
      assert Cluster(p, s, xs).1 == first.1 + rest.1;
      SelectAppend(p, first.1, rest.1, true);
      SelectAppend(p, first.1, rest.1, false);
      SelectAppend(p, [xs[0]], xs[1..], true);
      SelectAppend(p, [xs[0]], xs[1..], false);
      WeightAppend(Select(p, first.1, false), Select(p, rest.1, false));
      WeightAppend(Select(p, [xs[0]], false), Select(p, xs[1..], false));
    }
  }

  /** Every call returns at most two records. */
  lemma {:induction false} ClusterOutputBound(p: Params, s: ClusterState, xs: seq<BreakpointEvidence>)
    ensures |Cluster(p, s, xs).1| <= 2 * |xs|
    decreases |xs|
  {
    if xs != [] {
      ClusterOutputBound(p, Step(p, s, xs[0]).0, xs[1..]);
    }
  }

  /** A stream whose last record is interior ends with a pending cluster that no call has
      returned: exactly its weight is missing from the output. */
  lemma UnflushedTail(p: Params, s: ClusterState, xs: seq<BreakpointEvidence>)
    requires xs != [] && !OnEdge(p, xs[|xs| - 1])
    ensures Cluster(p, s, xs).0.Accumulating?
    ensures Cluster(p, s, xs).0.interval.contig == xs[|xs| - 1].location.contig
    ensures Weight(Cluster(p, s, xs).1) + Cluster(p, s, xs).0.weight == Weight(xs) + PendingWeight(s)
  {
    assert xs == xs[..|xs| - 1] + [xs[|xs| - 1]];
    ClusterSnoc(p, s, xs[..|xs| - 1], xs[|xs| - 1]);
    ClusterConservesWeight(p, s, xs);
  }

  /** An edge sentinel at the end of the stream flushes the pending cluster, then comes out
      itself, and leaves the clusterer idle. */
  lemma EdgeSentinelFlushes(p: Params, s: ClusterState, xs: seq<BreakpointEvidence>, sentinel: BreakpointEvidence)
    requires OnEdge(p, sentinel)
    ensures Cluster(p, s, xs + [sentinel]).0 == Idle
    ensures Cluster(p, s, xs + [sentinel]).1 == Cluster(p, s, xs).1 + Flush(Cluster(p, s, xs).0) + [sentinel]
  {
    ClusterSnoc(p, s, xs, sentinel);
  }

  /** An interior sentinel on a contig other than the pending cluster's also flushes it (the gap
      across contigs is never below the threshold); the sentinel itself stays pending. */
  lemma GapSentinelFlushes(p: Params, s: ClusterState, xs: seq<BreakpointEvidence>, sentinel: BreakpointEvidence)
    requires !OnEdge(p, sentinel)
    requires Cluster(p, s, xs).0.Accumulating? ==> Cluster(p, s, xs).0.interval.contig != sentinel.location.contig
    ensures Cluster(p, s, xs + [sentinel]).0 == Accumulating(sentinel.location, sentinel.weight)
    ensures Cluster(p, s, xs + [sentinel]).1 == Cluster(p, s, xs).1 + Flush(Cluster(p, s, xs).0)
  {
    ClusterSnoc(p, s, xs, sentinel);
  }

  /** A whole partition pushed through the clusterer from a fresh start and closed by an edge
      sentinel: nothing is left pending, the edge records come out exactly as they went in
      followed by the sentinel, every other output is a created cluster summary, and the summaries
      carry exactly the weight of the interior evidence. */
  lemma FlushedPartition(p: Params, xs: seq<BreakpointEvidence>, sentinel: BreakpointEvidence)
    requires OnEdge(p, sentinel)
    ensures Cluster(p, Idle, xs + [sentinel]).0 == Idle
    ensures Select(p, Cluster(p, Idle, xs + [sentinel]).1, true) == Select(p, xs, true) + [sentinel]
    ensures forall e <- Select(p, Cluster(p, Idle, xs + [sentinel]).1, false) :: e.isClusterSummary
    ensures Weight(Select(p, Cluster(p, Idle, xs + [sentinel]).1, false)) == Weight(Select(p, xs, false))
  {
    ClusterSplit(p, Idle, xs + [sentinel]);
    EdgeSentinelFlushes(p, Idle, xs, sentinel);
    SelectAppend(p, xs, [sentinel], true);
    SelectAppend(p, xs, [sentinel], false);
    assert [sentinel][1..] == [];
    assert Select(p, xs, false) + Select(p, [sentinel], false) == Select(p, xs, false);
  }

  /** One summary per record, each carrying that record's location and weight. */
  function Summaries(es: seq<BreakpointEvidence>): seq<BreakpointEvidence>
  {
    if es == [] then [] else [Summary(es[0].location, es[0].weight)] + Summaries(es[1..])
  }

  predicate AllInterior(p: Params, xs: seq<BreakpointEvidence>)
  {
    forall i :: 0 <= i < |xs| ==> !OnEdge(p, xs[i])
  }

  /** Every two consecutive records are at least the gap size apart. */
  predicate Separated(p: Params, xs: seq<BreakpointEvidence>)
  {
    forall i :: 0 <= i < |xs| - 1 ==> GapLen(xs[i].location, xs[i + 1].location) >= p.gapSize
  }

  /** From a cluster pending on `xs[0]`, the rest of `xs` is never merged into anything: each
      record but the last comes out alone as a summary, and the last one stays pending. */
  lemma {:induction false} SeparatedFrom(p: Params, xs: seq<BreakpointEvidence>)
    requires xs != [] && AllInterior(p, xs) && Separated(p, xs)
    ensures Cluster(p, Accumulating(xs[0].location, xs[0].weight), xs[1..]).0 ==
            Accumulating(xs[|xs| - 1].location, xs[|xs| - 1].weight)
    ensures Cluster(p, Accumulating(xs[0].location, xs[0].weight), xs[1..]).1 == Summaries(xs[..|xs| - 1])
    decreases |xs|
  {
    if |xs| == 1 {
      assert xs[..0] == [];
    } else {
      var tail := xs[1..];
      assert AllInterior(p, tail) by {
        forall i | 0 <= i < |tail| ensures !OnEdge(p, tail[i]) {
          assert tail[i] == xs[i + 1];
        }
      }
      assert Separated(p, tail) by {
        forall i | 0 <= i < |tail| - 1 ensures GapLen(tail[i].location, tail[i + 1].location) >= p.gapSize {
          assert tail[i] == xs[i + 1] && tail[i + 1] == xs[i + 2];
        }
      }
      SeparatedFrom(p, tail);
      assert GapLen(xs[0].location, tail[0].location) >= p.gapSize && !OnEdge(p, tail[0]);
      var s := Accumulating(xs[0].location, xs[0].weight);
      assert Step(p, s, tail[0]).0 == Accumulating(tail[0].location, tail[0].weight);
      assert Step(p, s, tail[0]).1 == [Summary(xs[0].location, xs[0].weight)];
      assert xs[..|xs| - 1][1..] == tail[..|tail| - 1];
    }
  }

  /** Interior evidence that is everywhere at least the gap size apart is never merged: each
      record but the last comes out as a summary of its own, unchanged in location and weight,
      and the last stays pending. */
  lemma WidelySeparated(p: Params, xs: seq<BreakpointEvidence>)
    requires xs != [] && AllInterior(p, xs) && Separated(p, xs)
    ensures Cluster(p, Idle, xs).0 == Accumulating(xs[|xs| - 1].location, xs[|xs| - 1].weight)
    ensures Cluster(p, Idle, xs).1 == Summaries(xs[..|xs| - 1])
  {
    SeparatedFrom(p, xs);
  }

  /** Two raw records on contig 0, covering [0, 10) with weight 1 and [12, 20) with weight 2,
      closed by a sentinel on contig -1, which the no-argument `PartitionEdges` puts on its edge.
      With gap size 5 the gap of 2 merges them into one summary of weight 3. */
  lemma MergeExample()
    ensures
      var first := BreakpointEvidence(SVInterval(0, 0, 10), 1, false);
      var second := BreakpointEvidence(SVInterval(0, 12, 20), 2, false);
      var sentinel := BreakpointEvidence(SVInterval(-1, 0, 0), 0, false);
      Cluster(Params(5, NoEdges()), Idle, [first, second, sentinel]).1 ==
        [Summary(SVInterval(0, 0, 20), 3), sentinel]
  {
  }

  /** The same records with gap size 1: the gap of 2 keeps them apart, so each comes out as a
      summary of its own, in order. */
  lemma NonMergeExample()
    ensures
      var first := BreakpointEvidence(SVInterval(0, 0, 10), 1, false);
      var second := BreakpointEvidence(SVInterval(0, 12, 20), 2, false);
      var sentinel := BreakpointEvidence(SVInterval(-1, 0, 0), 0, false);
      Cluster(Params(1, NoEdges()), Idle, [first, second, sentinel]).1 ==
        [Summary(SVInterval(0, 0, 10), 1), Summary(SVInterval(0, 12, 20), 2), sentinel]
  {
  }

  /** The clusterer object: a gap size and the partition's edge zones, fixed at construction,
      and the pending cluster held in two mutable fields. */
  class BreakpointEvidenceClusterer {
    const gapSize: Int32
    const partitionEdges: PartitionEdges
    var curInterval: Option<SVInterval>
    var curWeight: int

    constructor (gapSize: Int32, partitionEdges: PartitionEdges)
      ensures this.gapSize == gapSize && this.partitionEdges == partitionEdges
      ensures curInterval == None && curWeight == 0 && State() == Idle
    {
      this.gapSize := gapSize;
      this.partitionEdges := partitionEdges;
      curInterval := None;
      curWeight := 0;
    }

    function Parameters(): Params
    {
      Params(gapSize, partitionEdges)
    }

    function State(): ClusterState
      reads this
    {
      if curInterval.None? then Idle else Accumulating(curInterval.value, curWeight)
    }

    /** `apply`: edge evidence flushes the pending cluster and passes through; interior evidence
        starts a cluster, joins the pending one when the gap is below `gapSize`, or else flushes
        it and starts a new one. This is one `Step` of the clusterer. */
    method Apply(evidence: BreakpointEvidence) returns (out: seq<BreakpointEvidence>)
      modifies this
      ensures State() == Step(Parameters(), old(State()), evidence).0
      ensures out == Step(Parameters(), old(State()), evidence).1
      ensures partitionEdges.OnEdge(evidence.location) && old(curInterval).None? ==>
        out == [evidence] && curInterval.None? && curWeight == old(curWeight)
      ensures partitionEdges.OnEdge(evidence.location) && old(curInterval).Some? ==>
        out == [BreakpointEvidence(old(curInterval).value, old(curWeight), true), evidence] &&
        curInterval.None? && curWeight == old(curWeight)
      ensures !partitionEdges.OnEdge(evidence.location) && old(curInterval).None? ==>
        out == [] && curInterval == Some(evidence.location) && curWeight == evidence.weight
      ensures !partitionEdges.OnEdge(evidence.location) && old(curInterval).Some? &&
              GapLen(old(curInterval).value, evidence.location) < gapSize ==>
        out == [] && curInterval == Some(Join(old(curInterval).value, evidence.location)) &&
        curWeight == old(curWeight) + evidence.weight
      ensures !partitionEdges.OnEdge(evidence.location) && old(curInterval).Some? &&
              GapLen(old(curInterval).value, evidence.location) >= gapSize ==>
        out == [BreakpointEvidence(old(curInterval).value, old(curWeight), true)] &&
        curInterval == Some(evidence.location) && curWeight == evidence.weight
    {
      if partitionEdges.OnEdge(evidence.location) {
        if curInterval.None? {
          return [evidence];
        }
        out := [BreakpointEvidence(curInterval.value, curWeight, true), evidence];
        curInterval := None;
        return;
      }
      out := [];
      var interval := evidence.location;
      var weight := evidence.weight;
      if curInterval.None? {
        curInterval := Some(interval);
        curWeight := weight;
      } else if GapLen(curInterval.value, interval) < gapSize {
        curInterval := Some(Join(curInterval.value, interval));
        curWeight := curWeight + weight;
      } else {
        out := [BreakpointEvidence(curInterval.value, curWeight, true)];
        curInterval := Some(interval);
        curWeight := weight;
      }
    }
  }

  /** A partition's evidence glued through a fresh clusterer with a sentinel, as the caller of
      `applyMapFunc` does: the output is the clusterer's left fold over the evidence followed by
      the sentinel, and with an edge sentinel every interior record ends up in exactly one
      returned summary. */
  method ClusterPartition(p: Params, evidence: seq<BreakpointEvidence>, sentinel: BreakpointEvidence)
    returns (out: seq<BreakpointEvidence>)
    ensures out == Cluster(p, Idle, evidence + [sentinel]).1
    ensures OnEdge(p, sentinel) ==>
      Select(p, out, true) == Select(p, evidence, true) + [sentinel] &&
      (forall e <- Select(p, out, false) :: e.isClusterSummary) &&
      Weight(Select(p, out, false)) == Weight(Select(p, evidence, false))
  {
    var g := ApplyMapFuncWithSentinel(Transition(p), evidence, Idle, Some(sentinel));
    out := Drain(g);
    if OnEdge(p, sentinel) {
      FlushedPartition(p, evidence, sentinel);
    }
  }
}
