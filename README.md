# Breakpoint evidence clustering, modelled in Dafny

This project models the per-partition clustering of structural-variant breakpoint evidence in
GATK's Spark SV tools. Three Java classes cooperate:

- `PartitionEdges` describes the two "edge zones" of a data partition. The leading zone lies near
  the last read of the previous partition. The trailing zone lies near the first read of the next
  partition. Evidence in a zone may have partners in the neighbouring partition, so it must not
  be clustered locally.
- `BreakpointEvidenceClusterer` is a stateful per-record function over evidence sorted by contig
  and start. It keeps one pending cluster. Interior evidence whose gap to the pending cluster is
  below `gapSize` joins it and adds its weight. Any other interior evidence flushes the pending
  cluster as a summary record and starts a new one. Edge evidence flushes the pending cluster and
  passes through unchanged.
- `FlatMapGluer` is a lazy flat-map iterator. It returns the concatenation of `f(x)` over the
  inputs, then `f(sentinel)` once, when a sentinel was given. The sentinel is how the clusterer
  gets its final flush.

Files and modules:

- `java_types.dfy` (`JavaTypes`): Java `int` as the `Int32` subset type, 32-bit wrap-around
  (`Wrap`), and an `Option` that stands for a nullable reference.
- `intervals.dfy` (`Intervals`), `evidence.dfy` (`Evidence`) and `metadata.dfy` (`Metadata`):
  the collaborator types `SVInterval`, `BreakpointEvidence` and `ReadMetadata`. Only the members
  the core uses are modelled.
- `partition_edges.dfy` (`Edges`): `PartitionEdges` as a datatype with its three queries, and
  both constructors as functions.
- `breakpoint_evidence_clusterer.dfy` (`Clustering`): the clusterer's transition `Step` as a pure
  function of the pending state. Its left fold is `Cluster`. The properties of whole runs are
  lemmas about `Cluster`. The Java object is the class `BreakpointEvidenceClusterer`, whose
  `Apply` updates `curInterval`/`curWeight` in place and is proved equal to `Step`.
  `ClusterPartition` glues a fresh clusterer over a partition with a sentinel.
- `flat_map_gluer.dfy` (`Gluing`): the class `FlatMapGluer`. It has an input cursor, an output
  buffer with its cursor, and a one-shot sentinel. Its methods are proved against the left fold
  `Run` of the map function.

The map function of a gluer can carry state of its own; the clusterer is such a function. That
state is threaded explicitly: a map function has type `(S, I) -> (S, seq<O>)`, and the gluer
keeps the current `S` in `mapState`. A stateless Java `Function` is the case `S = ()`
(`FlatMapAll`).

Collaborator behaviour that the core relies on, as defined here:

- `SVInterval.gapLen(a, b)` is `b.start - a.end` on the same contig. Across contigs it is
  `Integer.MAX_VALUE`, so evidence on different contigs is never merged, whatever the gap size.
- `SVInterval.join(a, b)` spans from the smaller start to the larger end.
- `ReadMetadata.PartitionBounds.UNMAPPED` is `Integer.MAX_VALUE`. The properties about it are
  stated for mapped intervals (contig id at least 0 and not `UNMAPPED`), or for starts in the
  usual range. They do not depend on the value chosen.

The no-argument `PartitionEdges` constructor is documented as always reporting false. In the code
it puts both zones on contig -1, so no interval on a real contig is ever on an edge. An interval on
contig -1 is always on one of the two edges: on the leading edge when its start is negative, on
the trailing edge otherwise. `Edges.NoEdges` states both facts. The merge examples use a sentinel
on contig -1 for exactly this reason.

## Model

| member | source | states |
|---|---|---|
| JavaTypes.Wrap | src/main/java/org/broadinstitute/hellbender/tools/spark/sv/PartitionEdges.java:30 | Java `int` addition: the exact sum when it fits in 32 bits, the sum minus 2^32 on overflow, the sum plus 2^32 on underflow |
| Edges.NoEdges | src/main/java/org/broadinstitute/hellbender/tools/spark/sv/PartitionEdges.java:9-15 | an interval is on an edge iff its contig is -1; no interval on a contig at least 0 is ever on an edge |
| Edges.FromMetadata | src/main/java/org/broadinstitute/hellbender/tools/spark/sv/PartitionEdges.java:17-45 | partition 0 has no leading zone for mapped intervals or starts at least 0; the last partition has no trailing zone for mapped intervals or starts below `Integer.MAX_VALUE`; an `UNMAPPED` neighbour gives the same; otherwise, without overflow, an interval is on the leading edge iff it is on the previous partition's last contig and starts strictly before `lastStart + edgeWidth`, and on the trailing edge iff it is on the next partition's first contig and starts at or after `firstStart - edgeWidth` |
| Edges.LeadingZoneWraps | src/main/java/org/broadinstitute/hellbender/tools/spark/sv/PartitionEdges.java:30 | when `lastStart + edgeWidth` overflows, the beginning position wraps negative and no interval with a non-negative start is on the leading edge |
| Clustering.Step | src/main/java/org/broadinstitute/hellbender/tools/spark/sv/BreakpointEvidenceClusterer.java:27-54 | one `apply`: at most two records out; pending weight plus input weight equals output weight plus new pending weight; edge evidence empties the state and yields the previous summary, if any, then the evidence itself; interior evidence leaves a pending cluster on its own contig and yields nothing or the previous summary; a pending cluster clear of the edges stays clear |
| Clustering.BreakpointEvidenceClusterer.constructor | src/main/java/org/broadinstitute/hellbender/tools/spark/sv/BreakpointEvidenceClusterer.java:21-25 | stores the gap size and the edges; no pending interval and weight 0 |
| Clustering.BreakpointEvidenceClusterer.Apply | src/main/java/org/broadinstitute/hellbender/tools/spark/sv/BreakpointEvidenceClusterer.java:27-54 | the new fields and the output are those of `Step`; its five cases: edge with nothing pending yields `[evidence]`; edge with a pending cluster yields its summary `(interval, weight, true)` then the evidence and clears the interval; interior with nothing pending starts a cluster; a gap below `gapSize` joins and adds the weight; any other gap yields the summary and restarts at the evidence |
| Clustering.ClusterConservesWeight | src/main/java/org/broadinstitute/hellbender/tools/spark/sv/BreakpointEvidenceClusterer.java:27-54 | over any sequence of calls: weight in plus weight pending before equals weight out plus weight pending after |
| Clustering.StepSplit | src/main/java/org/broadinstitute/hellbender/tools/spark/sv/BreakpointEvidenceClusterer.java:29-53 | for one call from a state clear of the edges: the edge records out are the edge input, unmodified; every other record out is a summary; the interior weight is conserved |
| Clustering.ClusterSplit | src/main/java/org/broadinstitute/hellbender/tools/spark/sv/BreakpointEvidenceClusterer.java:27-54 | over any sequence of calls from a state clear of the edges: the edge records out are exactly the edge records in, in order; every other record out is a created summary; summary weight plus pending weight equals the interior input weight plus the weight pending at the start; the pending cluster stays clear of the edges |
| Clustering.ClusterOutputBound | src/main/java/org/broadinstitute/hellbender/tools/spark/sv/BreakpointEvidenceClusterer.java:33-37 | n calls return at most 2n records |
| Clustering.UnflushedTail | src/main/java/org/broadinstitute/hellbender/tools/spark/sv/BreakpointEvidenceClusterer.java:39-53 | a stream that ends with interior evidence leaves a cluster pending on that evidence's contig, and exactly its weight is missing from the output |
| Clustering.EdgeSentinelFlushes | src/main/java/org/broadinstitute/hellbender/tools/spark/sv/BreakpointEvidenceClusterer.java:29-38 | a final edge record flushes the pending cluster, then comes out itself, and leaves the clusterer idle |
| Clustering.GapSentinelFlushes | src/main/java/org/broadinstitute/hellbender/tools/spark/sv/BreakpointEvidenceClusterer.java:48-51 | a final interior record on another contig flushes the pending cluster and stays pending itself |
| Clustering.FlushedPartition | src/main/java/org/broadinstitute/hellbender/tools/spark/sv/BreakpointEvidenceClusterer.java:27-54 | a partition closed by an edge sentinel, from a fresh clusterer: nothing stays pending; the edge records come out as they went in, then the sentinel; every other output is a summary; the summaries carry exactly the interior input weight |
| Clustering.SeparatedFrom | src/main/java/org/broadinstitute/hellbender/tools/spark/sv/BreakpointEvidenceClusterer.java:48-51 | with a cluster pending on the first of a run of interior records, each at least the gap size from the one before, nothing is merged: every record but the last comes out alone as a summary and the last one stays pending |
| Clustering.WidelySeparated | src/main/java/org/broadinstitute/hellbender/tools/spark/sv/BreakpointEvidenceClusterer.java:48-51 | from a fresh clusterer, widely separated interior evidence is summarised one record at a time, location and weight unchanged, with the last record pending |
| Clustering.MergeExample | src/main/java/org/broadinstitute/hellbender/tools/spark/sv/BreakpointEvidenceClusterer.java:45-47 | [0,10) weight 1 and [12,20) weight 2 on contig 0, gap size 5, closed by a sentinel on contig -1: one summary [0,20) of weight 3, then the sentinel |
| Clustering.NonMergeExample | src/main/java/org/broadinstitute/hellbender/tools/spark/sv/BreakpointEvidenceClusterer.java:48-51 | the same records with gap size 1: two separate summaries in input order, then the sentinel |
| Clustering.ClusterPartition | src/main/java/org/broadinstitute/hellbender/tools/spark/utils/FlatMapGluer.java:57-61 | gluing a fresh clusterer over a partition with a sentinel and draining it yields the clusterer's left fold over the evidence followed by the sentinel; with an edge sentinel, the edge records come out unchanged then the sentinel, all other output is summaries, and the summaries carry the interior weight |
| Gluing.RunAppend | src/main/java/org/broadinstitute/hellbender/tools/spark/utils/FlatMapGluer.java:34-41 | mapping `xs + ys` is mapping `xs`, then `ys` from the state `xs` left behind, with the outputs concatenated |
| Gluing.FlatMapGluer.constructor | src/main/java/org/broadinstitute/hellbender/tools/spark/utils/FlatMapGluer.java:14-20 | no sentinel, nothing mapped or returned; the elements still to come are exactly the fold of `f` over the input |
| Gluing.FlatMapGluer.WithSentinel | src/main/java/org/broadinstitute/hellbender/tools/spark/utils/FlatMapGluer.java:22-29 | the given sentinel, nothing mapped or returned; the elements still to come are the fold of `f` over the input followed by the sentinel, if any |
| Gluing.FlatMapGluer.AppliedIsPrefix | src/main/java/org/broadinstitute/hellbender/tools/spark/utils/FlatMapGluer.java:34-41 | `f` has been applied to a prefix of the input followed by the sentinel: each input at most once and in order, the sentinel only after the last input, at most n+1 applications in all |
| Gluing.FlatMapGluer.ReturnedThenRemaining | src/main/java/org/broadinstitute/hellbender/tools/spark/utils/FlatMapGluer.java:31-50 | at every point, the elements returned so far followed by those still to come are the gluer's whole output |
| Gluing.FlatMapGluer.Pull | src/main/java/org/broadinstitute/hellbender/tools/spark/utils/FlatMapGluer.java:35-40 | one turn of the `hasNext` loop with the buffer exhausted: maps the next input, or else the sentinel and clears it, into a fresh buffer; changes nothing when neither is left; never changes what is still to come |
| Gluing.FlatMapGluer.HasNext | src/main/java/org/broadinstitute/hellbender/tools/spark/utils/FlatMapGluer.java:31-43 | true iff an element is still to come, and then one is buffered; what is still to come and what was returned are unchanged; `f` is applied only while the buffer is exhausted; a second call applies `f` to nothing new |
| Gluing.FlatMapGluer.Next | src/main/java/org/broadinstitute/hellbender/tools/spark/utils/FlatMapGluer.java:45-50 | with nothing left, reports `NoSuchElementException` and changes nothing that is observable; otherwise returns the first element still to come and moves it to the returned elements |
| Gluing.FlatMapGluer.Take | src/main/java/org/broadinstitute/hellbender/tools/spark/utils/FlatMapGluer.java:49 | on a non-empty buffer, returns the first element still to come and moves it to the returned elements; what remains loses exactly that element |
| Gluing.ApplyMapFunc | src/main/java/org/broadinstitute/hellbender/tools/spark/utils/FlatMapGluer.java:52-55 | a fresh gluer with a null sentinel, whose output is exactly the fold of `f` over the input |
| Gluing.ApplyMapFuncWithSentinel | src/main/java/org/broadinstitute/hellbender/tools/spark/utils/FlatMapGluer.java:57-61 | a fresh gluer whose output is the fold of `f` over the input followed by the sentinel, if any |
| Gluing.Drain | src/main/java/org/broadinstitute/hellbender/tools/spark/utils/FlatMapGluer.java:31-50 | calling `hasNext`/`next` until `hasNext` is false receives exactly the elements that were still to come, in order |
| Gluing.FlatMapAll | src/main/java/org/broadinstitute/hellbender/tools/spark/utils/FlatMapGluer.java:52-55 | for a stateless `f` and no sentinel, everything `next` returns is `f(x1) ++ ... ++ f(xn)` |
| Gluing.FlatMapAllWithSentinel | src/main/java/org/broadinstitute/hellbender/tools/spark/utils/FlatMapGluer.java:57-61 | for a stateless `f`, everything `next` returns is `f(x1) ++ ... ++ f(xn)`, followed by `f(sentinel)` when the sentinel is not null |

## Left out

- Clustering.Step: `curWeight` is a Java `int`, and `curWeight += weight` can overflow. Weights are unbounded integers here, so weight conservation is stated without 32-bit wrap-around.
- Clustering.BreakpointEvidenceClusterer.Apply: the same unbounded `curWeight` as `Step`.
- Edges.FromMetadata: the two "iff" clauses are stated only when `lastStart + edgeWidth` and `firstStart - edgeWidth` fit in an `int`. The boundaries themselves are computed with wrap-around, and `Edges.LeadingZoneWraps` covers one overflowing case.
- Edges.FromMetadata: `getPartitionBounds` with an index out of range throws in Java; the model requires `0 <= partitionIdx < getNPartitions()` instead.
- The internals of `SVInterval`, `BreakpointEvidence` and `ReadMetadata` are not part of this model. They are given the small definitions described above, and `UNMAPPED`'s value is a choice made here.
- Java `Iterator` objects: the input iterator and each result of `f` are sequences with cursors. An input iterator shared with other code, or one that changes while the gluer runs, is not modelled.
- Gluing.FlatMapGluer.HasNext: laziness is stated as "`f` is applied only when the buffer is exhausted and every earlier output has been returned". It does not separately say that every result skipped in one call was empty, although that follows from `Remaining` being unchanged.
- A Java `Function` with hidden mutable state is modelled by threading its state through the gluer (`mapState`). Aliasing of that object by other code is not modelled.
- Input sort order: neither class checks that evidence is sorted, and the model does not either. The properties hold for any input order.
- Spark partitioning, the distribution of evidence across partitions, and reconciliation of edge evidence between partitions are outside the three classes.
- `BaseRecalibratorSpark` and `CallSegments` are I/O and orchestration around libraries that are not part of this model.
