/** The zones near the two ends of one partition in which evidence must not be clustered
    locally: a "leading" zone at the start of the partition, bounded by the last read of the
    previous partition, and a "trailing" zone at its end, bounded by the first read of the next
    partition. Each zone is a contig id and a position; both are fixed at construction. */
module Edges {
  import opened JavaTypes
  import opened Intervals
  import opened Metadata

  datatype PartitionEdges = PartitionEdges(
    beginningContigID: Int32, beginningPosition: Int32,
    endingContigID: Int32, endingPosition: Int32)
  {
    /** On the beginning contig, strictly before the beginning position. */
    predicate OnLeadingEdge(interval: SVInterval) {
      interval.contig == beginningContigID && interval.start < beginningPosition
    }

    /** On the ending contig, at or after the ending position. */
    predicate OnTrailingEdge(interval: SVInterval) {
      interval.contig == endingContigID && interval.start >= endingPosition
    }

    predicate OnEdge(interval: SVInterval) {
      OnLeadingEdge(interval) || OnTrailingEdge(interval)
    }
  }

  /** An interval on a real contig. */
  predicate Mapped(interval: SVInterval) {
    0 <= interval.contig && interval.contig != UNMAPPED
  }

  /** The no-argument constructor: both zones sit on contig -1, so no interval on a real contig is
      ever on an edge (an interval on contig -1 always is, on one side or the other). */
  function NoEdges(): (r: PartitionEdges)
    ensures forall interval: SVInterval :: r.OnEdge(interval) <==> interval.contig == -1
    ensures forall interval: SVInterval :: interval.contig >= 0 ==> !r.OnEdge(interval)
  {
    PartitionEdges(-1, 0, -1, 0)
  }

  /** Bounds of the partition before `partitionIdx`. */
  function PreviousBounds(partitionIdx: Int32, readMetadata: ReadMetadata): PartitionBounds
    requires 0 < partitionIdx < readMetadata.NPartitions()
  {
    readMetadata.partitionBounds[partitionIdx - 1]
  }

  /** Bounds of the partition after `partitionIdx`. */
  function NextBounds(partitionIdx: Int32, readMetadata: ReadMetadata): PartitionBounds
    requires 0 <= partitionIdx < readMetadata.NPartitions() - 1
  {
    readMetadata.partitionBounds[partitionIdx + 1]
  }

  /** The constructor from the metadata: the leading zone reaches `edgeWidth` past the start of
      the previous partition's last read, the trailing zone reaches `edgeWidth` before the start of
      the next partition's first read. A zone with no neighbour, or whose neighbour has no mapped
      reads, never holds a mapped interval. Boundaries are computed with Java's `int` arithmetic. */
  function FromMetadata(partitionIdx: Int32, readMetadata: ReadMetadata, edgeWidth: Int32): (r: PartitionEdges)
    requires 0 <= partitionIdx < readMetadata.NPartitions()
    // first partition: nothing precedes it
    ensures partitionIdx == 0 ==>
      forall interval: SVInterval :: (Mapped(interval) || interval.start >= 0) ==> !r.OnLeadingEdge(interval)
    // last partition: nothing follows it
    ensures partitionIdx == readMetadata.NPartitions() - 1 ==>
      forall interval: SVInterval :: (Mapped(interval) || interval.start < INT_MAX) ==> !r.OnTrailingEdge(interval)
    // previous partition without mapped reads
    ensures 0 < partitionIdx && PreviousBounds(partitionIdx, readMetadata).lastContigID == UNMAPPED ==>
      forall interval: SVInterval :: (Mapped(interval) || interval.start >= 0) ==> !r.OnLeadingEdge(interval)
    // next partition without mapped reads
    ensures partitionIdx < readMetadata.NPartitions() - 1 && NextBounds(partitionIdx, readMetadata).firstContigID == UNMAPPED ==>
      forall interval: SVInterval :: (Mapped(interval) || interval.start < INT_MAX) ==> !r.OnTrailingEdge(interval)
    // previous partition with mapped reads, boundary within `int` range
    ensures 0 < partitionIdx && PreviousBounds(partitionIdx, readMetadata).lastContigID != UNMAPPED &&
            InRange(PreviousBounds(partitionIdx, readMetadata).lastStart + edgeWidth) ==>
      forall interval: SVInterval :: r.OnLeadingEdge(interval) <==>
        interval.contig == PreviousBounds(partitionIdx, readMetadata).lastContigID &&
        interval.start < PreviousBounds(partitionIdx, readMetadata).lastStart + edgeWidth
    // next partition with mapped reads, boundary within `int` range
    ensures partitionIdx < readMetadata.NPartitions() - 1 && NextBounds(partitionIdx, readMetadata).firstContigID != UNMAPPED &&
            InRange(NextBounds(partitionIdx, readMetadata).firstStart - edgeWidth) ==>
      forall interval: SVInterval :: r.OnTrailingEdge(interval) <==>
        interval.contig == NextBounds(partitionIdx, readMetadata).firstContigID &&
        interval.start >= NextBounds(partitionIdx, readMetadata).firstStart - edgeWidth
  {
    var (beginningContigID, beginningPosition) :=
      if partitionIdx == 0 then (UNMAPPED, -1)
      else
        var bounds := PreviousBounds(partitionIdx, readMetadata);
        if bounds.lastContigID == UNMAPPED then (bounds.lastContigID, -1)
        else (bounds.lastContigID, Wrap(bounds.lastStart + edgeWidth));
    var (endingContigID, endingPosition) :=
      if partitionIdx == readMetadata.NPartitions() - 1 then (UNMAPPED, INT_MAX)
      else
        var bounds := NextBounds(partitionIdx, readMetadata);
        if bounds.firstContigID == UNMAPPED then (bounds.firstContigID, INT_MAX)
        else (bounds.firstContigID, Wrap(bounds.firstStart - edgeWidth));
    PartitionEdges(beginningContigID, beginningPosition, endingContigID, endingPosition)
  }

  /** When the previous partition's last start plus a non-negative edge width exceeds
      `Integer.MAX_VALUE`, the beginning position wraps to a negative number and the leading
      zone holds no interval with a non-negative start. */
  lemma LeadingZoneWraps(partitionIdx: Int32, readMetadata: ReadMetadata, edgeWidth: Int32, interval: SVInterval)
    requires 0 < partitionIdx < readMetadata.NPartitions()
    requires PreviousBounds(partitionIdx, readMetadata).lastContigID != UNMAPPED
    requires edgeWidth >= 0 && PreviousBounds(partitionIdx, readMetadata).lastStart + edgeWidth > INT_MAX
    requires interval.start >= 0
    ensures !FromMetadata(partitionIdx, readMetadata, edgeWidth).OnLeadingEdge(interval)
  {
  }
}
