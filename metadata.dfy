/** The part of the `ReadMetadata` collaborator that `PartitionEdges` reads: the number of
    partitions and, for each partition, the contig and start of its first and last read.
    `ReadMetadata` itself is not part of this model. */
module Metadata {
  import opened JavaTypes

  /** Contig id of a partition bound with no mapped reads (`PartitionBounds.UNMAPPED`). */
  const UNMAPPED: Int32 := INT_MAX

  datatype PartitionBounds = PartitionBounds(
    firstContigID: Int32, firstStart: Int32,
    lastContigID: Int32, lastStart: Int32)

  datatype ReadMetadata = ReadMetadata(partitionBounds: seq<PartitionBounds>) {
    function NPartitions(): nat {
      |partitionBounds|
    }
  }
}
