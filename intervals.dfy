/** The part of the `SVInterval` collaborator that the core relies on: a contig id, a start and
    an end, the gap between two intervals and the join of two intervals on one contig.
    `SVInterval` itself is not part of this model; the definitions below follow the contract the
    clusterer depends on. */
module Intervals {
  import opened JavaTypes

  datatype SVInterval = SVInterval(contig: Int32, start: Int32, end: Int32)

  /** Number of bases from the end of `a` to the start of `b` on one contig. On different contigs
      it is `Integer.MAX_VALUE`, so no gap size a Java `int` can hold lets the two merge. */
  function GapLen(a: SVInterval, b: SVInterval): (r: int)
    ensures a.contig != b.contig ==> r >= INT_MAX
    ensures a.contig == b.contig ==> a.end + r == b.start
  {
    if a.contig != b.contig then INT_MAX else b.start - a.end
  }

  /** The smallest interval covering both `a` and `b`; only defined on one contig. */
  function Join(a: SVInterval, b: SVInterval): (r: SVInterval)
    requires a.contig == b.contig
    ensures r.contig == a.contig
    ensures r.start <= a.start && r.start <= b.start && (r.start == a.start || r.start == b.start)
    ensures r.end >= a.end && r.end >= b.end && (r.end == a.end || r.end == b.end)
  {
    SVInterval(a.contig,
               if a.start <= b.start then a.start else b.start,
               if a.end >= b.end then a.end else b.end)
  }
}
