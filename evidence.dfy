/** The part of the `BreakpointEvidence` collaborator that the core relies on: a location, a
    weight, and the flag its three-argument constructor sets on the cluster summaries that the
    clusterer creates. `BreakpointEvidence` itself is not part of this model. */
module Evidence {
  import opened JavaTypes
  import opened Intervals

  datatype BreakpointEvidence = BreakpointEvidence(location: SVInterval, weight: int, isClusterSummary: bool)

  /** Total weight of a sequence of evidence records. */
  function Weight(es: seq<BreakpointEvidence>): int
  {
    if es == [] then 0 else es[0].weight + Weight(es[1..])
  }

  lemma {:induction false} WeightAppend(a: seq<BreakpointEvidence>, b: seq<BreakpointEvidence>)
    ensures Weight(a + b) == Weight(a) + Weight(b)
  {
    if a != [] {
      assert (a + b)[1..] == a[1..] + b;
      WeightAppend(a[1..], b);
    } else {
      assert a + b == b;
    }
  }
}
