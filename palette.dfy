/** Colour assignment for emitted clusters (`assign_color`). */
module Palette {

  /** The tab-group colours the service cycles through, in order. */
  const Colors: seq<string> := ["blue", "green", "yellow", "purple", "pink", "cyan", "orange", "red"]

  /** `colors[cluster_id % len(colors)]`. Python's `%` by a positive divisor
      and Dafny's `%` agree: both give a remainder in [0, 8), also for a
      negative cluster id. */
  function AssignColor(clusterId: int): (color: string)
    ensures color in Colors
  {
    Colors[clusterId % |Colors|]
  }

  /** Two cluster ids get the same colour exactly when they agree modulo 8. */
  lemma AssignColorSameExactlyModulo(a: int, b: int)
    ensures AssignColor(a) == AssignColor(b) <==> a % 8 == b % 8
  {
    var i, j := a % 8, b % 8;
    if i != j {
      assert Colors[i] != Colors[j];
    }
  }

  /** Cluster ids that differ by a multiple of 8 share a colour. */
  lemma AssignColorPeriodic(clusterId: int, k: int)
    ensures AssignColor(clusterId + 8 * k) == AssignColor(clusterId)
  {
    AssignColorSameExactlyModulo(clusterId + 8 * k, clusterId);
  }
}
