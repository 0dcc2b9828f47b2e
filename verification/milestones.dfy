/** The fixed set of launch milestones and its critical subset. */
module Milestones {

  /** The six milestones, in the order the tracker creates them. */
  const AllMilestones: seq<string> :=
    ["engine_chill", "fuel_load", "pressurization", "terminal_count", "ignition", "liftoff"]

  /** Milestones whose failure scrubs the launch. */
  const CriticalMilestones: set<string> := {"engine_chill", "fuel_load", "pressurization"}

  predicate IsMilestone(m: string) {
    m in AllMilestones
  }

  lemma AllMilestonesDistinct()
    ensures |AllMilestones| == 6
    ensures forall i, j :: 0 <= i < j < |AllMilestones| ==> AllMilestones[i] != AllMilestones[j]
  {
  }

  lemma CriticalAreMilestones()
    ensures forall m :: m in CriticalMilestones ==> IsMilestone(m)
    ensures forall m :: m in CriticalMilestones <==> m in AllMilestones[..3]
  {
  }
}
