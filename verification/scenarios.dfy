/** Worked scenarios of the node on a two-joint configuration. */
module Scenarios {
  import opened StringOrder
  import opened JointStates
  import opened JointStatePublisher

  /** The joint names of the two controllers. */
  function TwoJointParams(): Params
  {
    map["b_controller" := "B", "a_controller" := "A"]
  }

  /** An empty controller list stops the node before any table exists. */
  lemma NoControllersIsFatal(params: Params)
    ensures Init([], params) == Fatal(NoJointControllers)
  {
  }

  /** Python's `sorted()` puts "a_controller" before "b_controller". */
  lemma TwoControllersSorted()
    ensures Sort(["b_controller", "a_controller"]) == ["a_controller", "b_controller"]
  {
  }

  /** Seeding from the sorted controllers gives both joints a zero record. */
  lemma TwoJointsSeeded()
    ensures Seed(map[], ["a_controller", "b_controller"], TwoJointParams()) == map["A" := Zero("A"), "B" := Zero("B")]
  {
  }

  /**
    Two controllers configured out of order are sorted, and the node starts
    with both joints at zero.
   */
  lemma TwoJointStartUp()
    ensures Init(["b_controller", "a_controller"], TwoJointParams())
         == Ok(Node(["a_controller", "b_controller"], map["A" := Zero("A"), "B" := Zero("B")]))
  {
    TwoControllersSorted();
    TwoJointsSeeded();
  }

  /**
    A report for "B" changes only "B" in the next snapshot, and a report for
    the unconfigured joint "C" adds a third entry instead of being dropped.
   */
  lemma TwoJointReports()
    ensures var t := Update(map["A" := Zero("A"), "B" := Zero("B")], ControllerState("B", 1.5, 0.2, 0.1));
      && Snapshot(t, ["A", "B"], 7) == JointState(Header(7, FrameId), ["A", "B"], [0.0, 1.5], [0.0, 0.2], [0.0, 0.1])
      && Update(t, ControllerState("C", 1.0, 0.0, 0.0)).Keys == {"A", "B", "C"}
  {
  }
}
