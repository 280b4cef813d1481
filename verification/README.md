# Dynamixel joint state publisher — Dafny model

This project models the core of the `dynamixel_joint_state_publisher` ROS node.
The node collects the state reports of many dynamixel joint controllers and
republishes them, at a fixed rate, as one `sensor_msgs/JointState` message.

Its core is the joint-state table, a map from joint name to a
`JointStateMessage` record `(name, position, velocity, effort)`, used in three
steps:

- **Start-up and seeding.** An empty `~joint_controllers` list is fatal.
  Otherwise the controllers are sorted, and each one writes a zero record under
  its resolved `joint_name` (`JointStatePublisher.Init`, `JointStatePublisher.Seed`,
  with `StringOrder.Sort` standing for Python's `sorted()`).
- **Update.** Every controller report replaces the record under the report's
  name with `(name, current_pos, velocity, load)`. An unknown name is inserted
  as a new key (`JointStates.Update`). A stream of reports is `JointStates.ApplyReports`.
- **Snapshot.** One pass over the table fills four parallel lists and stamps the
  message with the frame `base_link` (`JointStatePublisher.Snapshot`).

Modules:

- `string_order.dfy` (`StringOrder`): Python's string order and `sorted()`.
- `joint_states.dfy` (`JointStates`): the record, the table, the report handler.
- `joint_state_publisher.dfy` (`JointStatePublisher`): start-up, seeding, snapshot.
- `scenarios.dfy` (`Scenarios`): worked scenarios on a two-joint configuration.

Modelling choices:

- Positions, velocities and efforts are `real`. The node never computes with them; it only copies them.
- The parameter server is a map from controller name to its `joint_name` parameter. A missing parameter reads as `""`, which is an ordinary key, as in the source.
- The `Time.now()` stamp is a parameter of `Snapshot`.
- Python 2 iterates `dict.values()` in an arbitrary order. `Snapshot` therefore takes any list that enumerates the table's keys once each. Nothing is claimed about that order.
- The report callback and the publish loop run concurrently in the node. Here they are sequential operations on an immutable map.

Behaviour worth noting:

- A report for a joint that was never configured is inserted as a new key, so the key set can grow.
- The snapshot follows the dictionary's iteration order, not the configuration order or the sorted order.
- Controllers that resolve to the same joint name share one entry. Seeding can thus yield fewer entries than controllers.

## Model

| member | source | states |
|---|---|---|
| JointStatePublisher.Init | src/dynamixel_joint_state_publisher/dynamixel_joint_state_publisher.py:47-62 | Start-up fails exactly when the controller list is empty. On success the controller list is a sorted permutation of the configuration. The table's keys are exactly the controllers' resolved joint names. Every record is the zero record named by its key. There are no more entries than controllers. |
| JointStatePublisher.Seed | src/dynamixel_joint_state_publisher/dynamixel_joint_state_publisher.py:59-62 | The seeding loop adds exactly the resolved joint names as keys and gives each a zero record. Every other key keeps its record. |
| JointStatePublisher.ResolvedNamesBound | src/dynamixel_joint_state_publisher/dynamixel_joint_state_publisher.py:59-61 | Controllers that share a joint name collapse into one entry, so there are at most as many joint names as controllers. |
| StringOrder.LeIsLexicographic | src/dynamixel_joint_state_publisher/dynamixel_joint_state_publisher.py:59 | The comparison `sorted()` uses on controller names agrees with the lexicographic order by code point: `a <= b` exactly when `a` is a prefix of `b`, or `a` has the smaller character at the first position where they differ. |
| JointStatePublisher.UnsetJointNameSeedsEmptyJoint | src/dynamixel_joint_state_publisher/dynamixel_joint_state_publisher.py:60-61 | An unset `joint_name` parameter reads as the default `''`, which becomes an ordinary key: if some controller has no parameter, seeding writes a zero record under `""`; if every controller names a non-empty joint, no `""` entry is created. |
| JointStates.RecordOf | src/dynamixel_joint_state_publisher/dynamixel_joint_state_publisher.py:77 | The record built from a report is named after the reporting joint, and keeps its `current_pos`, `velocity` and `load` as position, velocity and effort. No reported value is lost: the report can be read back from the record. |
| StringOrder.Sort | src/dynamixel_joint_state_publisher/dynamixel_joint_state_publisher.py:59 | `sorted()` of the controller names returns a permutation of its input that is ordered by Python's string comparison. |
| StringOrder.SortedPermutationUnique | src/dynamixel_joint_state_publisher/dynamixel_joint_state_publisher.py:59 | Only one list is both sorted and a permutation of the input, so the controller list is exactly the one `sorted()` returns. |
| JointStates.Update | src/dynamixel_joint_state_publisher/dynamixel_joint_state_publisher.py:76-78 | After a report, the reported joint's record is `(name, current_pos, velocity, load)`. The key set becomes the old key set plus the reported name. Every other key keeps its record. A table whose records carry their keys still does so. |
| JointStates.UpdateSize | src/dynamixel_joint_state_publisher/dynamixel_joint_state_publisher.py:78 | A report grows the table by one entry exactly when its name was not a key, and otherwise leaves the size unchanged. |
| JointStates.UpdateLastWriteWins | src/dynamixel_joint_state_publisher/dynamixel_joint_state_publisher.py:76-78 | Two reports for the same joint leave the table as if only the second had arrived. |
| JointStates.UpdatesOnDistinctKeysCommute | src/dynamixel_joint_state_publisher/dynamixel_joint_state_publisher.py:78 | Reports for different joints commute, so neither is lost whichever arrives first. |
| JointStates.ApplyReports | src/dynamixel_joint_state_publisher/dynamixel_joint_state_publisher.py:76-78 | After any sequence of reports, the key set is the old key set plus every reported name, so no key is ever removed. Joints never reported keep their records. Records still carry their keys. |
| JointStates.ApplyReportsLastWriteWins | src/dynamixel_joint_state_publisher/dynamixel_joint_state_publisher.py:76-78 | After a sequence of reports, a joint's record is the one built from the last report that named it. |
| JointStatePublisher.ConfiguredJointsPersist | src/dynamixel_joint_state_publisher/dynamixel_joint_state_publisher.py:59-78 | After start-up and any reports, every configured joint is still a key, and every record's name equals its key. |
| JointStatePublisher.Snapshot | src/dynamixel_joint_state_publisher/dynamixel_joint_state_publisher.py:80-95 | The four published lists have the length of the enumeration. Index `i` of each list comes from the record of the `i`-th enumerated joint. The frame is `base_link` and the stamp is the given time. |
| JointStatePublisher.SnapshotNames | src/dynamixel_joint_state_publisher/dynamixel_joint_state_publisher.py:88-92 | In a table whose records carry their keys, the published names have no duplicates. As a set they equal the table's keys, and there is one per entry. |
| JointStatePublisher.SnapshotRoundTrip | src/dynamixel_joint_state_publisher/dynamixel_joint_state_publisher.py:83-92 | Pairing the published lists back up by index recovers exactly the table, so the snapshot loses and misaligns nothing. |
| JointStatePublisher.SeededSnapshotIsZero | src/dynamixel_joint_state_publisher/dynamixel_joint_state_publisher.py:59-92 | A snapshot taken right after start-up names each configured joint exactly once, with zero position, velocity and effort. |
| Scenarios.NoControllersIsFatal | src/dynamixel_joint_state_publisher/dynamixel_joint_state_publisher.py:49-53 | An empty controller list gives the fatal configuration error and builds no table. |
| Scenarios.TwoJointStartUp | src/dynamixel_joint_state_publisher/dynamixel_joint_state_publisher.py:55-62 | Controllers configured as `b_controller, a_controller` are kept sorted, and joints A and B start at zero. |
| Scenarios.TwoJointReports | src/dynamixel_joint_state_publisher/dynamixel_joint_state_publisher.py:76-95 | A report for B changes only B in the next snapshot. A report for the unconfigured joint C adds a third key. |

## Left out

- ROS plumbing: `init_node`, the `~rate` parameter and `Rate`/`sleep`, the subscribers, the publisher and `publish()`, `is_shutdown`, `spin`. These are I/O with no logic of their own.
- Reading the `~joint_controllers` and `joint_name` parameters: they arrive as a list and a map. A `~joint_controllers` value that is a non-empty string instead of a list is not modelled.
- Logging and the process exit: `exit(1)` is the `Fatal` result.
- Concurrency between the report callback and the publish loop, and the atomicity of dictionary operations. Both are sequential steps on one map here.
- Floating-point behaviour: the values are only copied, so `real` stands for them.
- The iteration order of `dict.values()`: `Snapshot` accepts any enumeration of the keys.
- String comparison is on `char` code points. This matches Python's comparison of ASCII controller names.
