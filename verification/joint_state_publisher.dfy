/**
  The joint state publisher node: it refuses to start without controllers,
  seeds the joint-state table with a zero record per configured joint, and on
  every tick turns the whole table into one `sensor_msgs/JointState` message
  of four index-aligned lists.

  The parameter server, subscribers, the publisher, the rate loop and the
  clock are not modelled: the controllers' `joint_name` parameters arrive as
  a map, the current time as a number, and each tick's iteration order over
  the table as an explicit enumeration of its keys.
 */
module JointStatePublisher {
  import opened StringOrder
  import opened JointStates

  /** Why the node refuses to start. */
  datatype ConfigError = NoJointControllers

  /** Either a started node or the fatal configuration error. */
  datatype Result<T> = Ok(value: T) | Fatal(error: ConfigError)

  /** The `joint_name` parameter of each controller that has one. */
  type Params = map<string, string>

  /** A controller's joint name; an unset parameter reads as the empty name. */
  function JointNameOf(params: Params, controller: string): string
  {
    if controller in params then params[controller] else ""
  }

  /** The joint names the given controllers resolve to. */
  function ResolvedNames(params: Params, controllers: seq<string>): set<string>
  {
    set c | c in controllers :: JointNameOf(params, c)
  }

  /** Lists with the same elements resolve to the same joint names. */
  lemma ResolvedNamesOfPermutation(params: Params, a: seq<string>, b: seq<string>)
    requires multiset(a) == multiset(b)
    ensures ResolvedNames(params, a) == ResolvedNames(params, b)
  {
    forall c ensures c in a <==> c in b {
      assert c in a <==> c in multiset(a);
      assert c in b <==> c in multiset(b);
    }
  }

  /** Unfolds the joint names of a non-empty controller list at its head. */
  lemma ResolvedNamesCons(params: Params, controllers: seq<string>)
    requires |controllers| > 0
    ensures ResolvedNames(params, controllers)
         == {JointNameOf(params, controllers[0])} + ResolvedNames(params, controllers[1..])
  {
  }

  /** Controllers that share a joint name share one entry, so there are never more joints than controllers. */
  lemma {:induction false} ResolvedNamesBound(params: Params, controllers: seq<string>)
    ensures |ResolvedNames(params, controllers)| <= |controllers|
    decreases |controllers|
  {
    if |controllers| > 0 {
      ResolvedNamesCons(params, controllers);
      ResolvedNamesBound(params, controllers[1..]);
    }
  }

  /**
    The seeding loop: the controllers are visited in the given order and each
    writes a zero record under its joint name, keeping what `t` held for
    every other joint.
   */
  function Seed(t: Table, controllers: seq<string>, params: Params): (r: Table)
    ensures r.Keys == t.Keys + ResolvedNames(params, controllers)
    ensures forall k | k in ResolvedNames(params, controllers) :: r[k] == Zero(k)
    ensures forall k | k in t && k !in ResolvedNames(params, controllers) :: r[k] == t[k]
    decreases |controllers|
  {
    if |controllers| == 0 then t
    else
      var jn := JointNameOf(params, controllers[0]);
      ResolvedNamesCons(params, controllers);
      Seed(t[jn := Zero(jn)], controllers[1..], params)
  }

  /**
    The empty default of an unset `joint_name` parameter is an ordinary key:
    seeding creates a zero record under `""` when some controller has no
    parameter, and never creates one when every controller names a joint.
   */
  lemma UnsetJointNameSeedsEmptyJoint(t: Table, controllers: seq<string>, params: Params)
    ensures (exists c | c in controllers :: c !in params) ==>
              "" in Seed(t, controllers, params) && Seed(t, controllers, params)[""] == Zero("")
    ensures "" !in t && (forall c | c in controllers :: c in params && params[c] != "") ==>
              "" !in Seed(t, controllers, params)
  {
  }

  /** The node's state: its sorted controller list and the joint-state table. */
  datatype Node = Node(controllers: seq<string>, jointStates: Table)

  /**
    Start-up: an empty controller list is fatal; otherwise the controllers
    are sorted and the table is seeded from them, starting from an empty map.
   */
  function Init(jointControllers: seq<string>, params: Params): (r: Result<Node>)
    ensures r.Fatal? <==> |jointControllers| == 0
    ensures r.Ok? ==> IsSorted(r.value.controllers)
    ensures r.Ok? ==> multiset(r.value.controllers) == multiset(jointControllers)
    ensures r.Ok? ==> r.value.jointStates.Keys == ResolvedNames(params, jointControllers)
    ensures r.Ok? ==> forall k | k in r.value.jointStates :: r.value.jointStates[k] == Zero(k)
    ensures r.Ok? ==> |r.value.jointStates| <= |jointControllers|
    ensures r.Ok? ==> WellKeyed(r.value.jointStates)
  {
    if |jointControllers| == 0 then Fatal(NoJointControllers)
    else
      var controllers := Sort(jointControllers);
      ResolvedNamesOfPermutation(params, controllers, jointControllers);
      assert |controllers| == |multiset(controllers)| == |jointControllers|;
      ResolvedNamesBound(params, jointControllers);
      Ok(Node(controllers, Seed(map[], controllers, params)))
  }

  /** The frame every published message is stamped with. */
  const FrameId: string := "base_link"

  datatype Header = Header(stamp: int, frameId: string)

  /** The published `sensor_msgs/JointState`: four parallel lists. */
  datatype JointState = JointState(
    header: Header,
    name: seq<string>,
    position: seq<real>,
    velocity: seq<real>,
    effort: seq<real>)

  /** No element of `s` occurs twice. */
  predicate Distinct<T(==)>(s: seq<T>)
  {
    forall i, j | 0 <= i < j < |s| :: s[i] != s[j]
  }

  /** `order` lists every key of `t` exactly once, in some order. */
  predicate Enumerates(order: seq<string>, t: Table)
  {
    && Distinct(order)
    && (forall k | k in order :: k in t)
    && (forall k | k in t :: k in order)
  }

  /**
    One publish tick: a single pass over the table, in the order `order`,
    appends each record's four fields to the four lists; the header carries
    the time `stamp` and the fixed frame.
   */
  function Snapshot(t: Table, order: seq<string>, stamp: int): (msg: JointState)
    requires forall k | k in order :: k in t
    ensures msg.header == Header(stamp, FrameId)
    ensures |msg.name| == |msg.position| == |msg.velocity| == |msg.effort| == |order|
    ensures forall i | 0 <= i < |order| ::
              && msg.name[i] == t[order[i]].name
              && msg.position[i] == t[order[i]].position
              && msg.velocity[i] == t[order[i]].velocity
              && msg.effort[i] == t[order[i]].effort
    decreases |order|
  {
    if |order| == 0 then JointState(Header(stamp, FrameId), [], [], [], [])
    else
      var prev := Snapshot(t, order[..|order| - 1], stamp);
      var joint := t[order[|order| - 1]];
      JointState(
        prev.header,
        prev.name + [joint.name],
        prev.position + [joint.position],
        prev.velocity + [joint.velocity],
        prev.effort + [joint.effort])
  }

  /** A list without repetitions has as many elements as its set. */
  lemma {:induction false} DistinctCardinality(s: seq<string>)
    requires Distinct(s)
    ensures |set k | k in s| == |s|
    decreases |s|
  {
    if |s| > 0 {
      var tail := s[1..];
      assert Distinct(tail) by {
        forall i, j | 0 <= i < j < |tail| ensures tail[i] != tail[j] {
          assert tail[i] == s[i + 1] && tail[j] == s[j + 1];
        }
      }
      DistinctCardinality(tail);
      assert s == [s[0]] + tail;
      assert s[0] !in tail by {
        forall j | 0 <= j < |tail| ensures tail[j] != s[0] {
          assert tail[j] == s[j + 1];
        }
      }
      assert (set k | k in s) == {s[0]} + (set k | k in tail);
    }
  }

  /**
    In a table whose records carry their keys, the published names are the
    table's keys, each exactly once, and there are as many entries as joints.
   */
  lemma SnapshotNames(t: Table, order: seq<string>, stamp: int)
    requires WellKeyed(t)
    requires Enumerates(order, t)
    ensures Distinct(Snapshot(t, order, stamp).name)
    ensures forall k :: k in Snapshot(t, order, stamp).name <==> k in t
    ensures |Snapshot(t, order, stamp).name| == |t|
  {
    var msg := Snapshot(t, order, stamp);
    assert msg.name == order;
    DistinctCardinality(order);
    assert (set k | k in order) == t.Keys;
  }

  /**
    What a subscriber reads off a message: each name paired with the
    position, velocity and effort at the same index.
   */
  function Regroup(msg: JointState): (t: Table)
    requires |msg.position| == |msg.name| && |msg.velocity| == |msg.name| && |msg.effort| == |msg.name|
    requires Distinct(msg.name)
    ensures forall k | k in t :: k in msg.name
    ensures forall i | 0 <= i < |msg.name| ::
              msg.name[i] in t && t[msg.name[i]] == JointStateMessage(msg.name[i], msg.position[i], msg.velocity[i], msg.effort[i])
  {
    map i | 0 <= i < |msg.name| :: msg.name[i] := JointStateMessage(msg.name[i], msg.position[i], msg.velocity[i], msg.effort[i])
  }

  /** Regrouping lists aligned with an enumeration of a well-keyed table gives the table back. */
  lemma RegroupAligned(t: Table, order: seq<string>, msg: JointState)
    requires WellKeyed(t)
    requires Enumerates(order, t)
    requires msg.name == order
    requires |msg.position| == |order| && |msg.velocity| == |order| && |msg.effort| == |order|
    requires forall i | 0 <= i < |order| ::
               msg.position[i] == t[order[i]].position && msg.velocity[i] == t[order[i]].velocity && msg.effort[i] == t[order[i]].effort
    ensures Regroup(msg) == t
  {
  }

  /**
    A snapshot loses nothing: pairing its lists back up by index gives back
    exactly the table it was taken from.
   */
  lemma SnapshotRoundTrip(t: Table, order: seq<string>, stamp: int)
    requires WellKeyed(t)
    requires Enumerates(order, t)
    ensures Distinct(Snapshot(t, order, stamp).name)
    ensures Regroup(Snapshot(t, order, stamp)) == t
  {
    var msg := Snapshot(t, order, stamp);
    assert msg.name == order;
    RegroupAligned(t, order, msg);
  }

  /**
    Right after start-up every configured joint is published once, with zero
    position, velocity and effort.
   */
  lemma SeededSnapshotIsZero(jointControllers: seq<string>, params: Params, node: Node, order: seq<string>, stamp: int)
    requires Init(jointControllers, params) == Ok(node)
    requires Enumerates(order, node.jointStates)
    ensures var msg := Snapshot(node.jointStates, order, stamp);
      && (forall k :: k in msg.name <==> k in ResolvedNames(params, jointControllers))
      && Distinct(msg.name)
      && (forall i | 0 <= i < |msg.name| :: msg.position[i] == 0.0 && msg.velocity[i] == 0.0 && msg.effort[i] == 0.0)
  {
    var t := node.jointStates;
    var msg := Snapshot(t, order, stamp);
    SnapshotNames(t, order, stamp);
    forall i | 0 <= i < |msg.name| ensures msg.position[i] == 0.0 && msg.velocity[i] == 0.0 && msg.effort[i] == 0.0 {
      assert t[order[i]] == Zero(order[i]);
    }
  }

  /**
    Whatever reports arrive after start-up, every configured joint is still a
    key and every record still carries its key as its name.
   */
  lemma ConfiguredJointsPersist(jointControllers: seq<string>, params: Params, reports: seq<ControllerState>)
    requires Init(jointControllers, params).Ok?
    ensures var t := ApplyReports(Init(jointControllers, params).value.jointStates, reports);
      && ResolvedNames(params, jointControllers) <= t.Keys
      && WellKeyed(t)
  {
  }
}
