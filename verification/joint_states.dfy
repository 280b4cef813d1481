/**
  The node's joint-state table: one record per joint name, replaced wholesale
  by every controller state report. Positions, velocities and efforts are
  floating-point values that the node only passes through, so `real` stands
  for them and no arithmetic is ever done on them.
 */
module JointStates {

  /** The per-joint record the node stores (its `JointStateMessage` class). */
  datatype JointStateMessage = JointStateMessage(name: string, position: real, velocity: real, effort: real)

  /** The fields the node reads from a dynamixel controller's state report. */
  datatype ControllerState = ControllerState(name: string, currentPos: real, velocity: real, load: real)

  /** The table from joint name to its latest record. */
  type Table = map<string, JointStateMessage>

  /** The record a joint is seeded with before any report arrives. */
  function Zero(name: string): JointStateMessage
  {
    JointStateMessage(name, 0.0, 0.0, 0.0)
  }

  /** The report a record was built from: the effort is the reported `load`. */
  function ReportOf(e: JointStateMessage): ControllerState
  {
    ControllerState(e.name, e.position, e.velocity, e.effort)
  }

  /**
    The record built from one report. It is named after the reporting joint
    and keeps every reported value, so the report can be read back from it.
   */
  function RecordOf(msg: ControllerState): (e: JointStateMessage)
    ensures e.name == msg.name
    ensures ReportOf(e) == msg
  {
    JointStateMessage(msg.name, msg.currentPos, msg.velocity, msg.load)
  }

  /** Every stored record carries its own key as its name. */
  predicate WellKeyed(t: Table)
  {
    forall k | k in t :: t[k].name == k
  }

  /**
    The report handler: the record under the report's name is replaced, and
    a name that was never configured becomes a new key.
   */
  function Update(t: Table, msg: ControllerState): (r: Table)
    ensures msg.name in r && r[msg.name] == RecordOf(msg)
    ensures r.Keys == t.Keys + {msg.name}
    ensures forall k | k in t && k != msg.name :: r[k] == t[k]
    ensures WellKeyed(t) ==> WellKeyed(r)
  {
    var r := t[msg.name := RecordOf(msg)];
    assert r.Keys == t.Keys + {msg.name};
    r
  }

  /** The table grows by one entry exactly when the report names an unconfigured joint. */
  lemma UpdateSize(t: Table, msg: ControllerState)
    ensures |Update(t, msg)| == if msg.name in t then |t| else |t| + 1
  {
  }

  /** Two reports for the same joint leave the table as the second one alone would. */
  lemma UpdateLastWriteWins(t: Table, first: ControllerState, second: ControllerState)
    requires first.name == second.name
    ensures Update(Update(t, first), second) == Update(t, second)
  {
  }

  /** Reports for different joints commute: neither overwrites the other. */
  lemma UpdatesOnDistinctKeysCommute(t: Table, a: ControllerState, b: ControllerState)
    requires a.name != b.name
    ensures Update(Update(t, a), b) == Update(Update(t, b), a)
  {
  }

  /** The names a sequence of reports mentions. */
  function ReportedNames(rs: seq<ControllerState>): set<string>
  {
    set i | 0 <= i < |rs| :: rs[i].name
  }

  /** Unfolds the names of a non-empty report sequence at its last report. */
  lemma ReportedNamesSnoc(rs: seq<ControllerState>)
    requires |rs| > 0
    ensures ReportedNames(rs) == ReportedNames(rs[..|rs| - 1]) + {rs[|rs| - 1].name}
  {
  }

  /** The table after the reports `rs` have been handled one after another. */
  function ApplyReports(t: Table, rs: seq<ControllerState>): (r: Table)
    ensures r.Keys == t.Keys + ReportedNames(rs)
    ensures forall k | k in t && k !in ReportedNames(rs) :: r[k] == t[k]
    ensures WellKeyed(t) ==> WellKeyed(r)
    decreases |rs|
  {
    if |rs| == 0 then t
    else
      var prefix := rs[..|rs| - 1];
      ReportedNamesSnoc(rs);
      Update(ApplyReports(t, prefix), rs[|rs| - 1])
  }

  /**
    Last write wins across a whole sequence of reports: a joint's record is
    the one built from the last report that named it.
   */
  lemma {:induction false} ApplyReportsLastWriteWins(t: Table, rs: seq<ControllerState>, i: nat)
    requires i < |rs|
    requires forall j | i < j < |rs| :: rs[j].name != rs[i].name
    ensures ApplyReports(t, rs)[rs[i].name] == RecordOf(rs[i])
    decreases |rs|
  {
    if i < |rs| - 1 {
      var prefix := rs[..|rs| - 1];
      assert prefix[i] == rs[i];
      ApplyReportsLastWriteWins(t, prefix, i);
    }
  }
}
