/** Runs of the VLAN calls of `src/sonic/switching.rs`, each stopped anywhere: when every
    member row names an existing VLAN after every single write. */
module VlanRuns {
  import opened Text
  import opened Store
  import opened Vlans
  import opened VlanWrites
  import opened VlanLifecycle
  import opened VlanUpdate

  datatype Call =
    | UpdatePort(name: string)
    | CreateVlan(id: nat, input: Input)
    | UpdateVlan(id: nat, input: Input)
    | DeleteVlan(id: nat)

  /** A call and what it wrote before it was done, refused or stopped. */
  datatype Event = Event(call: Call, writes: seq<Op>)

  ghost predicate Step(db: Db, e: Event) {
    match e.call
    case UpdatePort(name) => PortStep(db, name, e.writes)
    case CreateVlan(id, input) => CreateStep(db, id, input, e.writes)
    case UpdateVlan(id, input) => UpdateStep(db, VlanName(id), input, e.writes)
    case DeleteVlan(id) => id <= U32_MAX && DeleteStep(db, VlanName(id), e.writes)
  }

  /** Each call starts from the store the last one left. */
  ghost predicate IsRun(db: Db, events: seq<Event>)
    decreases |events|
  {
    events == [] || (Step(db, events[0]) && IsRun(ExecAll(db, events[0].writes), events[1..]))
  }

  function Writes(events: seq<Event>): seq<Op>
    decreases |events|
  {
    if events == [] then [] else events[0].writes + Writes(events[1..])
  }

  /** The rule after every single write, the stores within a call included. */
  ghost predicate AlwaysKept(db: Db, ops: seq<Op>) {
    forall n :: 0 <= n <= |ops| ==> MembersHaveVlans(ExecAll(db, ops[..n]))
  }

  // ------------------------------------------------------------- the exact rule

  /** An update of an existing VLAN, on the store it found, left the VLAN's row a field for
      as long as a member needed it. */
  ghost predicate Kept(db: Db, e: Event) {
    e.call.UpdateVlan? && VlanKey(VlanName(e.call.id)) in db ==> UpdateKeeps(db, VlanName(e.call.id), e.call.input, e.writes)
  }

  ghost predicate UpdatesKept(db: Db, events: seq<Event>)
    decreases |events|
  {
    events == [] || (Kept(db, events[0]) && UpdatesKept(ExecAll(db, events[0].writes), events[1..]))
  }

  lemma StepFollows(db: Db, e: Event)
    requires NoEmptyRows(db) && Step(db, e)
    ensures Follows(db, e.writes) <==> Kept(db, e)
  {
    hide PortStep, CreateStep, DeleteStep, IsUpdateRun, UpdateKeeps, Follows, AddsNone, VlanName, VlanKey;
    match e.call
    case UpdatePort(name) => PortStepFollows(db, name, e.writes);
    case CreateVlan(id, input) => CreateFollows(db, id, input, e.writes);
    case UpdateVlan(id, input) =>
      NothingRun(db, VlanName(id), input);
      if e.writes != [] {
        UpdateKeepsExactly(db, VlanName(id), input, e.writes);
      }
    case DeleteVlan(id) =>
      VlanNames(id);
      DeleteFollows(db, VlanName(id), e.writes);
  }

  lemma {:induction false} RunFollows(db: Db, events: seq<Event>)
    requires NoEmptyRows(db) && IsRun(db, events)
    ensures Follows(db, Writes(events)) <==> UpdatesKept(db, events)
    decreases |events|
  {
    hide Follows, Step, Kept;
    if events == [] {
      FollowsNothing(db);
    } else {
      var a, b := events[0].writes, Writes(events[1..]);
      var mid := ExecAll(db, a);
      ExecAllNoEmptyRows(db, a);
      StepFollows(db, events[0]);
      RunFollows(mid, events[1..]);
      if Follows(db, a) && Follows(mid, b) {
        FollowsAppend(db, a, b);
      }
      if Follows(db, a + b) {
        FollowsParts(db, a, b);
      }
    }
  }

  /** Over every run of calls, each stopped anywhere, every member row names an existing
      VLAN after every single write exactly when each update of a VLAN left its row a field
      for as long as a member needed it; no other call ever breaks the rule. */
  lemma EveryRunKeepsMembers(db: Db, events: seq<Event>)
    requires NoEmptyRows(db) && MembersHaveVlans(db) && IsRun(db, events)
    ensures AlwaysKept(db, Writes(events)) <==> UpdatesKept(db, events)
  {
    hide MembersHaveVlans, Follows, Step, Kept;
    RunFollows(db, events);
    EveryWriteKeepsExactly(db, Writes(events));
  }

  // --------------------------------------------------------------- anchored rows

  /** The fields of a VLAN row that an update may clear. */
  const CLEARABLE: set<string> := {"description", "dhcp_servers@", "dhcp_servers"}

  ghost predicate HasAnchor(row: Row) {
    exists f :: f in row && f !in CLEARABLE
  }

  /** Every VLAN row holds a field that no update clears, such as `vlanid`. */
  ghost predicate Anchored(db: Db) {
    forall k :: k in db && IsVlanRow(k) ==> HasAnchor(db[k])
  }

  /** A write that leaves an anchored VLAN row anchored. */
  ghost predicate Anchors(db: Db, op: Op) {
    IsVlanRow(op.key) ==>
      match op
      case HSet(k, fields) => k in db || HasAnchor(fields)
      case HDel(_, names) => names <= CLEARABLE
      case Del(_) => true
  }

  lemma AnchoredStep(db: Db, op: Op)
    requires Anchored(db) && Anchors(db, op)
    ensures Anchored(Exec(db, op))
  {
    hide IsVlanRow, CLEARABLE;
    var after := Exec(db, op);
    forall k | k in after && IsVlanRow(k) ensures HasAnchor(after[k]) {
      if k == op.key {
        if k in db {
          var f :| f in db[k] && f !in CLEARABLE;
          assert f in after[k];
        } else if op.HSet? {
          var f :| f in op.fields && f !in CLEARABLE;
          assert f in after[k];
        }
      } else {
        assert after[k] == db[k];
      }
    }
  }

  /** A write to no VLAN row, or the deletion of one. */
  predicate Aside(op: Op) {
    !IsVlanRow(op.key) || op.Del?
  }

  /** A write to no VLAN row, or one that sets fields of this row or clears clearable ones. */
  predicate Tame(op: Op, key: Key) {
    !IsVlanRow(op.key) || (op.key == key && !op.Del? && (op.HDel? ==> op.names <= CLEARABLE))
  }

  lemma {:induction false} AsideKeepsAnchored(db: Db, ops: seq<Op>, n: nat)
    requires Anchored(db) && n <= |ops| && forall i :: 0 <= i < |ops| ==> Aside(ops[i])
    ensures Anchored(ExecAll(db, ops[..n]))
    decreases n
  {
    hide IsVlanRow, Anchored, CLEARABLE;
    if n > 0 {
      AsideKeepsAnchored(db, ops, n - 1);
      assert ops[..n][..n - 1] == ops[..n - 1];
      assert Aside(ops[n - 1]);
      AnchoredStep(ExecAll(db, ops[..n - 1]), ops[n - 1]);
    }
  }

  lemma {:induction false} TameKeepsAnchored(db: Db, key: Key, ops: seq<Op>, n: nat)
    requires Anchored(db) && IsVlanRow(key) && key in db && n <= |ops| && forall i :: 0 <= i < |ops| ==> Tame(ops[i], key)
    ensures Anchored(ExecAll(db, ops[..n])) && key in ExecAll(db, ops[..n])
    decreases n
  {
    hide IsVlanRow, Anchored, CLEARABLE;
    if n > 0 {
      var state, op := ExecAll(db, ops[..n - 1]), ops[n - 1];
      TameKeepsAnchored(db, key, ops, n - 1);
      assert ops[..n][..n - 1] == ops[..n - 1];
      assert Tame(op, key);
      AnchoredStep(state, op);
      if op.key == key {
        AnchoredRowStays(state, op);
      }
    }
  }

  lemma AnchoredRowStays(db: Db, op: Op)
    requires Anchored(db) && op.key in db && IsVlanRow(op.key) && Tame(op, op.key)
    ensures op.key in Exec(db, op)
  {
    hide IsVlanRow, CLEARABLE;
    var f :| f in db[op.key] && f !in CLEARABLE;
    if op.HDel? {
      assert f in RowOf(db, op.key) - op.names;
    } else {
      assert f in RowOf(db, op.key) + op.fields;
    }
  }

  lemma PortWritesAside(db: Db, name: string, run: seq<Op>)
    requires PortStep(db, name, run)
    ensures forall i :: 0 <= i < |run| ==> Aside(run[i])
  {
    hide PortWrite, IsVlanRow;
    forall i | 0 <= i < |run| ensures Aside(run[i]) {
      PortWriteIsGentle(db, name, run[i]);
    }
  }

  lemma DeleteWritesAside(db: Db, vlan: string, run: seq<Op>)
    requires DeleteStep(db, vlan, run)
    ensures forall i :: 0 <= i < |run| ==> Aside(run[i])
  {
    hide HangsOff, IsVlanRow, VlanKey;
    if !AllSpare(run) {
      var before: seq<Op> :| run == before + [Del(VlanKey(vlan))] && AllSpare(before)
        && forall k :: k in db && HangsOff(k, MEMBER, vlan) ==> Del(k) in before;
      forall i | 0 <= i < |run| ensures Aside(run[i]) {
        assert i < |before| ==> run[i] == before[i];
      }
    }
  }

  lemma UpdateWritesTame(vlan: string, input: Input, run: seq<Op>)
    requires IsUpdateRun(vlan, input, run)
    ensures forall i :: 0 <= i < |run| ==> Tame(run[i], VlanKey(vlan))
  {
    hide IsVlanRow, VlanKey, UpdateRowOps, Mild;
    var ops := UpdateRowOps(VlanKey(vlan), input);
    RowOpsClearable(VlanKey(vlan), input);
    forall i | 0 <= i < |run| ensures Tame(run[i], VlanKey(vlan)) {
      if i < |ops| {
        assert run[i] == ops[i];
      } else {
        assert Mild(run[i], vlan);
        MildIsElsewhere(run[i], vlan);
      }
    }
  }

  lemma MildIsElsewhere(op: Op, vlan: string)
    requires Mild(op, vlan)
    ensures !IsVlanRow(op.key)
  {
  }

  lemma RowOpsClearable(key: Key, input: Input)
    ensures forall i :: 0 <= i < |UpdateRowOps(key, input)| ==> Tame(UpdateRowOps(key, input)[i], key)
  {
    RowOpsAre(key, input);
    hide UpdateRowOps, IsVlanRow;
  }

  /** A creation leaves `vlanid` in the row it brings into being. */
  lemma CreateKeepsAnchored(db: Db, id: nat, input: Input, run: seq<Op>, n: nat)
    requires Anchored(db) && CreateStep(db, id, input, run) && n <= |run|
    ensures Anchored(ExecAll(db, run[..n]))
  {
    hide IsVlanRow, Anchored, VlanKey, VlanName, Render, Mild, CreateStep;
    var key := VlanKey(VlanName(id));
    if n > 0 {
      NotBothTables(key);
      AfterFirstWrite(db, id, input, run);
      var first, rest := FirstWrite(id), run[1..];
      assert "vlanid" in first.fields && "vlanid" !in CLEARABLE;
      AnchoredStep(db, first);
      assert "vlanid" in RowOf(db, key) + first.fields;
      forall i | 0 <= i < |rest| ensures Tame(rest[i], key) {
        if Mild(rest[i], VlanName(id)) {
          MildIsElsewhere(rest[i], VlanName(id));
        }
      }
      TameKeepsAnchored(Exec(db, first), key, rest, n - 1);
      assert run[..n] == [first] + rest[..n - 1];
      ExecOne(db, first);
      ExecAllAppend(db, [first], rest[..n - 1]);
    }
  }

  lemma StepKeepsAnchored(db: Db, e: Event, n: nat)
    requires Anchored(db) && Step(db, e) && n <= |e.writes|
    ensures Anchored(ExecAll(db, e.writes[..n]))
  {
    hide PortStep, CreateStep, DeleteStep, IsUpdateRun, AddsNone, VlanName, VlanKey, IsVlanRow, Anchored;
    match e.call
    case UpdatePort(name) =>
      PortWritesAside(db, name, e.writes);
      AsideKeepsAnchored(db, e.writes, n);
    case CreateVlan(id, input) => CreateKeepsAnchored(db, id, input, e.writes, n);
    case UpdateVlan(id, input) =>
      if e.writes != [] {
        UpdateWritesTame(VlanName(id), input, e.writes);
        NotBothTables(VlanKey(VlanName(id)));
        TameKeepsAnchored(db, VlanKey(VlanName(id)), e.writes, n);
      }
    case DeleteVlan(id) =>
      DeleteWritesAside(db, VlanName(id), e.writes);
      AsideKeepsAnchored(db, e.writes, n);
  }

  lemma AnchoredIsKept(db: Db, e: Event)
    requires NoEmptyRows(db) && Anchored(db) && Step(db, e)
    ensures Kept(db, e)
  {
    hide FieldsLeft, UpdateRowOps, VlanName, VlanKey, HasMembers, AddsNone, IsVlanRow, CLEARABLE, IsUpdateRun, UpdateKeeps;
    if e.call.UpdateVlan? && VlanKey(VlanName(e.call.id)) in db {
      var vlan := VlanName(e.call.id);
      NotBothTables(VlanKey(vlan));
      NothingRun(db, vlan, e.call.input);
      var f :| f in db[VlanKey(vlan)] && f !in CLEARABLE;
      ClearableAre(f);
      OtherFieldSurvives(db, vlan, e.call.input, f);
      if e.writes != [] {
        SurvivingRun(db, vlan, e.call.input, e.writes);
      }
    }
  }

  lemma ClearableAre(f: string)
    ensures f in CLEARABLE <==> f in {"description", "dhcp_servers@", "dhcp_servers"}
  {
  }

  /** From a store whose VLAN rows are anchored, an empty one for instance, no run of calls
      breaks the rule, wherever each stopped, and the rows are anchored after every write. */
  lemma {:induction false} AnchoredRunKeepsMembers(db: Db, events: seq<Event>)
    requires NoEmptyRows(db) && MembersHaveVlans(db) && Anchored(db) && IsRun(db, events)
    ensures AlwaysKept(db, Writes(events))
    ensures forall n :: 0 <= n <= |Writes(events)| ==> Anchored(ExecAll(db, Writes(events)[..n]))
  {
    hide MembersHaveVlans, Step, Kept, Anchored;
    AnchoredRun(db, events);
    EveryRunKeepsMembers(db, events);
  }

  lemma {:induction false} AnchoredRun(db: Db, events: seq<Event>)
    requires NoEmptyRows(db) && Anchored(db) && IsRun(db, events)
    ensures UpdatesKept(db, events)
    ensures forall n :: 0 <= n <= |Writes(events)| ==> Anchored(ExecAll(db, Writes(events)[..n]))
    decreases |events|
  {
    hide Step, Kept, Anchored;
    var all := Writes(events);
    if events != [] {
      var a, b := events[0].writes, Writes(events[1..]);
      var mid := ExecAll(db, a);
      assert a[..|a|] == a;
      StepKeepsAnchored(db, events[0], |a|);
      ExecAllNoEmptyRows(db, a);
      AnchoredIsKept(db, events[0]);
      AnchoredRun(mid, events[1..]);
      forall n | 0 <= n <= |all| ensures Anchored(ExecAll(db, all[..n])) {
        if n <= |a| {
          assert all[..n] == a[..n];
          StepKeepsAnchored(db, events[0], n);
        } else {
          assert all[..n] == a + b[..n - |a|];
          ExecAllAppend(db, a, b[..n - |a|]);
        }
      }
    }
  }
}
