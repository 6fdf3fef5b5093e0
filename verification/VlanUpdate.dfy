/** `update_vlan` (`src/sonic/switching.rs`): it converges the VLAN to the request, and keeps
    members under an existing VLAN exactly as far as the VLAN's own row keeps a field. */
module VlanUpdate {
  import opened Common
  import opened Text
  import opened Store
  import opened Keys
  import opened Diffs
  import opened Vlans
  import opened VlanWrites
  import opened VlanLifecycle

  // ---------------------------------------------------------------- the VLAN row

  /** The writes of `update_vlan` to the VLAN's own row. */
  function UpdateRowOps(key: Key, input: Input): (ops: seq<Op>)
    ensures forall i :: 0 <= i < |ops| ==> ops[i].key == key && !ops[i].Del? && Reaches(ops[i])
  {
    PatchField(key, "description", Some(input.description))
    + PatchField(key, "dhcp_servers@", JoinedHelpers(input.helpers))
    + PatchField(key, "dhcp_servers", if input.helpers == [] then Some(None) else None)
  }

  function UpdatedRow(row: Row, input: Input): Row {
    var described := PatchedField(row, "description", Some(input.description));
    var helped := PatchedField(described, "dhcp_servers@", JoinedHelpers(input.helpers));
    PatchedField(helped, "dhcp_servers", if input.helpers == [] then Some(None) else None)
  }

  /** What an update says of the VLAN, read back from its row: what is not given is
      cleared, an inherited list of helpers only when none is asked for. */
  ghost predicate UpdatedSays(before: Row, after: Row, input: Input) {
    && Raw(after, "description") == input.description
    && Raw(after, "dhcp_servers@") == (if input.helpers == [] then None else Some(Join(input.helpers, ',')))
    && Raw(after, "dhcp_servers") == (if input.helpers == [] then None else Raw(before, "dhcp_servers"))
    && KeepsOthers(before, after, {"description", "dhcp_servers@", "dhcp_servers"})
  }

  lemma UpdatedRowSays(row: Row, input: Input)
    ensures UpdatedSays(row, UpdatedRow(row, input), input)
  {
    assert "description"[1] == 'e' && "dhcp_servers@"[1] == 'h' && "dhcp_servers"[1] == 'h' && |"dhcp_servers"| != |"dhcp_servers@"|;
    hide PatchedField, Join, Raw;
    ThreePatched(row, "description", Some(input.description), "dhcp_servers@", JoinedHelpers(input.helpers),
                 "dhcp_servers", if input.helpers == [] then Some(None) else None);
  }

  lemma UpdateRowEffect(db: Db, key: Key, input: Input)
    ensures RowOf(ExecAll(db, UpdateRowOps(key, input)), key) == UpdatedRow(RowOf(db, key), input)
  {
    hide PatchField, PatchedField, RowOf, JoinedHelpers;
    var a := PatchField(key, "description", Some(input.description));
    var b := a + PatchField(key, "dhcp_servers@", JoinedHelpers(input.helpers));
    PatchFieldEffect(db, key, "description", Some(input.description), []);
    assert [] + a == a;
    PatchFieldEffect(db, key, "dhcp_servers@", JoinedHelpers(input.helpers), a);
    PatchFieldEffect(db, key, "dhcp_servers", if input.helpers == [] then Some(None) else None, b);
  }

  /** The writes one by one. */
  lemma RowOpsAre(key: Key, input: Input)
    ensures var ops := UpdateRowOps(key, input);
      && |ops| == (if input.helpers == [] then 3 else 2)
      && ops[0] == (if input.description.Some? then HSet(key, map["description" := input.description.value]) else HDel(key, {"description"}))
      && (input.helpers == [] ==> ops[1] == HDel(key, {"dhcp_servers@"}) && ops[2] == HDel(key, {"dhcp_servers"}))
      && (input.helpers != [] ==> ops[1] == HSet(key, map["dhcp_servers@" := Join(input.helpers, ',')]))
  {
    hide Join;
  }

  /** The fields of the row after the first `n` writes, known before the call from the
      fields it has and from which inputs are empty. */
  function FieldsLeft(fields: set<string>, input: Input, n: nat): set<string> {
    var described := if n == 0 then fields else if input.description.Some? then fields + {"description"} else fields - {"description"};
    var helped := if n <= 1 then described else if input.helpers == [] then described - {"dhcp_servers@"} else described + {"dhcp_servers@"};
    if n <= 2 || input.helpers != [] then helped else helped - {"dhcp_servers"}
  }

  lemma FieldsAfterWrite(fields: set<string>, key: Key, input: Input, n: nat, row: Row)
    requires n < |UpdateRowOps(key, input)| && row.Keys == FieldsLeft(fields, input, n)
    ensures ExecRow(row, UpdateRowOps(key, input)[n]).Keys == FieldsLeft(fields, input, n + 1)
  {
    hide Join, UpdateRowOps;
    RowOpsAre(key, input);
    var op := UpdateRowOps(key, input)[n];
    if op.HSet? {
      assert (row + op.fields).Keys == row.Keys + op.fields.Keys;
    } else {
      assert (row - op.names).Keys == row.Keys - op.names;
    }
  }

  lemma {:induction false} RowFields(db: Db, key: Key, input: Input, n: nat)
    requires n <= |UpdateRowOps(key, input)|
    ensures RowOf(ExecAll(db, UpdateRowOps(key, input)[..n]), key).Keys == FieldsLeft(RowOf(db, key).Keys, input, n)
    decreases n
  {
    hide UpdateRowOps, FieldsLeft, RowOf;
    var ops := UpdateRowOps(key, input);
    if n == 0 {
      NothingWritten(RowOf(db, key).Keys, input);
      assert ops[..0] == [];
    } else {
      RowFields(db, key, input, n - 1);
      assert ops[..n][..n - 1] == ops[..n - 1];
      OnRow(key, input);
      ExecReads(ExecAll(db, ops[..n - 1]), ops[n - 1], key);
      FieldsAfterWrite(RowOf(db, key).Keys, key, input, n - 1, RowOf(ExecAll(db, ops[..n - 1]), key));
    }
  }

  lemma NothingWritten(fields: set<string>, input: Input)
    ensures FieldsLeft(fields, input, 0) == fields
  {
  }

  lemma OnRow(key: Key, input: Input)
    ensures forall i :: 0 <= i < |UpdateRowOps(key, input)| ==> UpdateRowOps(key, input)[i].key == key
  {
  }

  /** Past its last write the row keeps what it has. */
  lemma FieldsSettle(fields: set<string>, key: Key, input: Input, n: nat)
    requires n >= |UpdateRowOps(key, input)|
    ensures FieldsLeft(fields, input, n) == FieldsLeft(fields, input, 3) == FieldsLeft(fields, input, |UpdateRowOps(key, input)|)
  {
    hide UpdateRowOps;
    RowOpsAre(key, input);
  }

  // ------------------------------------------------------------- the exact rule

  ghost predicate HasMembers(db: Db, vlan: string) {
    !NoMemberOf(db, VlanKey(vlan))
  }

  function RowFieldsOf(db: Db, vlan: string): set<string> {
    RowOf(db, VlanKey(vlan)).Keys
  }

  /** A run of an update, stopped anywhere: as far as it got, the VLAN's row kept a field
      or no member hung on it, and once the row has gone for good no member was added. */
  ghost predicate UpdateKeeps(db: Db, vlan: string, input: Input, run: seq<Op>) {
    && (HasMembers(db, vlan) ==> forall n: nat :: n <= |run| ==> FieldsLeft(RowFieldsOf(db, vlan), input, n) != {})
    && (FieldsLeft(RowFieldsOf(db, vlan), input, 3) == {} ==> AddsNone(UpdateRowOps(VlanKey(vlan), input), run))
  }

  /** The writes of an update in their order, stopped anywhere. */
  ghost predicate IsUpdateRun(vlan: string, input: Input, run: seq<Op>) {
    var ops := UpdateRowOps(VlanKey(vlan), input);
    run <= ops || GoesOn(ops, run, vlan)
  }

  ghost predicate NamesNone(members: seq<(string, bool)>) {
    forall i :: 0 <= i < |members| ==> members[i].0 == ""
  }

  /** What `update_vlan`, stopped anywhere, has written. */
  ghost predicate UpdateStep(db: Db, vlan: string, input: Input, run: seq<Op>) {
    || run == []
    || (VlanKey(vlan) in db && IsUpdateRun(vlan, input, run)
        && (NamesNone(input.members) ==> AddsNone(UpdateRowOps(VlanKey(vlan), input), run)))
  }

  lemma RowWriteAllowed(db: Db, vlan: string, input: Input, i: nat)
    requires NoEmptyRows(db) && i < |UpdateRowOps(VlanKey(vlan), input)|
    ensures var ops := UpdateRowOps(VlanKey(vlan), input);
      Allowed(ExecAll(db, ops[..i]), ops[i]) <==> !HasMembers(db, vlan) || FieldsLeft(RowFieldsOf(db, vlan), input, i + 1) != {}
  {
    hide UpdateRowOps, FieldsLeft, MemberOf, IsVlanRow, VlanKey, RowOf;
    var key := VlanKey(vlan);
    var ops := UpdateRowOps(key, input);
    var state := ExecAll(db, ops[..i]);
    NotBothTables(key);
    OnRow(key, input);
    RowFields(db, key, input, i);
    FieldsAfterWrite(RowOf(db, key).Keys, key, input, i, RowOf(state, key));
    MembersUnmoved(db, ops[..i], key);
    RowOpsAre(key, input);
    SetsLeaveFields(RowFieldsOf(db, vlan), key, input, i);
  }

  lemma SetsLeaveFields(fields: set<string>, key: Key, input: Input, i: nat)
    requires i < |UpdateRowOps(key, input)|
    ensures var op := UpdateRowOps(key, input)[i];
      !op.Del? && (op.HSet? ==> FieldsLeft(fields, input, i + 1) != {})
  {
    hide UpdateRowOps, Join;
    RowOpsAre(key, input);
    assert UpdateRowOps(key, input)[i].HSet? ==> "description" in FieldsLeft(fields, input, i + 1) || "dhcp_servers@" in FieldsLeft(fields, input, i + 1);
  }

  /** Writes to a VLAN's row move no member. */
  lemma MembersUnmoved(db: Db, ops: seq<Op>, key: Key)
    requires IsVlanRow(key) && forall i :: 0 <= i < |ops| ==> ops[i].key == key
    ensures NoMemberOf(ExecAll(db, ops), key) <==> NoMemberOf(db, key)
  {
    hide MemberOf, IsVlanRow, VlanKey;
    forall m | MemberOf(m).Some? ensures m in ExecAll(db, ops) <==> m in db {
      NotBothTables(m);
      OneRowWrites(db, ops, key, m);
    }
  }

  lemma MildWriteAllowed(db: Db, vlan: string, ops: seq<Op>, run: seq<Op>, i: nat)
    requires GoesOn(ops, run, vlan) && |ops| <= i < |run|
    ensures Allowed(ExecAll(db, run[..i]), run[i]) <==> !AddsMember(run[i]) || VlanKey(vlan) in ExecAll(db, ops)
  {
    hide MemberOf, IsVlanRow, VlanKey;
    var key := VlanKey(vlan);
    NotBothTables(key);
    assert Mild(run[i], vlan);
    var rest := run[|ops|..i];
    assert run[..i] == ops + rest;
    ExecAllAppend(db, ops, rest);
    forall j | 0 <= j < |rest| ensures rest[j].key != key {
      assert Mild(run[|ops| + j], vlan);
    }
    Unmoved(ExecAll(db, ops), rest, key);
  }

  lemma {:induction false} Unmoved(db: Db, ops: seq<Op>, key: Key)
    requires forall j :: 0 <= j < |ops| ==> ops[j].key != key
    ensures key in ExecAll(db, ops) <==> key in db
    decreases |ops|
  {
    if ops != [] {
      Unmoved(db, ops[..|ops| - 1], key);
    }
  }

  /** Every single write of an update keeps each member under an existing VLAN exactly when
      the VLAN's row kept a field, or had no member, for as long as it mattered. */
  lemma UpdateKeepsExactly(db: Db, vlan: string, input: Input, run: seq<Op>)
    requires NoEmptyRows(db) && VlanKey(vlan) in db && IsUpdateRun(vlan, input, run)
    ensures Follows(db, run) <==> UpdateKeeps(db, vlan, input, run)
  {
    hide Allowed, FieldsLeft, UpdateRowOps, VlanKey, HasMembers, Mild, AddsMember, RowOf;
    var key := VlanKey(vlan);
    var ops, fields := UpdateRowOps(key, input), RowFieldsOf(db, vlan);
    forall i | 0 <= i < |run|
      ensures i < |ops| ==> (Allowed(ExecAll(db, run[..i]), run[i]) <==> !HasMembers(db, vlan) || FieldsLeft(fields, input, i + 1) != {})
      ensures i >= |ops| ==> (Allowed(ExecAll(db, run[..i]), run[i]) <==> !AddsMember(run[i]) || FieldsLeft(fields, input, 3) != {}) {
      if i < |ops| {
        assert run[..i] == ops[..i] && run[i] == ops[i];
        RowWriteAllowed(db, vlan, input, i);
      } else {
        MildWriteAllowed(db, vlan, ops, run, i);
        RowGone(db, vlan, input);
      }
    }
    NothingWritten(fields, input);
    RowThere(db, key);
    if Follows(db, run) {
      forall n: nat | n <= |run| && HasMembers(db, vlan) ensures FieldsLeft(fields, input, n) != {} {
        LastStep(db, vlan, input, run, n);
      }
    }
    if UpdateKeeps(db, vlan, input, run) {
      forall i | 0 <= i < |run| ensures Allowed(ExecAll(db, run[..i]), run[i]) {
        if HasMembers(db, vlan) {
          assert FieldsLeft(fields, input, i + 1) != {};
        }
      }
    }
  }

  /** If the writes before were allowed the fields after `n` of them are there. */
  lemma LastStep(db: Db, vlan: string, input: Input, run: seq<Op>, n: nat)
    requires NoEmptyRows(db) && VlanKey(vlan) in db && IsUpdateRun(vlan, input, run)
    requires Follows(db, run) && n <= |run| && HasMembers(db, vlan)
    ensures FieldsLeft(RowFieldsOf(db, vlan), input, n) != {}
  {
    hide Allowed, FieldsLeft, UpdateRowOps, VlanKey, HasMembers, Mild, RowOf;
    var key := VlanKey(vlan);
    var ops, fields := UpdateRowOps(key, input), RowFieldsOf(db, vlan);
    var last := if n <= |ops| then n else |ops|;
    if n > |ops| {
      FieldsSettle(fields, key, input, n);
    }
    NothingWritten(fields, input);
    RowThere(db, key);
    if last > 0 {
      assert run[..last - 1] == ops[..last - 1] && run[last - 1] == ops[last - 1];
      RowWriteAllowed(db, vlan, input, last - 1);
    }
  }

  lemma RowThere(db: Db, key: Key)
    requires NoEmptyRows(db) && key in db
    ensures RowOf(db, key).Keys != {}
  {
    NoFieldsNoRow(db[key]);
  }

  lemma NoFieldsNoRow(row: Row)
    ensures row.Keys == {} <==> row == map[]
  {
    if row.Keys == {} {
      assert row == map[];
    }
  }

  lemma RowGone(db: Db, vlan: string, input: Input)
    requires NoEmptyRows(db)
    ensures var ops := UpdateRowOps(VlanKey(vlan), input);
      VlanKey(vlan) in ExecAll(db, ops) <==> FieldsLeft(RowFieldsOf(db, vlan), input, 3) != {}
  {
    hide FieldsLeft, UpdateRowOps, VlanKey;
    var key := VlanKey(vlan);
    var ops := UpdateRowOps(key, input);
    var after := ExecAll(db, ops);
    RowFields(db, key, input, |ops|);
    assert ops[..|ops|] == ops;
    FieldsSettle(RowFieldsOf(db, vlan), key, input, |ops|);
    ExecAllNoEmptyRows(db, ops);
    if key in after {
      RowThere(after, key);
    }
  }

  /** The condition on a whole update, known before the call: at each step the row keeps a
      field or has no member, and if it ends up without any no member is asked for. */
  ghost predicate Survives(db: Db, vlan: string, input: Input) {
    && (HasMembers(db, vlan) ==> forall n: nat :: n <= 3 ==> FieldsLeft(RowFieldsOf(db, vlan), input, n) != {})
    && (FieldsLeft(RowFieldsOf(db, vlan), input, 3) == {} ==> NamesNone(input.members))
  }

  /** A row with any field beside the three that an update may clear always survives; the
      `vlanid` that `create_vlan` writes is one. */
  lemma OtherFieldSurvives(db: Db, vlan: string, input: Input, f: string)
    requires f in RowOf(db, VlanKey(vlan)) && f !in {"description", "dhcp_servers@", "dhcp_servers"}
    ensures Survives(db, vlan, input)
  {
    assert forall n: nat :: f in FieldsLeft(RowFieldsOf(db, vlan), input, n);
  }

  lemma SurvivingRun(db: Db, vlan: string, input: Input, run: seq<Op>)
    requires NoEmptyRows(db) && VlanKey(vlan) in db && IsUpdateRun(vlan, input, run) && Survives(db, vlan, input)
    requires NamesNone(input.members) ==> AddsNone(UpdateRowOps(VlanKey(vlan), input), run)
    ensures UpdateKeeps(db, vlan, input, run) && Follows(db, run)
  {
    hide FieldsLeft, UpdateRowOps, VlanKey, HasMembers, Mild, AddsMember, RowOf;
    RowOpsAre(VlanKey(vlan), input);
    forall n: nat | n <= |run| ensures n > 3 ==> FieldsLeft(RowFieldsOf(db, vlan), input, n) == FieldsLeft(RowFieldsOf(db, vlan), input, 3) {
      if n > 3 {
        FieldsSettle(RowFieldsOf(db, vlan), VlanKey(vlan), input, n);
      }
    }
    UpdateKeepsExactly(db, vlan, input, run);
  }

  /** A whole update that follows the rule satisfied the condition. */
  lemma WholeRunSurvives(db: Db, after: Db, vlan: string, input: Input, run: seq<Op>, want: map<string, string>)
    requires NoEmptyRows(db) && MembersHaveVlans(db) && VlanKey(vlan) in db && IsUpdateRun(vlan, input, run) && Follows(db, run)
    requires UpdateRowOps(VlanKey(vlan), input) <= run && after == ExecAll(db, run)
    requires RowOf(after, VlanKey(vlan)) == UpdatedRow(RowOf(db, VlanKey(vlan)), input)
    requires MembersAre(after, vlan, want) && MapsMembers(want, input.members) && IsVlanName(vlan)
    ensures Survives(db, vlan, input)
  {
    hide FieldsLeft, UpdateRowOps, VlanKey, HasMembers, Mild, AddsMember, RowOf, UpdatedRow, MembersHaveVlans, MemberOf, MemberKey;
    var key := VlanKey(vlan);
    var ops, fields := UpdateRowOps(key, input), RowFieldsOf(db, vlan);
    UpdateKeepsExactly(db, vlan, input, run);
    RowOpsAre(key, input);
    FieldsSettle(fields, key, input, |ops|);
    if FieldsLeft(fields, input, 3) == {} {
      EveryWriteKeepsMembers(db, run, |run|);
      assert run[..|run|] == run;
      UpdateRowEffect(db, key, input);
      RowFields(db, key, input, |ops|);
      assert ops[..|ops|] == ops;
      ExecAllNoEmptyRows(db, run);
      NoRowNoKey(after, key);
      forall i | 0 <= i < |input.members| && input.members[i].0 != "" ensures false {
        var m := input.members[i].0;
        assert m in want && MemberMode(after, vlan, m) == Some(want[m]);
        MemberNeedsVlan(after, vlan, m);
      }
    }
  }

  lemma NoRowNoKey(db: Db, key: Key)
    requires NoEmptyRows(db) && RowOf(db, key).Keys == {}
    ensures key !in db
  {
    if key in db {
      RowThere(db, key);
    }
  }

  lemma MemberNeedsVlan(db: Db, vlan: string, m: string)
    requires MembersHaveVlans(db) && IsVlanName(vlan) && m != "" && MemberMode(db, vlan, m).Some?
    ensures VlanKey(vlan) in db
  {
    MemberKeyExactly(MemberKey(vlan, m), vlan, m);
  }

  // ------------------------------------------------------------------- the call

  /** The VLAN's own row, its members, its addresses. */
  method RunUpdate(plat: Platform, vlan: string, ops: seq<Op>, ips: set<string>, want: map<string, string>, ghost db: Db, ghost log: seq<Op>)
    returns (ok: bool, ghost run: seq<Op>)
    requires Wrote(plat, db, log, []) && IsVlanName(vlan) && "" !in ips
    requires forall m :: m in want ==> want[m] in {TAGGED, UNTAGGED}
    requires forall i :: 0 <= i < |ops| ==> ops[i].key == VlanKey(vlan) && Reaches(ops[i])
    modifies plat
    ensures Wrote(plat, db, log, run) && old(plat.calls) <= plat.calls
    ensures run <= ops || GoesOn(ops, run, vlan)
    ensures want.Keys <= {""} ==> AddsNone(ops, run)
    ensures AllWork(plat.fault, old(plat.calls), plat.calls) ==>
              && ok && ops <= run
              && RowOf(plat.rows, VlanKey(vlan)) == RowOf(ExecAll(old(plat.rows), ops), VlanKey(vlan))
              && MembersAre(plat.rows, vlan, want)
              && AddressesAre(plat.rows, vlan, ips)
              && (ParentKey(vlan) in plat.rows <==> ips != {})
    ensures forall k :: OffVlan(k, vlan) ==> RowOf(plat.rows, k) == RowOf(old(plat.rows), k)
  {
    hide VlanKey, ParentKey, Under, MembersAre, AddressesAre, OffAddresses, Mild, AddsMember;
    VlanKeysDiffer(vlan);
    ok, run := RunRow(plat, ops, vlan, db, log, []);
    assert [] + ops == ops;
    if !ok { return; }
    ghost var described := plat.rows;
    ok, run := ConvergeMembers(plat, vlan, want, db, log, run);
    if !ok { return; }
    ghost var joined, mid := plat.rows, run;
    assert RowOf(joined, VlanKey(vlan)) == RowOf(described, VlanKey(vlan));
    ok, run := ConvergeAddresses(plat, vlan, ips, db, log, run);
    GoesOnFurther(ops, mid, run, vlan);
    if AllWork(plat.fault, old(plat.calls), plat.calls) {
      MembersStay(joined, plat.rows, vlan, want);
    }
  }

  /** `update_vlan`. */
  method UpdateVlan(plat: Platform, id: nat, input: Input) returns (r: WriteResult, ghost run: seq<Op>, ghost want: map<string, string>)
    requires plat.Valid() && id <= U32_MAX
    modifies plat
    ensures Wrote(plat, old(plat.rows), old(plat.log), run) && UpdateStep(old(plat.rows), VlanName(id), input, run)
    ensures r in {BadRequest, NotFound} ==> run == []
    ensures r.Done? ==> MapsMembers(want, input.members) && AllCidrs(input.ips) && VlanKey(VlanName(id)) in old(plat.rows)
    // the requested VLAN, all of it
    ensures r.Done? && AllWork(plat.fault, old(plat.calls), plat.calls) ==>
              && RowOf(plat.rows, VlanKey(VlanName(id))) == UpdatedRow(RowOf(old(plat.rows), VlanKey(VlanName(id))), input)
              && UpdatedSays(RowOf(old(plat.rows), VlanKey(VlanName(id))), RowOf(plat.rows, VlanKey(VlanName(id))), input)
              && MembersAre(plat.rows, VlanName(id), want)
              && MembersSay(plat.rows, VlanName(id), input.members)
              && AddressesAre(plat.rows, VlanName(id), IpSet(input.ips))
              && (ParentKey(VlanName(id)) in plat.rows <==> input.ips != [])
    // and nothing else, whatever fails
    ensures forall k :: OffVlan(k, VlanName(id)) ==> RowOf(plat.rows, k) == RowOf(old(plat.rows), k)
    ensures AllWork(plat.fault, old(plat.calls), plat.calls) ==> r == RequestVerdict(old(plat.rows), VlanName(id), true, input)
    // members keep an existing VLAN after every single write, wherever the call stopped,
    // exactly when the row kept a field or had no member as far as it got
    ensures VlanKey(VlanName(id)) in old(plat.rows) ==>
              (Follows(old(plat.rows), run) <==> UpdateKeeps(old(plat.rows), VlanName(id), input, run))
    ensures VlanKey(VlanName(id)) !in old(plat.rows) ==> run == []
    // so a request the row survives never breaks the rule, and a whole update keeps it
    // exactly then
    ensures VlanKey(VlanName(id)) in old(plat.rows) && Survives(old(plat.rows), VlanName(id), input) ==> Follows(old(plat.rows), run)
    ensures r.Done? && AllWork(plat.fault, old(plat.calls), plat.calls) && MembersHaveVlans(old(plat.rows)) ==>
              (Follows(old(plat.rows), run) <==> Survives(old(plat.rows), VlanName(id), input))
  {
    hide MembersHaveVlans, Follows, VlanKey, VlanName, ParentKey, MembersAre, AddressesAre, UpdatedRow, OffVlan, MapsMembers,
         AllCidrs, UpdateRowOps, UpdateKeeps, Survives, Mild, AddsMember, GoesOn, AddsNone, UpdatedSays, MembersSay;
    ghost var db, log := plat.rows, plat.log;
    run := [];
    assert log + [] == log;
    var vlan := VlanName(id);
    VlanNames(id);
    NothingRun(db, vlan, input);
    var map_;
    r, map_ := CheckInput(plat, vlan, true, input);
    hide RequestVerdict;
    want := map_;
    if !r.Done? { return; }
    CidrsAreNames(input.ips);
    MappedTags(map_, input.members);
    UpdateRowEffect(db, VlanKey(vlan), input);
    var ok;
    ok, run := RunUpdate(plat, vlan, UpdateRowOps(VlanKey(vlan), input), IpSet(input.ips), map_, db, log);
    UpdateKeepsExactly(db, vlan, input, run);
    UpdatedRowSays(RowOf(db, VlanKey(vlan)), input);
    if AllWork(plat.fault, old(plat.calls), plat.calls) {
      MembersAreSay(plat.rows, vlan, map_, input.members);
    }
    NamesWanted(map_, input.members);
    if Survives(db, vlan, input) {
      SurvivingRun(db, vlan, input, run);
    }
    if Follows(db, run) && AllWork(plat.fault, old(plat.calls), plat.calls) && MembersHaveVlans(db) {
      WholeRunSurvives(db, plat.rows, vlan, input, run, map_);
    }
    r := if ok then Done else Redis;
  }

  lemma NothingRun(db: Db, vlan: string, input: Input)
    requires NoEmptyRows(db)
    ensures Follows(db, []) && (VlanKey(vlan) in db ==> UpdateKeeps(db, vlan, input, []))
  {
    hide UpdateRowOps, VlanKey;
    FollowsNothing(db);
    NothingWritten(RowFieldsOf(db, vlan), input);
    if VlanKey(vlan) in db {
      RowThere(db, VlanKey(vlan));
    }
  }

  lemma NamesWanted(want: map<string, string>, members: seq<(string, bool)>)
    requires MapsMembers(want, members)
    ensures want.Keys <= {""} <==> NamesNone(members)
  {
    if NamesNone(members) {
      forall m | m in want ensures m == "" {
        var i :| 0 <= i < |members| && members[i].0 == m;
      }
    }
    forall i | 0 <= i < |members| ensures members[i].0 in want {
    }
  }

  // -------------------------------------------------------------------- a witness

  const VLAN10 := VlanName(10)
  const PORT0 := "Ethernet0"

  /** A VLAN whose row holds a description and nothing else, with one member. */
  const BARE_VLAN: Db := map[VlanKey(VLAN10) := map["description" := "x"],
                             MemberKey(VLAN10, PORT0) := map["tagging_mode" := TAGGED],
                             PortKey(PORT0) := map["mtu" := "9100"]]

  /** The same members, and no description any more. */
  const UNDESCRIBED := Input(None, [], [], [(PORT0, true)])

  lemma BareFacts()
    ensures NoEmptyRows(BARE_VLAN) && MembersHaveVlans(BARE_VLAN) && VlanKey(VLAN10) in BARE_VLAN
    ensures RequestVerdict(BARE_VLAN, VLAN10, true, UNDESCRIBED) == Done
    ensures !Survives(BARE_VLAN, VLAN10, UNDESCRIBED)
  {
    VlanNames(10);
    hide VlanName, MemberOf, FieldsLeft;
    var v, m, p := VlanKey(VLAN10), MemberKey(VLAN10, PORT0), PortKey(PORT0);
    NotBothTables(v);
    PortKeyIsPlain(PORT0);
    MemberKeyExactly(m, VLAN10, PORT0);
    PortKeyDiffers(VLAN10, PORT0);
    BareRow();
    assert v != m by { NotBothKeys(VLAN10, PORT0); }
    assert v != p;
    hide VlanKey, MemberKey, PortKey;
    assert m != p;
    BareIsDone(VLAN10, PORT0);
    hide RequestVerdict;
    assert "description" in BARE_VLAN[v] && "tagging_mode" in BARE_VLAN[m] && "mtu" in BARE_VLAN[p];
    assert m in BARE_VLAN && !NoMemberOf(BARE_VLAN, v);
  }

  lemma BareIsDone(vlan: string, port: string)
    requires vlan == VLAN10 && port == PORT0
    ensures RequestVerdict(BARE_VLAN, vlan, true, UNDESCRIBED) == Done
  {
    hide VlanName, VlanKey, PortKey, MemberKey;
  }

  lemma BareRow()
    ensures RowFieldsOf(BARE_VLAN, VLAN10) == {"description"} && FieldsLeft({"description"}, UNDESCRIBED, 1) == {}
  {
    hide VlanName;
    assert MemberKey(VLAN10, PORT0) != VlanKey(VLAN10) by { NotBothKeys(VLAN10, PORT0); }
    assert PortKey(PORT0).name[0] == 'P' && VlanKey(VLAN10).name[0] == 'V';
    assert RowOf(BARE_VLAN, VlanKey(VLAN10)) == map["description" := "x"];
  }

  lemma NotBothKeys(vlan: string, port: string)
    ensures MemberKey(vlan, port) != VlanKey(vlan)
  {
    assert MemberKey(vlan, port).name[4] == '_' && VlanKey(vlan).name[4] == '|';
  }

  /** The call, no redis call failing: done, and the member is left without its VLAN. */
  method ClearedLastField() returns (plat: Platform, r: WriteResult)
    ensures MembersHaveVlans(BARE_VLAN) && r.Done? && !MembersHaveVlans(plat.rows)
    ensures MemberMode(plat.rows, VLAN10, PORT0) == Some(TAGGED) && VlanKey(VLAN10) !in plat.rows
  {
    BareFacts();
    UndescribedLeavesNothing();
    VlanNames(10);
    hide BARE_VLAN, VlanName, MembersHaveVlans, RequestVerdict, Survives, Follows, MemberMode, VlanKey, UpdatedRow, RowOf;
    plat := new Platform(BARE_VLAN, c => Works, true);
    ghost var run, want;
    r, run, want := UpdateVlan(plat, 10, UNDESCRIBED);
    assert UNDESCRIBED.members[0] == (PORT0, true);
    NoFieldsNoKey(plat.rows, VlanKey(VLAN10));
    if MembersHaveVlans(plat.rows) {
      MemberNeedsVlan(plat.rows, VLAN10, PORT0);
    }
  }

  lemma UndescribedLeavesNothing()
    ensures UpdatedRow(RowOf(BARE_VLAN, VlanKey(VLAN10)), UNDESCRIBED) == map[]
  {
    BareRow();
    NoFieldsNoRow(UpdatedRow(RowOf(BARE_VLAN, VlanKey(VLAN10)), UNDESCRIBED));
  }

  lemma NoFieldsNoKey(db: Db, key: Key)
    requires NoEmptyRows(db)
    ensures RowOf(db, key) == map[] ==> key !in db
  {
  }
}
