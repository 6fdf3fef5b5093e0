/** Writes that keep the VLAN membership rule, how a call's unbatched writes run against a
    failing store, and `update_port` (`src/sonic/switching.rs`). */
module VlanWrites {
  import opened Common
  import opened Text
  import opened Store
  import opened Keys
  import opened Diffs
  import opened Vlans

  // ------------------------------------------------------------ gentle programs

  /** A write that neither removes a VLAN row nor adds a member of a missing one. */
  ghost predicate Gentle(db: Db, op: Op) {
    match op
    case HSet(k, _) => (MemberOf(k).Some? ==> VlanKey(MemberOf(k).value.0) in db) && (IsVlanRow(k) ==> k in db)
    case HDel(k, _) => !IsVlanRow(k)
    case Del(k) => !IsVlanRow(k)
  }

  ghost predicate AllGentle(db: Db, ops: seq<Op>) {
    forall i :: 0 <= i < |ops| ==> Gentle(db, ops[i])
  }

  /** The VLAN rows of `a` are also in `b`. */
  ghost predicate VlansStay(a: Db, b: Db) {
    forall k :: k in a && IsVlanRow(k) ==> k in b
  }

  lemma GentleStep(a: Db, b: Db, op: Op)
    requires NoEmptyRows(b) && VlansStay(a, b) && Gentle(a, op)
    ensures Allowed(b, op) && VlansStay(a, Exec(b, op))
  {
    hide MemberOf, IsVlanRow, VlanKey;
    NotBothTables(op.key);
    if op.HSet? && op.fields != map[] {
      var f :| f in op.fields;
      assert f in RowOf(b, op.key) + op.fields;
    }
    if MemberOf(op.key).Some? {
      NotBothTables(VlanKey(MemberOf(op.key).value.0));
    }
  }

  lemma {:induction false} GentleFollows(db: Db, ops: seq<Op>)
    requires NoEmptyRows(db) && AllGentle(db, ops)
    ensures Follows(db, ops) && VlansStay(db, ExecAll(db, ops)) && NoEmptyRows(ExecAll(db, ops))
    decreases |ops|
  {
    hide Gentle, Allowed, MemberOf;
    if ops != [] {
      var front, last := ops[..|ops| - 1], ops[|ops| - 1];
      assert forall i :: 0 <= i < |front| ==> front[i] == ops[i];
      GentleFollows(db, front);
      assert Gentle(db, last);
      GentleStep(db, ExecAll(db, front), last);
      ExecNoEmptyRows(ExecAll(db, front), last);
      forall n | 0 <= n < |ops| ensures Allowed(ExecAll(db, ops[..n]), ops[n]) {
        if n < |front| {
          assert ops[..n] == front[..n];
          assert Allowed(ExecAll(db, front[..n]), front[n]);
        } else {
          assert ops[..n] == front;
        }
      }
    }
  }

  // --------------------------------------------------------------- running them

  /** What a call has done so far: `run` lists its writes in order. */
  ghost predicate Wrote(plat: Platform, db: Db, log: seq<Op>, run: seq<Op>)
    reads plat
  {
    plat.Valid() && NoEmptyRows(db) && plat.rows == ExecAll(db, run) && plat.log == log + run
  }

  /** And each was allowed where it happened when the call started from a store that keeps
      the rule. */
  ghost predicate Ran(plat: Platform, db: Db, log: seq<Op>, run: seq<Op>)
    reads plat
  {
    Wrote(plat, db, log, run) && (MembersHaveVlans(db) ==> Follows(db, run))
  }

  /** Run more writes. */
  method WriteMore(plat: Platform, ops: seq<Op>, ghost db: Db, ghost log: seq<Op>, ghost run: seq<Op>)
    returns (ok: bool, ghost run': seq<Op>)
    requires Wrote(plat, db, log, run) && forall i :: 0 <= i < |ops| ==> Reaches(ops[i])
    modifies plat
    ensures Wrote(plat, db, log, run') && old(plat.calls) <= plat.calls
    ensures run <= run' <= run + ops
    ensures ok <==> AllWork(plat.fault, old(plat.calls), plat.calls)
    ensures ok ==> run' == run + ops && plat.rows == ExecAll(old(plat.rows), ops)
  {
    ghost var done;
    ok, done := WriteEach(plat, ops);
    run' := run + ops[..done];
    ExecAllAppend(db, run, ops[..done]);
    assert ops[..|ops|] == ops;
  }

  // ---------------------------------------------------------------- update_port

  datatype Patch = Patch(
    description: Option<Option<string>>,
    admin: Option<string>,
    mtu: Option<Option<nat>>,
    speed: Option<Option<nat>>,
    fec: Option<Option<string>>,
    mode: Option<Mode>,
    untagged: Option<Option<nat>>,
    tagged: Option<seq<nat>>)

  function PortKey(name: string): Key {
    Key(CONFIG_DB, "PORT|" + name)
  }

  function PatchOps(key: Key, p: Patch): (ops: seq<Op>)
    ensures forall i :: 0 <= i < |ops| ==> ops[i].key == key && !ops[i].Del? && Reaches(ops[i])
  {
    PatchField(key, "description", p.description)
    + PatchField(key, "admin_status", if p.admin.Some? then Some(p.admin) else None)
    + PatchField(key, "mtu", Rendered(p.mtu))
    + PatchField(key, "speed", Rendered(p.speed))
    + PatchField(key, "fec", p.fec)
  }

  function Flatten(v: Option<Option<nat>>): Option<nat> {
    if v.Some? then v.value else None
  }

  function Wanted(p: Patch): Option<map<nat, string>> {
    if p.mode.Some? then DesiredRows(p.mode.value, Flatten(p.untagged), p.tagged.GetOr([])) else None
  }

  predicate PatchOk(p: Patch) {
    && (p.mtu.Some? && p.mtu.value.Some? ==> 68 <= p.mtu.value.value <= 9216)
    && (p.speed.Some? && p.speed.value.Some? ==> p.speed.value.value > 0)
    && (p.mode.Some? ==> Wanted(p).Some?)
  }

  lemma PortKeyIsPlain(name: string)
    ensures !IsVlanRow(PortKey(name)) && MemberOf(PortKey(name)) == None
  {
    assert "PORT|"[0] == 'P' && "VLAN|"[0] == 'V' && "VLAN_MEMBER|"[0] == 'V';
    assert PortKey(name).name[0] == 'P';
  }

  lemma MemberKeyIsPlain(vlan: string, port: string)
    ensures !IsVlanRow(MemberKey(vlan, port))
    ensures Lacks(vlan, '|') && MemberOf(MemberKey(vlan, port)).Some? ==> MemberOf(MemberKey(vlan, port)) == Some((vlan, port))
  {
    assert "VLAN|"[4] == '|' && "VLAN_MEMBER|"[4] == '_' && MemberKey(vlan, port).name[4] == '_';
    if Lacks(vlan, '|') && MemberOf(MemberKey(vlan, port)).Some? {
      var (v, p) := MemberOf(MemberKey(vlan, port)).value;
      assert MemberKey(vlan, port).name[|MEMBER|..] == vlan + ['|'] + port;
      SplitOnceOf(vlan, '|', port);
    }
  }

  /** The member row of a port in the VLAN with this id. */
  function PortMember(port: string): nat -> Key {
    (id: nat) => MemberKey(VlanName(id), port)
  }

  lemma MemberKeySplits(vlan: string, port: string)
    requires Lacks(vlan, '|')
    ensures SplitOnce(MemberKey(vlan, port).name[|MEMBER|..], '|') == Some((vlan, port))
  {
    assert MemberKey(vlan, port).name[|MEMBER|..] == vlan + ['|'] + port;
    SplitOnceOf(vlan, '|', port);
  }

  lemma PortMembersDiffer(port: string, ids: set<nat>)
    requires forall id :: id in ids ==> id <= U32_MAX
    ensures Injective(PortMember(port), ids)
  {
    hide SplitOnce, MemberKey, VlanName, VlanId;
    forall x, y | x in ids && y in ids && PortMember(port)(x) == PortMember(port)(y) ensures x == y {
      VlanNames(x);
      VlanNames(y);
      MemberKeySplits(VlanName(x), port);
      MemberKeySplits(VlanName(y), port);
    }
  }

  /** The rows to write for a diff of tagging modes. */
  function ModeRows<K>(sets: map<K, string>): map<K, Row> {
    map x | x in sets :: map["tagging_mode" := sets[x]]
  }

  /** The current membership of the port, id by id, as the scan shows it. */
  method ReadPort(plat: Platform, name: string) returns (ok: bool, current: map<nat, string>)
    requires plat.Valid()
    modifies plat`calls
    ensures old(plat.calls) <= plat.calls
    ensures forall id :: id in current ==> id <= U32_MAX
    ensures AllWork(plat.fault, old(plat.calls), plat.calls) ==> ok
    ensures AllWork(plat.fault, old(plat.calls), plat.calls) && name != "" && AllCanonical(plat.rows, name) ==>
              forall id: nat :: id <= U32_MAX ==> MemberMode(plat.rows, VlanName(id), name) == if id in current then Some(current[id]) else None
  {
    hide MemberOf, VlanId, VlanName, ModeOfRow;
    var names;
    ok, names := plat.Scan(CONFIG_DB, MEMBER);
    current := map[];
    if !ok { return; }
    for i := 0 to |names|
      invariant old(plat.calls) < plat.calls
      invariant forall id :: id in current ==> id <= U32_MAX
      invariant AllWork(plat.fault, old(plat.calls), plat.calls) && name != "" && AllCanonical(plat.rows, name) ==>
                  forall id: nat :: id <= U32_MAX ==>
                    (id in current <==> MemberKey(VlanName(id), name).name in names[..i])
                    && (id in current ==> MemberMode(plat.rows, VlanName(id), name) == Some(current[id]))
    {
      assert names[..i + 1] == names[..i] + [names[i]];
      var key := Key(CONFIG_DB, names[i]);
      assert names[i] in names;
      ScannedMember(plat.rows, key, name);
      if MemberOf(key).Some? && MemberOf(key).value.1 == name && VlanId(MemberOf(key).value.0).Some? {
        var id := VlanId(MemberOf(key).value.0).value;
        ParsedFits(MemberOf(key).value.0);
        var _, row := plat.HGetAll(key);
        current := current[id := ModeOfRow(row)];
      }
    }
    assert names[..|names|] == names;
    forall id: nat | id <= U32_MAX
      ensures MemberKey(VlanName(id), name).name in names <==> MemberKey(VlanName(id), name) in plat.rows {
      assert MEMBER <= MemberKey(VlanName(id), name).name;
    }
  }

  lemma ParsedFits(vlan: string)
    ensures VlanId(vlan).Some? ==> VlanId(vlan).value <= U32_MAX
  {
  }

  /** A scanned key is the port's member row of exactly one id, or of none. */
  lemma ScannedMember(db: Db, key: Key, name: string)
    requires key in db && key.db == CONFIG_DB
    ensures name != "" && AllCanonical(db, name) ==>
      forall id: nat :: id <= U32_MAX ==>
        (key == MemberKey(VlanName(id), name) <==>
          MemberOf(key).Some? && MemberOf(key).value.1 == name && VlanId(MemberOf(key).value.0) == Some(id))
  {
    hide MemberOf, VlanId, VlanName;
    if name != "" && AllCanonical(db, name) {
      forall id: nat | id <= U32_MAX
        ensures key == MemberKey(VlanName(id), name) <==>
          MemberOf(key).Some? && MemberOf(key).value.1 == name && VlanId(MemberOf(key).value.0) == Some(id) {
        VlanNames(id);
        MemberKeyExactly(key, VlanName(id), name);
        if MemberOf(key).Some? && MemberOf(key).value.1 == name {
          MemberOfInverse(key);
          assert IsVlanName(MemberOf(key).value.0);
        }
      }
    }
  }

  /** Not a canonically spelt member row of the port. */
  ghost predicate OffMembers(k: Key, name: string) {
    forall id: nat :: id <= U32_MAX ==> k != PortMember(name)(id)
  }

  /** Not a row that `update_port` may write. */
  ghost predicate OffPort(k: Key, name: string) {
    k != PortKey(name) && OffMembers(k, name)
  }

  /** The modes of a diff, read as rows. */
  lemma WrittenMode(row: Row, mode: string)
    requires mode in {TAGGED, UNTAGGED}
    ensures ModeOfRow(row + map["tagging_mode" := mode]) == mode
  {
    hide Trim;
    assert IsWord(TAGGED) && IsWord(UNTAGGED);
    TrimOfTrimmed(TAGGED);
    TrimOfTrimmed(UNTAGGED);
  }

  /** One canonical member row after the diff was carried out. */
  lemma PortRowConverged(before: Db, after: Db, ops: seq<Op>, name: string, current: map<nat, string>, want: map<nat, string>, id: nat)
    requires NoEmptyRows(before) && after == ExecAll(before, ops) && id <= U32_MAX
    requires forall x :: x in current || x in want ==> x <= U32_MAX
    requires forall x :: x in want ==> want[x] in {TAGGED, UNTAGGED}
    requires CarriesOut(ops, PortMember(name), Dels(current, want), ModeRows(Sets(current, want)))
    requires MemberMode(before, VlanName(id), name) == if id in current then Some(current[id]) else None
    ensures MemberMode(after, VlanName(id), name) == if id in want then Some(want[id]) else None
  {
    hide ModeOfRow, VlanName, MemberKey, CarriesOut;
    var dels, sets := Dels(current, want), ModeRows(Sets(current, want));
    PortMembersDiffer(name, dels + sets.Keys + {id});
    CarriedOut(before, ops, PortMember(name), dels, sets, id);
    ExecAllNoEmptyRows(before, ops);
    var k := MemberKey(VlanName(id), name);
    assert PortMember(name)(id) == k;
    if id in sets {
      WrittenMode(RowOf(before, k), want[id]);
      assert sets[id] == map["tagging_mode" := want[id]];
      assert "tagging_mode" in RowOf(after, k);
    } else if id in dels {
      assert RowOf(after, k) == map[];
    } else {
      assert RowOf(after, k) == RowOf(before, k);
      assert k in after <==> k in before;
    }
  }

  /** The whole membership of the port after the diff was carried out: exactly the
      wanted rows when every row of the port was canonical. */
  lemma PortConverged(before: Db, after: Db, ops: seq<Op>, name: string, current: map<nat, string>, want: map<nat, string>)
    requires NoEmptyRows(before) && after == ExecAll(before, ops)
    requires forall x :: x in current || x in want ==> x <= U32_MAX
    requires forall x :: x in want ==> want[x] in {TAGGED, UNTAGGED}
    requires CarriesOut(ops, PortMember(name), Dels(current, want), ModeRows(Sets(current, want)))
    requires AllCanonical(before, name)
    requires forall id: nat :: id <= U32_MAX ==>
      MemberMode(before, VlanName(id), name) == if id in current then Some(current[id]) else None
    ensures ExactMembership(after, name, want)
  {
    hide ModeOfRow, VlanName, VlanId, MemberKey, CarriesOut, Dels, Sets, ModeRows, PortMember;
    forall vlan | IsVlanName(vlan)
      ensures MemberMode(after, vlan, name) ==
        if Canonical(vlan) && VlanId(vlan).value in want then Some(want[VlanId(vlan).value]) else None {
      if Canonical(vlan) {
        ParsedFits(vlan);
        PortRowConverged(before, after, ops, name, current, want, VlanId(vlan).value);
      } else {
        NonCanonicalIsOffPort(vlan, name);
        DiffKeepsOffPort(before, ops, name, current, want, MemberKey(vlan, name));
        ExecAllNoEmptyRows(before, ops);
        assert MemberKey(vlan, name) !in before;
        assert RowOf(after, MemberKey(vlan, name)) == map[];
      }
    }
  }

  lemma NonCanonicalIsOffPort(vlan: string, name: string)
    requires IsVlanName(vlan) && !Canonical(vlan)
    ensures OffPort(MemberKey(vlan, name), name)
  {
    hide VlanName, VlanId, MemberKey, PortKey;
    PortKeyDiffers(vlan, name);
    forall id: nat | id <= U32_MAX ensures MemberKey(vlan, name) != PortMember(name)(id) {
      VlanNames(id);
      MemberKeySplits(vlan, name);
      MemberKeySplits(VlanName(id), name);
    }
  }

  lemma PortKeyDiffers(vlan: string, name: string)
    ensures MemberKey(vlan, name) != PortKey(name)
  {
    assert "PORT|"[0] == 'P' && "VLAN_MEMBER|"[0] == 'V';
    assert PortKey(name).name[0] == 'P' && MemberKey(vlan, name).name[0] == 'V';
  }

  lemma DiffKeepsOffPort(db: Db, ops: seq<Op>, name: string, current: map<nat, string>, want: map<nat, string>, k: Key)
    requires forall x :: x in current || x in want ==> x <= U32_MAX
    requires CarriesOut(ops, PortMember(name), Dels(current, want), ModeRows(Sets(current, want)))
    requires OffPort(k, name)
    ensures RowOf(ExecAll(db, ops), k) == RowOf(db, k)
  {
    hide CarriesOut;
    OthersUntouched(db, ops, PortMember(name), Dels(current, want), ModeRows(Sets(current, want)), k);
  }

  /** A write of `update_port`: to the port's own row, which it never removes, or to a
      canonical member row of the port, set only under a VLAN of the store it started from. */
  ghost predicate PortWrite(db: Db, name: string, op: Op) {
    (op.key == PortKey(name) && !op.Del?) || MemberWrite(db, name, op)
  }

  ghost predicate MemberWrite(db: Db, name: string, op: Op) {
    exists id: nat :: id <= U32_MAX && op.key == PortMember(name)(id) && (op.Del? || (op.HSet? && VlanKey(VlanName(id)) in db))
  }

  /** What `update_port`, stopped anywhere, has written. */
  ghost predicate PortStep(db: Db, name: string, run: seq<Op>) {
    forall i :: 0 <= i < |run| ==> PortWrite(db, name, run[i])
  }

  lemma PortDiffWrites(db: Db, ops: seq<Op>, name: string, current: map<nat, string>, want: map<nat, string>)
    requires forall x :: x in current || x in want ==> x <= U32_MAX
    requires CarriesOut(ops, PortMember(name), Dels(current, want), ModeRows(Sets(current, want)))
    requires forall id :: id in want ==> VlanKey(VlanName(id)) in db
    ensures forall i :: 0 <= i < |ops| ==> MemberWrite(db, name, ops[i])
  {
    hide VlanName, MemberKey, VlanKey, PortMember;
    forall i | 0 <= i < |ops| ensures MemberWrite(db, name, ops[i]) {
      assert IsOneOf(ops[i], PortMember(name), Dels(current, want), ModeRows(Sets(current, want)));
    }
  }

  lemma PortWriteIsGentle(db: Db, name: string, op: Op)
    requires PortWrite(db, name, op)
    ensures Gentle(db, op) && !IsVlanRow(op.key)
  {
    hide MemberOf, VlanName, IsVlanRow, MemberKey, VlanKey, PortKey;
    if MemberWrite(db, name, op) {
      var id: nat :| id <= U32_MAX && op.key == PortMember(name)(id) && (op.Del? || (op.HSet? && VlanKey(VlanName(id)) in db));
      VlanNames(id);
      MemberKeyIsPlain(VlanName(id), name);
    } else {
      PortKeyIsPlain(name);
    }
  }

  lemma PortStepFollows(db: Db, name: string, run: seq<Op>)
    requires NoEmptyRows(db) && PortStep(db, name, run)
    ensures Follows(db, run)
  {
    hide Gentle, PortWrite;
    forall i | 0 <= i < |run| ensures Gentle(db, run[i]) {
      PortWriteIsGentle(db, name, run[i]);
    }
    GentleFollows(db, run);
  }

  /** Writes to one row change no other. */
  lemma {:induction false} OneRowWrites(db: Db, ops: seq<Op>, key: Key, k: Key)
    requires forall i :: 0 <= i < |ops| ==> ops[i].key == key
    requires k != key
    ensures RowOf(ExecAll(db, ops), k) == RowOf(db, k) && (k in ExecAll(db, ops) <==> k in db)
    decreases |ops|
  {
    if ops != [] {
      OneRowWrites(db, ops[..|ops| - 1], key, k);
      ExecKeepsOthers(ExecAll(db, ops[..|ops| - 1]), ops[|ops| - 1], k);
    }
  }

  /** The VLANs of the wanted rows all exist. */
  method CheckVlans(plat: Platform, want: map<nat, string>) returns (r: WriteResult)
    requires plat.Valid()
    modifies plat`calls
    ensures old(plat.calls) <= plat.calls && r in {Done, BadRequest, Redis}
    ensures r.Done? ==> forall id :: id in want ==> VlanKey(VlanName(id)) in plat.rows
    ensures AllWork(plat.fault, old(plat.calls), plat.calls) ==>
              !r.Redis? && (r.Done? <==> forall id :: id in want ==> VlanKey(VlanName(id)) in plat.rows)
  {
    hide VlanName;
    var ids := Listed(want.Keys);
    for i := 0 to |ids|
      invariant old(plat.calls) <= plat.calls
      invariant forall j :: 0 <= j < i ==> VlanKey(VlanName(ids[j])) in plat.rows
    {
      var ok, found := plat.Exists(VlanKey(VlanName(ids[i])));
      if !ok { return Redis; }
      if !found {
        assert ids[i] in ids;
        return BadRequest;
      }
    }
    r := Done;
  }

  predicate SpeedRefused(p: Patch, supported: Option<seq<nat>>) {
    p.speed.Some? && p.speed.value.Some? && supported.Some? && p.speed.value.value !in supported.value
  }

  ghost predicate AllVlansExist(db: Db, want: map<nat, string>) {
    forall id :: id in want ==> VlanKey(VlanName(id)) in db
  }

  /** What `update_port` answers when no call fails. */
  ghost function Verdict(db: Db, name: string, p: Patch, supported: Option<seq<nat>>): WriteResult {
    if !PatchOk(p) then BadRequest
    else if PortKey(name) !in db then NotFound
    else if SpeedRefused(p, supported) then Unprocessable
    else if p.mode.Some? && !AllVlansExist(db, Wanted(p).value) then BadRequest
    else Done
  }

  method CheckPatch(plat: Platform, name: string, p: Patch, supported: Option<seq<nat>>)
    returns (r: WriteResult, want: map<nat, string>)
    requires plat.Valid()
    modifies plat`calls
    ensures old(plat.calls) <= plat.calls && r in {Done, BadRequest, NotFound, Unprocessable, Redis}
    ensures r.Done? ==> PatchOk(p) && PortKey(name) in plat.rows && want == Wanted(p).GetOr(map[])
    ensures r.Done? ==> forall id :: id in want ==> VlanKey(VlanName(id)) in plat.rows
    ensures AllWork(plat.fault, old(plat.calls), plat.calls) ==> r == Verdict(plat.rows, name, p, supported)
  {
    hide VlanName, VlanKey, PortKey, DesiredRows;
    want := map[];
    if !(p.mtu.Some? && p.mtu.value.Some? ==> 68 <= p.mtu.value.value <= 9216) {
      r := BadRequest;
      return;
    }
    if !(p.speed.Some? && p.speed.value.Some? ==> p.speed.value.value > 0) {
      r := BadRequest;
      return;
    }
    if p.mode.Some? {
      var desired := ComputeDesired(p.mode.value, Flatten(p.untagged), p.tagged.GetOr([]));
      if desired == None {
        r := BadRequest;
        return;
      }
      want := desired.value;
    }
    var ok, found := plat.Exists(PortKey(name));
    if !ok {
      r := Redis;
      return;
    }
    if !found {
      r := NotFound;
      return;
    }
    if SpeedRefused(p, supported) {
      r := Unprocessable;
      return;
    }
    r := CheckVlans(plat, want);
  }

  /** Carry the port's membership over to the wanted rows. */
  method ConvergePort(plat: Platform, name: string, want: map<nat, string>, ghost db: Db, ghost log: seq<Op>, ghost run: seq<Op>)
    returns (ok: bool, ghost run': seq<Op>)
    requires Wrote(plat, db, log, run) && PortStep(db, name, run)
    requires forall id :: id in want ==> id <= U32_MAX && want[id] in {TAGGED, UNTAGGED} && VlanKey(VlanName(id)) in db
    modifies plat
    ensures Wrote(plat, db, log, run') && PortStep(db, name, run') && old(plat.calls) <= plat.calls
    ensures forall k :: OffMembers(k, name) ==> RowOf(plat.rows, k) == RowOf(old(plat.rows), k)
    ensures AllWork(plat.fault, old(plat.calls), plat.calls) ==> ok
    ensures ok && AllWork(plat.fault, old(plat.calls), plat.calls) && name != "" && AllCanonical(old(plat.rows), name) ==>
              ExactMembership(plat.rows, name, want)
  {
    hide VlanName, VlanKey, MemberMode, AllCanonical, ExactMembership, OffMembers, CarriesOut, Injective, PortMember, MemberWrite;
    ghost var before := plat.rows;
    run' := run;
    var current;
    ok, current := ReadPort(plat, name);
    if !ok { return; }
    var dels, sets := Dels(current, want), ModeRows(Sets(current, want));
    PortMembersDiffer(name, dels + sets.Keys);
    forall x | x in sets ensures sets[x] != map[] {
      assert "tagging_mode" in sets[x];
    }
    var ops := CarryOut(PortMember(name), dels, sets);
    PortDiffWrites(db, ops, name, current, want);
    ok, run' := WriteMore(plat, ops, db, log, run);
    forall i | 0 <= i < |run'| ensures PortWrite(db, name, run'[i]) {
      assert run'[i] == (run + ops)[i];
    }
    if ok && AllWork(plat.fault, old(plat.calls), plat.calls) && name != "" && AllCanonical(before, name) {
      PortConverged(before, plat.rows, ops, name, current, want);
    }
    forall k | OffMembers(k, name) ensures RowOf(plat.rows, k) == RowOf(before, k) {
      PartialDiffKeepsOffMembers(before, ops, run, run', db, name, current, want, k);
    }
  }

  /** However far the diff got, rows off the port are as they were. */
  lemma PartialDiffKeepsOffMembers(before: Db, ops: seq<Op>, run: seq<Op>, run': seq<Op>, db: Db, name: string,
                                current: map<nat, string>, want: map<nat, string>, k: Key)
    requires before == ExecAll(db, run) && run <= run' <= run + ops
    requires forall x :: x in current || x in want ==> x <= U32_MAX
    requires CarriesOut(ops, PortMember(name), Dels(current, want), ModeRows(Sets(current, want)))
    requires OffMembers(k, name)
    ensures RowOf(ExecAll(db, run'), k) == RowOf(before, k)
  {
    var done := run'[|run|..];
    assert run' == run + done;
    assert forall i :: 0 <= i < |done| ==> done[i] == run'[|run| + i] == (run + ops)[|run| + i] == ops[i];
    ExecAllAppend(db, run, done);
    WrittenOnce(before, done, k);
    forall i | 0 <= i < |done| ensures done[i].key != k {
      assert IsOneOf(ops[i], PortMember(name), Dels(current, want), ModeRows(Sets(current, want)));
    }
  }

  /** The port's own row after a patch. */
  function PatchedRow(row: Row, p: Patch): Row {
    var described := PatchedField(row, "description", p.description);
    var admin := PatchedField(described, "admin_status", if p.admin.Some? then Some(p.admin) else None);
    var mtu := PatchedField(admin, "mtu", Rendered(p.mtu));
    var speed := PatchedField(mtu, "speed", Rendered(p.speed));
    PatchedField(speed, "fec", p.fec)
  }

  /** What a patch says of the port, read back from its row: each field given is set or
      cleared, every other is what it was. */
  ghost predicate PortSays(before: Row, after: Row, p: Patch) {
    && PatchesText(before, after, "description", p.description)
    && Raw(after, "admin_status") == (if p.admin.Some? then p.admin else Raw(before, "admin_status"))
    && PatchesNumber(before, after, "mtu", p.mtu) && PatchesNumber(before, after, "speed", p.speed)
    && PatchesText(before, after, "fec", p.fec)
    && KeepsOthers(before, after, {"description", "admin_status", "mtu", "speed", "fec"})
  }

  lemma PatchedRowReads(row: Row, p: Patch)
    ensures var after := PatchedRow(row, p);
      && PatchesText(row, after, "description", p.description)
      && Raw(after, "admin_status") == (if p.admin.Some? then p.admin else Raw(row, "admin_status"))
      && PatchesText(row, after, "mtu", Rendered(p.mtu)) && PatchesText(row, after, "speed", Rendered(p.speed))
      && PatchesText(row, after, "fec", p.fec)
      && KeepsOthers(row, after, {"description", "admin_status", "mtu", "speed", "fec"})
  {
    assert "description"[0] == 'd' && "admin_status"[0] == 'a' && "mtu"[0] == 'm' && "speed"[0] == 's' && "fec"[0] == 'f';
    hide PatchedField, Rendered, Raw;
    FivePatched(row, "description", p.description, "admin_status", if p.admin.Some? then Some(p.admin) else None,
                "mtu", Rendered(p.mtu), "speed", Rendered(p.speed), "fec", p.fec);
  }

  lemma PatchedRowSays(row: Row, p: Patch)
    ensures PortSays(row, PatchedRow(row, p), p)
  {
    PatchedRowReads(row, p);
    hide PatchedRow, PatchesText, PatchesNumber, KeepsOthers, Raw, Rendered;
    NumberPatched(row, PatchedRow(row, p), "mtu", p.mtu);
    NumberPatched(row, PatchedRow(row, p), "speed", p.speed);
  }

  lemma PatchOpsEffect(db: Db, key: Key, p: Patch)
    ensures RowOf(ExecAll(db, PatchOps(key, p)), key) == PatchedRow(RowOf(db, key), p)
  {
    hide PatchField, PatchedField, Rendered, RowOf;
    var a := PatchField(key, "description", p.description);
    var b := a + PatchField(key, "admin_status", if p.admin.Some? then Some(p.admin) else None);
    var c := b + PatchField(key, "mtu", Rendered(p.mtu));
    var d := c + PatchField(key, "speed", Rendered(p.speed));
    PatchFieldEffect(db, key, "description", p.description, []);
    assert [] + a == a;
    PatchFieldEffect(db, key, "admin_status", if p.admin.Some? then Some(p.admin) else None, a);
    PatchFieldEffect(db, key, "mtu", Rendered(p.mtu), b);
    PatchFieldEffect(db, key, "speed", Rendered(p.speed), c);
    PatchFieldEffect(db, key, "fec", p.fec, d);
  }

  lemma FollowsNothing(db: Db)
    ensures Follows(db, [])
  {
  }

  /** The scalar fields, one write each. */
  method PatchPort(plat: Platform, name: string, p: Patch) returns (ok: bool, ghost run: seq<Op>)
    requires plat.Valid()
    modifies plat
    ensures Wrote(plat, old(plat.rows), old(plat.log), run) && old(plat.calls) <= plat.calls
    ensures PortStep(old(plat.rows), name, run)
    ensures ok <==> AllWork(plat.fault, old(plat.calls), plat.calls)
    ensures ok ==> RowOf(plat.rows, PortKey(name)) == PatchedRow(RowOf(old(plat.rows), PortKey(name)), p)
    ensures forall k :: k != PortKey(name) ==>
              RowOf(plat.rows, k) == RowOf(old(plat.rows), k) && (k in plat.rows <==> k in old(plat.rows))
  {
    hide PortKey, PatchOps, MemberWrite;
    ghost var db := plat.rows;
    assert plat.log + [] == plat.log;
    var ops := PatchOps(PortKey(name), p);
    PatchOpsEffect(db, PortKey(name), p);
    ok, run := WriteMore(plat, ops, db, plat.log, []);
    assert [] + ops == ops;
    forall k | k != PortKey(name) ensures RowOf(plat.rows, k) == RowOf(db, k) && (k in plat.rows <==> k in db) {
      assert forall i :: 0 <= i < |run| ==> run[i] == ops[i];
      OneRowWrites(db, run, PortKey(name), k);
    }
  }

  /** `update_port`. */
  method UpdatePort(plat: Platform, name: string, p: Patch, supported: Option<seq<nat>>) returns (r: WriteResult, ghost run: seq<Op>)
    requires plat.Valid()
    modifies plat
    // every write was allowed where it happened
    ensures Ran(plat, old(plat.rows), old(plat.log), run) && PortStep(old(plat.rows), name, run)
    ensures r in {BadRequest, NotFound, Unprocessable} ==> run == []
    ensures r.Done? ==> PatchOk(p) && PortKey(name) in old(plat.rows)
    ensures r.Done? && AllWork(plat.fault, old(plat.calls), plat.calls) ==>
              RowOf(plat.rows, PortKey(name)) == PatchedRow(RowOf(old(plat.rows), PortKey(name)), p)
    // other ports' membership and every other row are untouched, whatever fails
    ensures forall k :: OffPort(k, name) ==> RowOf(plat.rows, k) == RowOf(old(plat.rows), k)
    // the membership is the wanted one exactly when no row of the port was misspelt
    ensures r.Done? && AllWork(plat.fault, old(plat.calls), plat.calls) && name != "" && p.mode.Some? ==>
              && (ExactMembership(plat.rows, name, Wanted(p).value) <==> AllCanonical(old(plat.rows), name))
              && (MembershipAsked(plat.rows, name, p.mode.value, Flatten(p.untagged), p.tagged.GetOr([])) <==> AllCanonical(old(plat.rows), name))
    // the port's own row reads back as patched
    ensures r.Done? ==> PortSays(RowOf(old(plat.rows), PortKey(name)), RowOf(plat.rows, PortKey(name)), p)
    ensures AllWork(plat.fault, old(plat.calls), plat.calls) ==> r == Verdict(old(plat.rows), name, p, supported)
  {
    FollowsNothing(plat.rows);
    hide MembersHaveVlans, ExactMembership, AllCanonical, Follows, PortWrite, OffPort, OffMembers, VlanName, PortKey, VlanKey, DesiredRows, PatchedRow,
         PortSays, MembershipAsked;
    ghost var db, log := plat.rows, plat.log;
    run := [];
    assert log + [] == log;
    var want;
    r, want := CheckPatch(plat, name, p, supported);
    hide Verdict;
    if !r.Done? { return; }
    var ok;
    ok, run := PatchPort(plat, name, p);
    ghost var mid := plat.rows;
    PortStepFollows(db, name, run);
    PatchedRowSays(RowOf(db, PortKey(name)), p);
    OffPortSplits(name);
    if !ok {
      r := Redis;
      return;
    }
    if p.mode.Some? {
      WantedIds(p.mode.value, Flatten(p.untagged), p.tagged.GetOr([]));
      SamePortMembership(db, mid, name);
      ok, run := ConvergePort(plat, name, want, db, log, run);
      PortStepFollows(db, name, run);
      if !ok {
        r := Redis;
        return;
      }
      if AllWork(plat.fault, old(plat.calls), plat.calls) && name != "" {
        ExactOnlyIfCanonical(db, plat.rows, name, want);
        MembershipAskedExactly(plat.rows, name, p.mode.value, Flatten(p.untagged), p.tagged.GetOr([]));
      }
    }
  }

  lemma OffPortSplits(name: string)
    ensures forall k :: OffPort(k, name) ==> k != PortKey(name) && OffMembers(k, name)
    ensures OffMembers(PortKey(name), name)
  {
    hide VlanName, PortKey;
    forall id: nat ensures PortMember(name)(id) != PortKey(name) {
      PortKeyDiffers(VlanName(id), name);
    }
  }

  lemma SamePortMembership(a: Db, b: Db, name: string)
    requires forall k :: k != PortKey(name) ==> (k in b <==> k in a)
    ensures AllCanonical(a, name) <==> AllCanonical(b, name)
  {
    hide MemberKey, PortKey, Canonical;
    forall vlan ensures MemberKey(vlan, name) in a <==> MemberKey(vlan, name) in b {
      PortKeyDiffers(vlan, name);
    }
  }

  /** A misspelt row of the port survives every update and is never wanted. */
  lemma ExactOnlyIfCanonical(before: Db, after: Db, name: string, want: map<nat, string>)
    requires NoEmptyRows(before) && NoEmptyRows(after)
    requires forall k :: OffPort(k, name) ==> RowOf(after, k) == RowOf(before, k)
    ensures ExactMembership(after, name, want) ==> AllCanonical(before, name)
  {
    hide MemberKey, Canonical, ModeOfRow, OffPort;
    if ExactMembership(after, name, want) {
      forall vlan | IsVlanName(vlan) && MemberKey(vlan, name) in before ensures Canonical(vlan) {
        assert MemberMode(after, vlan, name).Some? ==> Canonical(vlan);
        if !Canonical(vlan) {
          NonCanonicalIsOffPort(vlan, name);
        }
      }
    }
  }
}
