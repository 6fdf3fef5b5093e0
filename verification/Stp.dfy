/** Spanning tree (`src/sonic/stp.rs`): enabling, disabling and per-VLAN configuration,
    and what every failure-free run of them keeps. */
module Stp {
  import opened Common
  import opened Text
  import opened Store
  import opened Keys
  import opened Diffs
  import opened Vlans

  const GLOBAL := Key(CONFIG_DB, "STP|GLOBAL")
  const MST := Key(CONFIG_DB, "STP_MST|GLOBAL")
  const LIMIT := Key(STATE_DB, "STP_TABLE|GLOBAL")
  const STP_VLAN := "STP_VLAN|"
  const STP_PORT := "STP_PORT|"

  function StpVlanKey(vlan: string): Key {
    Key(CONFIG_DB, STP_VLAN + vlan)
  }

  predicate IsStpVlan(k: Key) {
    k.db == CONFIG_DB && STP_VLAN <= k.name
  }

  /** The platform's instance limit, 255 when it publishes none. */
  function InstanceLimit(db: Db): nat {
    NumField(RowOf(db, LIMIT), "max_stp_inst", U64_MAX).GetOr(255)
  }

  /** An STP_VLAN row counts as an instance unless it says otherwise. */
  predicate CountsAsOn(row: Row) {
    BoolField(row, "enabled").GetOr(true)
  }

  ghost function Instances(db: Db): set<Key> {
    set k | k in db && IsStpVlan(k) && CountsAsOn(db[k])
  }

  // ------------------------------------------------------------------- timers

  /** The relation of section 8.10.2 of IEEE 802.1D-1998. */
  predicate TimerRelation(forwardDelay: nat, helloTime: nat, maxAge: nat) {
    2 * (forwardDelay - 1) >= maxAge >= 2 * (helloTime + 1)
  }

  predicate InRange(v: nat, lo: nat, hi: nat) {
    lo <= v <= hi
  }

  predicate CheckTimers(forwardDelay: nat, helloTime: nat, maxAge: nat) {
    && InRange(forwardDelay, 4, 30) && InRange(helloTime, 1, 10) && InRange(maxAge, 6, 40)
    && TimerRelation(forwardDelay, helloTime, maxAge)
  }

  predicate CheckBridgePriority(v: nat) {
    v <= 61440 && v % 4096 == 0
  }

  datatype Timers = Timers(forwardDelay: nat, helloTime: nat, maxAge: nat, priority: nat, rootguard: nat)

  /** What is in effect: the stored values, defaults where a field is missing. */
  function StoredTimers(row: Row): Timers {
    Timers(NumField(row, "forward_delay", U32_MAX).GetOr(15), NumField(row, "hello_time", U32_MAX).GetOr(2),
           NumField(row, "max_age", U32_MAX).GetOr(20), NumField(row, "priority", U32_MAX).GetOr(32768),
           NumField(row, "rootguard_timeout", U32_MAX).GetOr(30))
  }

  predicate CheckAll(t: Timers) {
    CheckTimers(t.forwardDelay, t.helloTime, t.maxAge) && CheckBridgePriority(t.priority) && InRange(t.rootguard, 5, 600)
  }

  /** The timers one VLAN runs with. */
  datatype VlanTimers = VlanTimers(forwardDelay: nat, helloTime: nat, maxAge: nat)

  predicate Related(t: VlanTimers) {
    TimerRelation(t.forwardDelay, t.helloTime, t.maxAge)
  }

  /** An override of the VLAN's row where it holds one, else what it inherits. */
  function Over(row: Row, g: Timers): VlanTimers {
    VlanTimers(NumField(row, "forward_delay", U32_MAX).GetOr(g.forwardDelay),
               NumField(row, "hello_time", U32_MAX).GetOr(g.helloTime), NumField(row, "max_age", U32_MAX).GetOr(g.maxAge))
  }

  /** The timers in effect on a VLAN: its STP_VLAN row, then STP|GLOBAL, then defaults. */
  function InEffect(db: Db, vlan: string): VlanTimers {
    Over(RowOf(db, StpVlanKey(vlan)), StoredTimers(RowOf(db, GLOBAL)))
  }

  /** Every VLAN instance runs with timers in the relation. */
  ghost predicate AllRelated(db: Db) {
    forall vlan :: StpVlanKey(vlan) in db ==> Related(InEffect(db, vlan))
  }

  // ---------------------------------------------------------------- the invariant

  /** VLAN instances exist only under the global row, no more than the platform runs,
      and the global timers satisfy the relation. */
  ghost predicate Sound(db: Db) {
    && (forall k :: k in db && IsStpVlan(k) ==> GLOBAL in db)
    && |Instances(db)| <= InstanceLimit(db)
    && (GLOBAL in db ==> CheckAll(StoredTimers(db[GLOBAL])))
  }

  /** No row that the invariant reads. */
  predicate Outside(k: Key) {
    k != GLOBAL && k != LIMIT && !IsStpVlan(k)
  }

  lemma KeysApart(vlan: string)
    ensures IsStpVlan(StpVlanKey(vlan)) && StpVlanKey(vlan) != GLOBAL && StpVlanKey(vlan) != LIMIT
    ensures !IsStpVlan(GLOBAL) && !IsStpVlan(LIMIT) && GLOBAL != LIMIT && Outside(MST)
    ensures Outside(Key(CONFIG_DB, STP_PORT + vlan))
  {
    assert "STP_VLAN|"[3] == '_' && "STP|GLOBAL"[3] == '|' && "STP_MST|GLOBAL"[4] == 'M' && "STP_VLAN|"[4] == 'V';
    assert "STP_PORT|"[4] == 'P' && "STP_PORT|"[3] == '_';
    assert StpVlanKey(vlan).name[3] == '_';
    assert (STP_PORT + vlan)[4] == 'P' && (STP_PORT + vlan)[3] == '_';
  }

  /** An empty spanning-tree configuration is sound. */
  lemma EmptyIsSound(db: Db)
    requires GLOBAL !in db && forall k :: k in db ==> !IsStpVlan(k)
    ensures Sound(db)
  {
    assert Instances(db) == {};
  }

  /** Writes elsewhere, by whatever call, cannot break it. */
  lemma OtherWritesKeepSound(db: Db, op: Op)
    requires NoEmptyRows(db) && Sound(db) && Outside(op.key)
    ensures Sound(Exec(db, op))
  {
    hide IsStpVlan, CountsAsOn, StoredTimers;
    KeysApart("");
    assert Instances(Exec(db, op)) == Instances(db);
  }

  // ------------------------------------------------------------------ put_global

  datatype Mode = Pvst | Mst | Disabled

  datatype GlobalInput = GlobalInput(
    mode: Mode,
    rootguard: Option<nat>,
    forwardDelay: Option<nat>,
    helloTime: Option<nat>,
    maxAge: Option<nat>,
    priority: Option<nat>,
    regionName: Option<string>,
    revision: Option<nat>,
    maxHops: Option<nat>)

  /** Payload, then current row, then defaults. */
  function Effective(input: GlobalInput, row: Row): Timers {
    var t := StoredTimers(row);
    Timers(input.forwardDelay.GetOr(t.forwardDelay), input.helloTime.GetOr(t.helloTime), input.maxAge.GetOr(t.maxAge),
           input.priority.GetOr(t.priority), input.rootguard.GetOr(t.rootguard))
  }

  function GlobalFields(mode: Mode, t: Timers): Row {
    map["mode" := if mode.Mst? then "mst" else "pvst", "forward_delay" := Render(t.forwardDelay),
        "hello_time" := Render(t.helloTime), "max_age" := Render(t.maxAge), "priority" := Render(t.priority),
        "rootguard_timeout" := Render(t.rootguard)]
  }

  predicate AllFit(t: Timers) {
    t.forwardDelay <= U32_MAX && t.helloTime <= U32_MAX && t.maxAge <= U32_MAX && t.priority <= U32_MAX && t.rootguard <= U32_MAX
  }

  /** The values written are the values in effect afterwards. */
  lemma GlobalFieldsReadBack(row: Row, mode: Mode, t: Timers)
    requires AllFit(t)
    ensures StoredTimers(row + GlobalFields(mode, t)) == t && GlobalFields(mode, t) != map[]
  {
    hide Render, NumField;
    var after := row + GlobalFields(mode, t);
    assert "mode" in GlobalFields(mode, t);
    assert after["forward_delay"] == Render(t.forwardDelay) && after["hello_time"] == Render(t.helloTime);
    assert after["max_age"] == Render(t.maxAge) && after["priority"] == Render(t.priority);
    assert after["rootguard_timeout"] == Render(t.rootguard);
    NumFieldReadBack(after, "forward_delay", t.forwardDelay, U32_MAX);
    NumFieldReadBack(after, "hello_time", t.helloTime, U32_MAX);
    NumFieldReadBack(after, "max_age", t.maxAge, U32_MAX);
    NumFieldReadBack(after, "priority", t.priority, U32_MAX);
    NumFieldReadBack(after, "rootguard_timeout", t.rootguard, U32_MAX);
  }

  lemma CheckedFit(t: Timers)
    requires CheckAll(t)
    ensures AllFit(t)
  {
  }

  function MstFields(input: GlobalInput): Row {
    var named := if input.regionName.Some? then map["name" := input.regionName.value] else map[];
    var revised := named + if input.revision.Some? then map["revision" := Render(input.revision.value)] else map[];
    var all := revised + if input.maxHops.Some? then map["max_hops" := Render(input.maxHops.value)] else map[];
    if all == map[] then PLACEHOLDER else all
  }

  const ON: Row := map["enabled" := "true"]

  /** One row for each VLAN key scanned. */
  function VlanSeeds(names: seq<string>): seq<Op>
    decreases |names|
  {
    if names == [] then []
    else
      var rest := VlanSeeds(names[..|names| - 1]);
      match KeySuffix(names[|names| - 1], VLAN)
      case None => rest
      case Some(v) => rest + [HSet(StpVlanKey(v), ON)]
  }

  function PortSeeds(ports: seq<string>): seq<Op>
    decreases |ports|
  {
    if ports == [] then [] else PortSeeds(ports[..|ports| - 1]) + [HSet(Key(CONFIG_DB, STP_PORT + ports[|ports| - 1]), ON)]
  }

  function GlobalOps(input: GlobalInput, t: Timers): seq<Op> {
    [HSet(GLOBAL, GlobalFields(input.mode, t))] + if input.mode.Mst? then [HSet(MST, MstFields(input))] else []
  }

  function EnableOps(input: GlobalInput, t: Timers, enabling: bool, vlans: seq<string>, ports: seq<string>): seq<Op> {
    GlobalOps(input, t) + if enabling then VlanSeeds(vlans) + PortSeeds(ports) else []
  }

  /** The STP_VLAN rows the seeds write. */
  ghost function Seeded(names: seq<string>): set<Key>
    decreases |names|
  {
    if names == [] then {}
    else
      var rest := Seeded(names[..|names| - 1]);
      match KeySuffix(names[|names| - 1], VLAN)
      case None => rest
      case Some(v) => rest + {StpVlanKey(v)}
  }

  lemma {:induction false} SeededAtMost(names: seq<string>)
    ensures |Seeded(names)| <= |names|
    decreases |names|
  {
    if names != [] {
      SeededAtMost(names[..|names| - 1]);
    }
  }

  /** After the seeds: the seeded VLANs are on, every other STP_VLAN row is as it was. */
  lemma {:induction false} SeedsEffect(db: Db, names: seq<string>, k: Key)
    ensures var after := ExecAll(db, VlanSeeds(names));
      && (k in Seeded(names) ==> IsStpVlan(k) && RowOf(after, k) == RowOf(db, k) + ON && k in after)
      && (k !in Seeded(names) ==> RowOf(after, k) == RowOf(db, k) && (k in after <==> k in db))
    decreases |names|
  {
    hide KeySuffix, IsStpVlan, StpVlanKey;
    if names != [] {
      var front := names[..|names| - 1];
      SeedsEffect(db, front, k);
      match KeySuffix(names[|names| - 1], VLAN)
      case None =>
      case Some(v) =>
        var before := ExecAll(db, VlanSeeds(front));
        var op := HSet(StpVlanKey(v), ON);
        KeysApart(v);
        ExecAllAppend(db, VlanSeeds(front), [op]);
        ExecOne(before, op);
        ExecReads(before, op, k);
        assert RowOf(db, k) + ON + ON == RowOf(db, k) + ON && "enabled" in ON;
        assert k == op.key ==> "enabled" in RowOf(Exec(before, op), k);
    }
  }

  lemma {:induction false} PortSeedsOutside(ports: seq<string>)
    ensures forall i :: 0 <= i < |PortSeeds(ports)| ==> Outside(PortSeeds(ports)[i].key)
    decreases |ports|
  {
    hide Outside;
    if ports != [] {
      PortSeedsOutside(ports[..|ports| - 1]);
      KeysApart(ports[|ports| - 1]);
    }
  }

  /** The rows after enabling or reconfiguring, as far as the invariant reads them. */
  lemma EnableEffect(db: Db, input: GlobalInput, t: Timers, enabling: bool, vlans: seq<string>, ports: seq<string>)
    ensures var after := ExecAll(db, EnableOps(input, t, enabling, vlans, ports));
      && RowOf(after, GLOBAL) == RowOf(db, GLOBAL) + GlobalFields(input.mode, t) && GLOBAL in after
      && RowOf(after, LIMIT) == RowOf(db, LIMIT)
      && (forall k :: IsStpVlan(k) && enabling && k in Seeded(vlans) ==> RowOf(after, k) == RowOf(db, k) + ON && k in after)
      && (forall k :: IsStpVlan(k) && !(enabling && k in Seeded(vlans)) ==> RowOf(after, k) == RowOf(db, k) && (k in after <==> k in db))
  {
    hide VlanSeeds, PortSeeds, Seeded, GlobalFields, MstFields, IsStpVlan;
    var a := ExecAll(db, GlobalOps(input, t));
    GlobalOpsEffect(db, input, t);
    if enabling {
      var b := ExecAll(a, VlanSeeds(vlans));
      ExecAllAppend(a, VlanSeeds(vlans), PortSeeds(ports));
      PortSeedsOutside(ports);
      KeysApart("");
      assert forall i :: 0 <= i < |PortSeeds(ports)| ==> Outside(PortSeeds(ports)[i].key);
      SeedsEffect(a, vlans, GLOBAL);
      SeedsEffect(a, vlans, LIMIT);
      Untouched(b, PortSeeds(ports), GLOBAL);
      Untouched(b, PortSeeds(ports), LIMIT);
      var after := ExecAll(b, PortSeeds(ports));
      forall k | IsStpVlan(k) && k in Seeded(vlans) ensures RowOf(after, k) == RowOf(db, k) + ON && k in after {
        SeedsEffect(a, vlans, k);
        Untouched(b, PortSeeds(ports), k);
      }
      forall k | IsStpVlan(k) && k !in Seeded(vlans) ensures RowOf(after, k) == RowOf(db, k) && (k in after <==> k in db) {
        SeedsEffect(a, vlans, k);
        Untouched(b, PortSeeds(ports), k);
      }
      ExecAllAppend(db, GlobalOps(input, t), VlanSeeds(vlans) + PortSeeds(ports));
    } else {
      assert GlobalOps(input, t) + [] == GlobalOps(input, t);
    }
  }

  lemma GlobalOpsEffect(db: Db, input: GlobalInput, t: Timers)
    ensures var after := ExecAll(db, GlobalOps(input, t));
      && RowOf(after, GLOBAL) == RowOf(db, GLOBAL) + GlobalFields(input.mode, t) && GLOBAL in after
      && (forall k :: k != GLOBAL && k != MST ==> RowOf(after, k) == RowOf(db, k) && (k in after <==> k in db))
      && RowOf(after, LIMIT) == RowOf(db, LIMIT)
      && (forall k :: IsStpVlan(k) ==> RowOf(after, k) == RowOf(db, k) && (k in after <==> k in db))
  {
    hide MstFields, IsStpVlan;
    KeysApart("");
    var first := HSet(GLOBAL, GlobalFields(input.mode, t));
    assert "mode" in GlobalFields(input.mode, t);
    assert "mode" in RowOf(db, GLOBAL) + GlobalFields(input.mode, t);
    ExecOne(db, first);
    if input.mode.Mst? {
      var second := HSet(MST, MstFields(input));
      ExecTwo(db, first, second);
      assert [first] + [second] == [first, second];
      ExecKeepsOthers(Exec(db, first), second, GLOBAL);
    } else {
      assert [first] + [] == [first];
    }
    assert MST != GLOBAL && MST != LIMIT && !IsStpVlan(MST) && !IsStpVlan(GLOBAL);
  }

  /** Enabling within the limit, or reconfiguring what is enabled, keeps the
      configuration sound. */
  lemma EnableKeepsSound(db: Db, input: GlobalInput, t: Timers, enabling: bool, vlans: seq<string>, ports: seq<string>)
    requires NoEmptyRows(db) && Sound(db) && CheckAll(t)
    requires enabling <==> GLOBAL !in db
    requires enabling ==> |vlans| <= InstanceLimit(db)
    ensures Sound(ExecAll(db, EnableOps(input, t, enabling, vlans, ports)))
  {
    hide IsStpVlan, Seeded, EnableOps, CheckAll, StoredTimers, GlobalFields, CountsAsOn, NumField;
    var after := ExecAll(db, EnableOps(input, t, enabling, vlans, ports));
    EnableEffect(db, input, t, enabling, vlans, ports);
    CheckedFit(t);
    GlobalFieldsReadBack(RowOf(db, GLOBAL), input.mode, t);
    if enabling {
      SeededAtMost(vlans);
      assert Instances(after) <= Seeded(vlans);
      SubsetCount(Instances(after), Seeded(vlans));
    } else {
      assert Instances(after) == Instances(db);
    }
  }

  lemma SubsetCount<T>(a: set<T>, b: set<T>)
    requires a <= b
    ensures |a| <= |b|
  {
    assert b == a + (b - a);
  }

  ghost predicate IsMember(db: Db, port: string) {
    exists k :: k in db && MemberOf(k).Some? && MemberOf(k).value.1 == port
  }

  /** A VLAN member, or a port that already has a spanning-tree row. */
  ghost predicate IsL2(db: Db, port: string) {
    IsMember(db, port) || (port != "" && Key(CONFIG_DB, STP_PORT + port) in db)
  }

  /** Everything VLAN members and spanning-tree ports name: the ports seeded when
      enabling.  A failed scan reads as nothing. */
  method L2Interfaces(plat: Platform) returns (ports: seq<string>)
    requires plat.Valid()
    modifies plat`calls
    ensures old(plat.calls) < plat.calls
    ensures AllWork(plat.fault, old(plat.calls), plat.calls) ==> forall p :: p in ports <==> IsL2(plat.rows, p)
  {
    hide TwoParts;
    ports := [];
    var _, members := plat.Scan(CONFIG_DB, MEMBER);
    for i := 0 to |members|
      invariant plat.calls == old(plat.calls) + 1
      invariant forall p :: p in ports <==> exists n :: n in members[..i] && MemberOf(Key(CONFIG_DB, n)).Some? && MemberOf(Key(CONFIG_DB, n)).value.1 == p
    {
      assert members[..i + 1] == members[..i] + [members[i]];
      assert forall n :: n in members[..i + 1] <==> n in members[..i] || n == members[i];
      assert MemberOf(Key(CONFIG_DB, members[i])) == TwoParts(members[i], MEMBER);
      match TwoParts(members[i], MEMBER) {
        case None =>
        case Some((_, member)) => ports := ports + [member];
      }
    }
    assert members[..|members|] == members;
    ghost var inVlans := ports;
    var _, rows := plat.Scan(CONFIG_DB, STP_PORT);
    for i := 0 to |rows|
      invariant plat.calls == old(plat.calls) + 2
      invariant forall p :: p in ports <==> p in inVlans || (p != "" && STP_PORT + p in rows[..i])
    {
      assert rows[..i + 1] == rows[..i] + [rows[i]];
      Suffix(rows[i], STP_PORT);
      match KeySuffix(rows[i], STP_PORT) {
        case None =>
        case Some(p) => ports := ports + [p];
      }
    }
    assert rows[..|rows|] == rows;
    if AllWork(plat.fault, old(plat.calls), plat.calls) {
      assert plat.fault(old(plat.calls)) == Works && plat.fault(old(plat.calls) + 1) == Works;
      forall p ensures p in inVlans <==> IsMember(plat.rows, p) {
        if k :| k in plat.rows && MemberOf(k).Some? && MemberOf(k).value.1 == p {
          MemberOfInverse(k);
          assert k == Key(CONFIG_DB, k.name) && MEMBER <= k.name && k.name in members;
        }
      }
      forall p ensures STP_PORT + p in rows <==> Key(CONFIG_DB, STP_PORT + p) in plat.rows {
        assert STP_PORT <= STP_PORT + p;
      }
    }
  }

  lemma Suffix(name: string, prefix: string)
    ensures forall p :: p != "" ==> (KeySuffix(name, prefix) == Some(p) <==> name == prefix + p)
    ensures KeySuffix(name, prefix).Some? ==> KeySuffix(name, prefix).value != ""
  {
    if prefix <= name {
      assert name == prefix + name[|prefix|..];
    }
    forall p | name == prefix + p ensures prefix <= name && p == name[|prefix|..] {
      assert (prefix + p)[|prefix|..] == p;
    }
  }

  // What an enabled mode leaves, read back from the store.

  /** A row that is on, its other fields kept. */
  ghost predicate IsOn(before: Row, after: Row) {
    SaysBool(after, "enabled", true) && KeepsOthers(before, after, {"enabled"})
  }

  /** A payload value, else the stored one, else the default. */
  ghost predicate Takes(before: Row, after: Row, name: string, v: Option<nat>, default: nat) {
    SaysNumber(after, name, Some(v.GetOr(NumField(before, name, U32_MAX).GetOr(default))))
  }

  ghost predicate GlobalSays(before: Row, after: Row, input: GlobalInput) {
    && Raw(after, "mode") == Some(if input.mode.Mst? then "mst" else "pvst")
    && Takes(before, after, "forward_delay", input.forwardDelay, 15) && Takes(before, after, "hello_time", input.helloTime, 2)
    && Takes(before, after, "max_age", input.maxAge, 20) && Takes(before, after, "priority", input.priority, 32768)
    && Takes(before, after, "rootguard_timeout", input.rootguard, 30)
    && KeepsOthers(before, after, {"mode", "forward_delay", "hello_time", "max_age", "priority", "rootguard_timeout"})
  }

  /** The region: what was given, a placeholder when nothing was; all else kept. */
  ghost predicate MstSays(before: Row, after: Row, input: GlobalInput) {
    var none := input.regionName == None && input.revision == None && input.maxHops == None;
    && (input.regionName.Some? ==> Raw(after, "name") == input.regionName)
    && (input.revision.Some? ==> SaysNumber(after, "revision", input.revision))
    && (input.maxHops.Some? ==> SaysNumber(after, "max_hops", input.maxHops))
    && (none ==> Raw(after, "NULL") == Some("NULL"))
    && (forall f ::
          && (f == "name" ==> input.regionName == None) && (f == "revision" ==> input.revision == None)
          && (f == "max_hops" ==> input.maxHops == None) && (f == "NULL" ==> !none)
          ==> Raw(after, f) == Raw(before, f))
  }

  function StpPortKey(port: string): Key {
    Key(CONFIG_DB, STP_PORT + port)
  }

  /** The global row, the region of an MST mode and, on first enabling, a row that is on for
      each VLAN and for each of these ports; every other row is what it was. */
  ghost predicate EnableSays(db: Db, after: Db, input: GlobalInput, ports: iset<string>) {
    && GlobalSays(RowOf(db, GLOBAL), RowOf(after, GLOBAL), input)
    && (if input.mode.Mst? then MstSays(RowOf(db, MST), RowOf(after, MST), input) else RowOf(after, MST) == RowOf(db, MST))
    && (forall v :: v != "" && VlanKey(v) in db && GLOBAL !in db ==> IsOn(RowOf(db, StpVlanKey(v)), RowOf(after, StpVlanKey(v))))
    && (forall p :: p in ports && GLOBAL !in db ==> IsOn(RowOf(db, StpPortKey(p)), RowOf(after, StpPortKey(p))))
    && (forall k ::
          && k != GLOBAL && k != MST
          && (GLOBAL in db
              || ((forall v :: v != "" && VlanKey(v) in db ==> k != StpVlanKey(v)) && forall p :: p in ports ==> k != StpPortKey(p)))
          ==> RowOf(after, k) == RowOf(db, k))
  }

  lemma OnSays(row: Row)
    ensures IsOn(row, row + ON)
  {
    FlagSays(row + ON, "enabled", true);
  }

  lemma GlobalFieldsSay(row: Row, input: GlobalInput)
    ensures GlobalSays(row, row + GlobalFields(input.mode, Effective(input, row)), input)
  {
    var t := Effective(input, row);
    var after := row + GlobalFields(input.mode, t);
    GlobalRaws(row, input.mode, t);
    hide Raw, GlobalFields, NumField;
    RenderedSays(after, "forward_delay", Some(t.forwardDelay));
    RenderedSays(after, "hello_time", Some(t.helloTime));
    RenderedSays(after, "max_age", Some(t.maxAge));
    RenderedSays(after, "priority", Some(t.priority));
    RenderedSays(after, "rootguard_timeout", Some(t.rootguard));
  }

  lemma GlobalRaws(row: Row, mode: Mode, t: Timers)
    ensures var after := row + GlobalFields(mode, t);
      && Raw(after, "mode") == Some(if mode.Mst? then "mst" else "pvst") && Raw(after, "forward_delay") == Some(Render(t.forwardDelay))
      && Raw(after, "hello_time") == Some(Render(t.helloTime)) && Raw(after, "max_age") == Some(Render(t.maxAge))
      && Raw(after, "priority") == Some(Render(t.priority)) && Raw(after, "rootguard_timeout") == Some(Render(t.rootguard))
      && KeepsOthers(row, after, {"mode", "forward_delay", "hello_time", "max_age", "priority", "rootguard_timeout"})
  {
    hide Render;
    assert "mode"[1] == 'o' && "max_age"[1] == 'a' && "forward_delay"[0] == 'f' && "hello_time"[0] == 'h' && "priority"[0] == 'p'
      && "rootguard_timeout"[0] == 'r' && "mode"[0] == 'm';
  }

  lemma MstFieldsRead(row: Row, input: GlobalInput)
    ensures var after := row + MstFields(input);
      && Raw(after, "name") == (if input.regionName.Some? then input.regionName else Raw(row, "name"))
      && Raw(after, "revision") == (if input.revision.Some? then Some(Render(input.revision.value)) else Raw(row, "revision"))
      && Raw(after, "max_hops") == (if input.maxHops.Some? then Some(Render(input.maxHops.value)) else Raw(row, "max_hops"))
      && Raw(after, "NULL") == (if input.regionName == None && input.revision == None && input.maxHops == None then Some("NULL") else Raw(row, "NULL"))
      && KeepsOthers(row, after, {"name", "revision", "max_hops", "NULL"})
  {
    assert "name"[0] == 'n' && "revision"[0] == 'r' && "max_hops"[0] == 'm' && "NULL"[0] == 'N';
    hide Render;
    var fields := MstFields(input);
    assert input.regionName.Some? ==> "name" in fields;
    assert input.revision.Some? ==> "revision" in fields;
    assert input.maxHops.Some? ==> "max_hops" in fields;
  }

  lemma MstFieldsSay(row: Row, input: GlobalInput)
    ensures MstSays(row, row + MstFields(input), input)
  {
    MstFieldsRead(row, input);
    hide Render, SaysNumber, MstFields, Raw;
    var after := row + MstFields(input);
    if input.revision.Some? {
      RenderedSays(after, "revision", input.revision);
    }
    if input.maxHops.Some? {
      RenderedSays(after, "max_hops", input.maxHops);
    }
  }

  lemma {:induction false} SeededExactly(names: seq<string>, k: Key)
    ensures k in Seeded(names) <==> exists v :: v != "" && VLAN + v in names && k == StpVlanKey(v)
    decreases |names|
  {
    hide StpVlanKey;
    if names != [] {
      var front, last := names[..|names| - 1], names[|names| - 1];
      assert forall n :: n in names <==> n in front || n == last;
      SeededExactly(front, k);
      Suffix(last, VLAN);
    }
  }

  lemma {:induction false} PortSeedsEffect(db: Db, ports: seq<string>, k: Key)
    ensures RowOf(ExecAll(db, PortSeeds(ports)), k) == if exists p :: p in ports && k == StpPortKey(p) then RowOf(db, k) + ON else RowOf(db, k)
    decreases |ports|
  {
    hide StpPortKey, PortSeeds, ON;
    PortSeedsEnd(ports);
    if ports != [] {
      var front, last := ports[..|ports| - 1], ports[|ports| - 1];
      assert forall p :: p in ports <==> p in front || p == last;
      PortSeedsEffect(db, front, k);
      var before, op := ExecAll(db, PortSeeds(front)), HSet(StpPortKey(last), ON);
      ExecAllAppend(db, PortSeeds(front), [op]);
      ExecOne(before, op);
      ExecReads(before, op, k);
      hide RowOf, Exec, ExecAll;
      assert RowOf(db, k) + ON + ON == RowOf(db, k) + ON;
      assert (exists p :: p in ports && k == StpPortKey(p)) <==> k == op.key || exists p :: p in front && k == StpPortKey(p);
    }
  }

  lemma PortSeedsEnd(ports: seq<string>)
    ensures ports == [] ==> PortSeeds(ports) == []
    ensures ports != [] ==> PortSeeds(ports) == PortSeeds(ports[..|ports| - 1]) + [HSet(StpPortKey(ports[|ports| - 1]), ON)]
  {
  }

  lemma StpKeysApart(v: string, p: string)
    ensures StpVlanKey(v) != StpPortKey(p) && StpVlanKey(v) != GLOBAL && StpVlanKey(v) != MST && StpPortKey(p) != GLOBAL && StpPortKey(p) != MST
  {
    KeysApart(v);
    assert "STP_PORT|"[4] == 'P' && "STP_VLAN|"[4] == 'V' && "STP|GLOBAL"[3] == '|' && "STP_MST|GLOBAL"[4] == 'M';
    assert StpPortKey(p).name[4] == 'P' && StpPortKey(p).name[3] == '_' && StpVlanKey(v).name[4] == 'V';
  }

  /** The writes of an enabled mode, row by row. */
  lemma EnableOpsRow(db: Db, input: GlobalInput, t: Timers, enabling: bool, vlans: seq<string>, ports: seq<string>, k: Key)
    ensures var after := ExecAll(db, EnableOps(input, t, enabling, vlans, ports));
      RowOf(after, k)
      == if k == GLOBAL then RowOf(db, k) + GlobalFields(input.mode, t)
         else if k == MST then if input.mode.Mst? then RowOf(db, k) + MstFields(input) else RowOf(db, k)
         else if enabling && (k in Seeded(vlans) || exists p :: p in ports && k == StpPortKey(p)) then RowOf(db, k) + ON
         else RowOf(db, k)
  {
    hide VlanSeeds, PortSeeds, Seeded, GlobalFields, MstFields, IsStpVlan, StpPortKey, ON, StpVlanKey;
    var ops := GlobalOps(input, t);
    var a := ExecAll(db, ops);
    GlobalOpsRow(db, input, t, k);
    if enabling {
      var b := ExecAll(a, VlanSeeds(vlans));
      ExecAllAppend(db, ops, VlanSeeds(vlans) + PortSeeds(ports));
      ExecAllAppend(a, VlanSeeds(vlans), PortSeeds(ports));
      SeedsEffect(a, vlans, k);
      PortSeedsEffect(b, ports, k);
      SeededExactly(vlans, k);
      if k in Seeded(vlans) {
        var v :| v != "" && VLAN + v in vlans && k == StpVlanKey(v);
        StpKeysApart(v, "");
        forall p ensures StpPortKey(p) != k {
          StpKeysApart(v, p);
        }
      }
      forall p ensures StpPortKey(p) != GLOBAL && StpPortKey(p) != MST {
        StpKeysApart("", p);
      }
    } else {
      assert ops + [] == ops;
    }
  }

  lemma GlobalOpsRow(db: Db, input: GlobalInput, t: Timers, k: Key)
    ensures RowOf(ExecAll(db, GlobalOps(input, t)), k)
         == if k == GLOBAL then RowOf(db, k) + GlobalFields(input.mode, t)
            else if k == MST && input.mode.Mst? then RowOf(db, k) + MstFields(input) else RowOf(db, k)
  {
    hide MstFields, GlobalFields;
    var first := HSet(GLOBAL, GlobalFields(input.mode, t));
    ExecOne(db, first);
    ExecReads(db, first, k);
    assert GLOBAL != MST;
    if input.mode.Mst? {
      var second := HSet(MST, MstFields(input));
      ExecTwo(db, first, second);
      ExecReads(Exec(db, first), second, k);
      assert [first] + [second] == [first, second];
    } else {
      assert [first] + [] == [first];
    }
  }

  lemma EnableOpsSay(db: Db, input: GlobalInput, vlans: seq<string>, ports: seq<string>)
    requires forall n :: n in vlans <==> Key(CONFIG_DB, n) in db && VLAN <= n
    ensures EnableSays(db, ExecAll(db, EnableOps(input, Effective(input, RowOf(db, GLOBAL)), GLOBAL !in db, vlans, ports)), input, iset p | p in ports)
  {
    hide EnableOps, Effective, GlobalFields, MstFields, GlobalSays, MstSays, IsOn, Seeded, StpVlanKey, StpPortKey, ON;
    var t := Effective(input, RowOf(db, GLOBAL));
    var after := ExecAll(db, EnableOps(input, t, GLOBAL !in db, vlans, ports));
    EnableOpsRow(db, input, t, GLOBAL !in db, vlans, ports, GLOBAL);
    EnableOpsRow(db, input, t, GLOBAL !in db, vlans, ports, MST);
    GlobalFieldsSay(RowOf(db, GLOBAL), input);
    MstFieldsSay(RowOf(db, MST), input);
    forall v | v != "" && VlanKey(v) in db && GLOBAL !in db ensures IsOn(RowOf(db, StpVlanKey(v)), RowOf(after, StpVlanKey(v))) {
      EnableOpsRow(db, input, t, true, vlans, ports, StpVlanKey(v));
      SeededExactly(vlans, StpVlanKey(v));
      assert VLAN <= VLAN + v;
      StpKeysApart(v, "");
      OnSays(RowOf(db, StpVlanKey(v)));
    }
    forall p | p in ports && GLOBAL !in db ensures IsOn(RowOf(db, StpPortKey(p)), RowOf(after, StpPortKey(p))) {
      EnableOpsRow(db, input, t, true, vlans, ports, StpPortKey(p));
      StpKeysApart("", p);
      OnSays(RowOf(db, StpPortKey(p)));
    }
    forall k | k != GLOBAL && k != MST && (GLOBAL in db
        || ((forall v :: v != "" && VlanKey(v) in db ==> k != StpVlanKey(v)) && forall p :: p in ports ==> k != StpPortKey(p)))
      ensures RowOf(after, k) == RowOf(db, k) {
      EnableOpsRow(db, input, t, GLOBAL !in db, vlans, ports, k);
      SeededExactly(vlans, k);
    }
  }

  lemma EnableSaysGlobal(db: Db, after: Db, input: GlobalInput, ports: iset<string>)
    requires EnableSays(db, after, input, ports)
    ensures GlobalSays(RowOf(db, GLOBAL), RowOf(after, GLOBAL), input)
  {
  }

  /** Enabling or reconfiguring, as one transition. */
  ghost predicate EnableStep(a: Db, b: Db) {
    exists input: GlobalInput, t: Timers, enabling: bool, vlans: seq<string>, ports: seq<string> ::
      && CheckAll(t) && (enabling <==> GLOBAL !in a) && (enabling ==> |vlans| <= InstanceLimit(a))
      && b == ExecAll(a, EnableOps(input, t, enabling, vlans, ports))
  }

  lemma EnableStepOf(a: Db, b: Db, input: GlobalInput, t: Timers, enabling: bool, vlans: seq<string>, ports: seq<string>)
    requires CheckAll(t) && (enabling <==> GLOBAL !in a) && (enabling ==> |vlans| <= InstanceLimit(a))
    requires b == ExecAll(a, EnableOps(input, t, enabling, vlans, ports))
    ensures EnableStep(a, b)
  {
    hide CheckAll, InstanceLimit, EnableOps;
  }

  /** What enabling answers when no call fails and the scan shows this many VLANs. */
  function EnableVerdict(db: Db, mstSupported: bool, input: GlobalInput, vlans: nat): WriteResult {
    if input.mode.Mst? && !mstSupported then Unprocessable
    else if !CheckAll(Effective(input, RowOf(db, GLOBAL))) then BadRequest
    else if input.maxHops.Some? && !InRange(input.maxHops.value, 1, 40) then BadRequest
    else if GLOBAL !in db && vlans > InstanceLimit(db) then Unprocessable
    else Done
  }

  /** `put_global` for an enabled mode: one batch. */
  method Enable(plat: Platform, mstSupported: bool, input: GlobalInput)
    returns (r: WriteResult, ghost vlans: seq<string>, ghost ports: seq<string>)
    requires plat.Valid() && !input.mode.Disabled?
    modifies plat
    ensures plat.Valid()
    ensures r.Done? ==> CheckAll(Effective(input, RowOf(old(plat.rows), GLOBAL)))
    ensures r.Done? ==> plat.rows == ExecAll(old(plat.rows),
              EnableOps(input, Effective(input, RowOf(old(plat.rows), GLOBAL)), GLOBAL !in old(plat.rows), vlans, ports))
    ensures vlans == [] || forall n :: n in vlans <==> Key(CONFIG_DB, n) in old(plat.rows) && VLAN <= n
    ensures r.Done? && AllWork(plat.fault, old(plat.calls), plat.calls) ==>
              && (forall n :: n in vlans <==> Key(CONFIG_DB, n) in old(plat.rows) && VLAN <= n)
              && (forall p :: p in ports <==> IsL2(old(plat.rows), p))
              && EnableStep(old(plat.rows), plat.rows)
    // read back, the rows are what was asked for, and on first enabling every VLAN and every
    // layer-2 port has a row that is on
    ensures r.Done? ==> EnableSays(old(plat.rows), plat.rows, input, iset p | p in ports)
    ensures r.Done? && AllWork(plat.fault, old(plat.calls), plat.calls) ==>
              EnableSays(old(plat.rows), plat.rows, input, iset p | IsL2(old(plat.rows), p))
    ensures !r.Done? && OneFailureAtMost(plat.fault, old(plat.calls), plat.calls) ==> plat.rows == old(plat.rows)
    ensures r in {Done, BadRequest, Unprocessable, Redis} && (r in {BadRequest, Unprocessable} ==> plat.rows == old(plat.rows))
    ensures AllWork(plat.fault, old(plat.calls), plat.calls) ==>
              r == EnableVerdict(old(plat.rows), mstSupported, input, |vlans|)
  {
    hide EnableStep, CheckAll, Effective, EnableOps, IsL2, InstanceLimit, EnableSays;
    vlans, ports := [], [];
    if input.mode.Mst? && !mstSupported {
      r := Unprocessable;
      return;
    }
    ghost var db := plat.rows;
    var ok, current := plat.HGetAll(GLOBAL);
    if !ok {
      r := Redis;
      return;
    }
    var enabling := current == map[];
    assert enabling <==> GLOBAL !in db;
    var t := Effective(input, current);
    if !CheckAll(t) || (input.maxHops.Some? && !InRange(input.maxHops.value, 1, 40)) {
      r := BadRequest;
      return;
    }
    var names;
    ok, names := plat.Scan(CONFIG_DB, VLAN);
    if !ok {
      r := Redis;
      return;
    }
    vlans := names;
    if enabling {
      var limit := MaxInstances(plat);
      if |names| > limit {
        r := Unprocessable;
        return;
      }
    }
    var l2 := L2Interfaces(plat);
    ports := l2;
    EnableOpsSay(db, input, names, l2);
    ghost var forward;
    ok, forward := Apply(plat, EnableOps(input, t, enabling, names, l2));
    if ok && AllWork(plat.fault, old(plat.calls), plat.calls) {
      assert (iset p | IsL2(db, p)) == iset p | p in ports;
      EnableStepOf(db, plat.rows, input, t, enabling, names, l2);
    }
    r := if ok then Done else Redis;
  }

  lemma NoLimit()
    ensures NumField(map[], "max_stp_inst", U64_MAX) == None
  {
  }

  /** A failed read of the limit reads as the default. */
  method MaxInstances(plat: Platform) returns (limit: nat)
    requires plat.Valid()
    modifies plat`calls
    ensures plat.calls == old(plat.calls) + 1
    ensures plat.fault(old(plat.calls)) == Works ==> limit == InstanceLimit(plat.rows)
  {
    hide NumField;
    var _, row := plat.HGetAll(LIMIT);
    limit := NumField(row, "max_stp_inst", U64_MAX).GetOr(255);
  }

  // --------------------------------------------------------------------- disable

  const TABLES: seq<string> := ["STP_VLAN|", "STP_PORT|", "STP_VLAN_PORT|", "STP_MST|", "STP_MST_INST|", "STP_MST_PORT|"]

  /** The calls that look for rows to delete. */
  const SCANS: nat := 1 + |TABLES|

  /** The rows that go when spanning tree is disabled. */
  ghost predicate IsStp(k: Key) {
    k == GLOBAL || InTables(k, |TABLES|)
  }

  ghost predicate InTables(k: Key, n: nat)
    requires n <= |TABLES|
  {
    k.db == CONFIG_DB && exists i :: 0 <= i < n && TABLES[i] <= k.name
  }

  /** The keys `disable` collects: the global row first, then every dependent row. */
  method ScanStp(plat: Platform) returns (ok: bool, keys: seq<Key>)
    requires plat.Valid()
    modifies plat`calls
    ensures old(plat.calls) < plat.calls
    ensures ok <==> AllWork(plat.fault, old(plat.calls), plat.calls)
    ensures plat.calls <= old(plat.calls) + SCANS && (ok ==> plat.calls == old(plat.calls) + SCANS)
    ensures ok ==> forall k :: k in keys <==> k in plat.rows && IsStp(k)
    ensures ok && GLOBAL in plat.rows ==> |keys| > 0 && keys[0] == GLOBAL
  {
    keys := [];
    // the pattern "STP|GLOBAL" matches that one key
    var there;
    ok, there := plat.Exists(GLOBAL);
    if !ok { return; }
    keys := if there then [GLOBAL] else [];
    for i := 0 to |TABLES|
      invariant plat.calls == old(plat.calls) + 1 + i && AllWork(plat.fault, old(plat.calls), plat.calls)
      invariant GLOBAL in plat.rows ==> |keys| > 0 && keys[0] == GLOBAL
      invariant forall k :: k in keys <==> k in plat.rows && (k == GLOBAL || InTables(k, i))
    {
      var names;
      ok, names := plat.Scan(CONFIG_DB, TABLES[i]);
      if !ok { return; }
      keys := keys + KeysNamed(CONFIG_DB, names);
      forall k ensures k in KeysNamed(CONFIG_DB, names) <==> k in plat.rows && k.db == CONFIG_DB && TABLES[i] <= k.name {
        KeyNamed(names, k);
        assert k.db == CONFIG_DB ==> k == Key(CONFIG_DB, k.name);
      }
      forall k ensures InTables(k, i + 1) <==> InTables(k, i) || (k.db == CONFIG_DB && TABLES[i] <= k.name) {
      }
    }
    forall k ensures IsStp(k) <==> k == GLOBAL || InTables(k, |TABLES|) {
    }
    ok := true;
  }

  /** Disabling, as one transition: every dependent row goes, no other changes. */
  ghost predicate DisableStep(a: Db, b: Db) {
    forall k :: RowOf(b, k) == if IsStp(k) then map[] else RowOf(a, k)
  }

  /** `disable`: one DEL each. */
  method Disable(plat: Platform) returns (r: WriteResult, ghost keys: seq<Key>, ghost gone: nat)
    requires plat.Valid()
    modifies plat
    ensures plat.Valid()
    ensures gone <= |keys| && plat.rows == old(plat.rows) - KeySet(keys[..gone])
    ensures r.Done? ==> gone == |keys|
    ensures r == if AllWork(plat.fault, old(plat.calls), plat.calls) then Done else Redis
    ensures r.Done? ==> DisableStep(old(plat.rows), plat.rows)
    ensures GLOBAL in old(plat.rows) && gone > 0 ==> keys[0] == GLOBAL
    ensures LIMIT !in keys && forall k :: k in keys ==> k in old(plat.rows) && IsStp(k)
    // how far it got, by the first call to fail
    ensures AllWork(plat.fault, old(plat.calls), old(plat.calls) + SCANS) ==>
              && (forall k :: k in keys <==> k in old(plat.rows) && IsStp(k))
              && StopsAt(plat.fault, old(plat.calls) + SCANS, plat.calls, gone, r.Done?)
    // interrupted or not, what is left is sound exactly before the first deletion and once
    // every VLAN row has gone
    ensures Sound(old(plat.rows)) && GLOBAL in old(plat.rows) ==>
              (Sound(plat.rows) <==> gone == 0 || forall k :: k in old(plat.rows) && IsStpVlan(k) ==> k in keys[..gone])
  {
    LimitIsNoStp();
    hide IsStp, Sound, IsStpVlan;
    ghost var db := plat.rows;
    keys, gone := [], 0;
    assert KeySet([]) == {} && db - {} == db;
    var ok, all := ScanStp(plat);
    if !ok {
      r := Redis;
      return;
    }
    keys := all;
    ok, gone := DeleteEach(plat, all);
    r := if ok then Done else Redis;
    if ok {
      assert keys[..gone] == keys;
    }
    if Sound(db) && GLOBAL in db {
      InterruptedDisable(db, keys, gone);
    }
  }

  lemma LimitIsNoStp()
    ensures !IsStp(LIMIT)
  {
  }

  lemma KeyNamed(names: seq<string>, k: Key)
    ensures k in KeysNamed(CONFIG_DB, names) <==> k.db == CONFIG_DB && k.name in names
  {
    if k.db == CONFIG_DB && k.name in names {
      var i :| 0 <= i < |names| && names[i] == k.name;
      assert KeysNamed(CONFIG_DB, names)[i] == k;
    }
  }

  lemma NothingLeftIsSound(before: Db, after: Db)
    requires NoEmptyRows(before) && NoEmptyRows(after) && DisableStep(before, after)
    ensures Sound(after)
  {
    assert forall k :: k in after ==> RowOf(after, k) != map[];
    assert TABLES[0] == STP_VLAN;
    assert forall k :: IsStpVlan(k) ==> IsStp(k);
    assert IsStp(GLOBAL);
    EmptyIsSound(after);
  }

  /** A disable interrupted after `n` deletions, the global row being first: the rule
      that VLAN rows stand under the global row is broken exactly from the first
      deletion until the last VLAN row has gone. */
  lemma InterruptedDisable(db: Db, keys: seq<Key>, n: nat)
    requires NoEmptyRows(db) && Sound(db) && GLOBAL in db && n <= |keys|
    requires |keys| > 0 && keys[0] == GLOBAL && LIMIT !in keys
    ensures Sound(db - KeySet(keys[..n])) <==> n == 0 || forall k :: k in db && IsStpVlan(k) ==> k in keys[..n]
  {
    hide IsStpVlan, CountsAsOn, StoredTimers, InstanceLimit;
    var after := db - KeySet(keys[..n]);
    if n == 0 {
      assert KeySet(keys[..0]) == {} && after == db;
    } else {
      assert keys[..n][0] == GLOBAL;
      assert GLOBAL in KeySet(keys[..n]);
      assert Instances(after) <= Instances(db);
      SubsetCount(Instances(after), Instances(db));
      LimitUnread(db, after, keys[..n]);
      assert forall k :: k in after <==> k in db && k !in keys[..n];
    }
  }

  lemma LimitUnread(db: Db, after: Db, keys: seq<Key>)
    requires after == db - KeySet(keys) && LIMIT !in keys
    ensures InstanceLimit(after) == InstanceLimit(db)
  {
    hide NumField;
    assert RowOf(after, LIMIT) == RowOf(db, LIMIT);
  }

  // ------------------------------------------------------------------- put_vlan

  datatype VlanInput = VlanInput(
    enabled: bool,
    priority: Option<Option<nat>>,
    forwardDelay: Option<Option<nat>>,
    helloTime: Option<Option<nat>>,
    maxAge: Option<Option<nat>>)

  predicate Given(v: Option<Option<nat>>) {
    v.Some? && v.value.Some?
  }

  predicate VlanInputOk(input: VlanInput) {
    && (Given(input.priority) ==> CheckBridgePriority(input.priority.value.value))
    && (Given(input.forwardDelay) ==> InRange(input.forwardDelay.value.value, 4, 30))
    && (Given(input.helloTime) ==> InRange(input.helloTime.value.value, 1, 10))
    && (Given(input.maxAge) ==> InRange(input.maxAge.value.value, 6, 40))
  }

  function Enabled(on: bool): Row {
    map["enabled" := if on then "true" else "false"]
  }

  function OverrideOps(key: Key, input: VlanInput): (ops: seq<Op>)
    ensures forall i :: 0 <= i < |ops| ==> ops[i].key == key && !ops[i].Del? && Reaches(ops[i])
  {
    PatchField(key, "priority", Rendered(input.priority))
    + PatchField(key, "forward_delay", Rendered(input.forwardDelay))
    + PatchField(key, "hello_time", Rendered(input.helloTime))
    + PatchField(key, "max_age", Rendered(input.maxAge))
  }

  /** The VLAN's row once configured. */
  function ConfiguredRow(row: Row, input: VlanInput): Row {
    var on := row + Enabled(input.enabled);
    var prioritised := PatchedField(on, "priority", Rendered(input.priority));
    var delayed := PatchedField(prioritised, "forward_delay", Rendered(input.forwardDelay));
    var greeted := PatchedField(delayed, "hello_time", Rendered(input.helloTime));
    PatchedField(greeted, "max_age", Rendered(input.maxAge))
  }

  /** What `put_vlan` says of the VLAN, read back from its row. */
  ghost predicate VlanSays(before: Row, after: Row, input: VlanInput) {
    && SaysBool(after, "enabled", input.enabled)
    && PatchesNumber(before, after, "priority", input.priority)
    && PatchesNumber(before, after, "forward_delay", input.forwardDelay)
    && PatchesNumber(before, after, "hello_time", input.helloTime)
    && PatchesNumber(before, after, "max_age", input.maxAge)
    && KeepsOthers(before, after, {"enabled", "priority", "forward_delay", "hello_time", "max_age"})
  }

  lemma EnabledReads(row: Row, on: bool)
    ensures Raw(row + Enabled(on), "enabled") == Some(if on then "true" else "false")
    ensures forall f :: f != "enabled" ==> Raw(row + Enabled(on), f) == Raw(row, f)
  {
  }

  lemma ConfiguredRowReads(row: Row, input: VlanInput)
    ensures var after := ConfiguredRow(row, input);
      && Raw(after, "enabled") == Some(if input.enabled then "true" else "false")
      && PatchesText(row, after, "priority", Rendered(input.priority))
      && PatchesText(row, after, "forward_delay", Rendered(input.forwardDelay))
      && PatchesText(row, after, "hello_time", Rendered(input.helloTime))
      && PatchesText(row, after, "max_age", Rendered(input.maxAge))
      && KeepsOthers(row, after, {"enabled", "priority", "forward_delay", "hello_time", "max_age"})
  {
    assert "enabled"[0] == 'e' && "priority"[0] == 'p' && "forward_delay"[0] == 'f' && "hello_time"[0] == 'h' && "max_age"[0] == 'm';
    hide PatchedField, Rendered, Raw, Enabled;
    EnabledReads(row, input.enabled);
    FourPatched(row + Enabled(input.enabled), "priority", Rendered(input.priority), "forward_delay", Rendered(input.forwardDelay),
                "hello_time", Rendered(input.helloTime), "max_age", Rendered(input.maxAge));
  }

  lemma ConfiguredRowSays(row: Row, input: VlanInput)
    ensures VlanSays(row, ConfiguredRow(row, input), input)
  {
    ConfiguredRowReads(row, input);
    var after := ConfiguredRow(row, input);
    hide Rendered, Raw, ConfiguredRow, KeepsOthers, PatchesText, PatchesNumber, SaysBool;
    FlagSays(after, "enabled", input.enabled);
    NumberPatched(row, after, "priority", input.priority);
    NumberPatched(row, after, "forward_delay", input.forwardDelay);
    NumberPatched(row, after, "hello_time", input.helloTime);
    NumberPatched(row, after, "max_age", input.maxAge);
  }

  function VlanOps(key: Key, input: VlanInput): (ops: seq<Op>)
    ensures |ops| > 0 && ops[0] == HSet(key, Enabled(input.enabled))
    ensures forall i :: 0 <= i < |ops| ==> ops[i].key == key && !ops[i].Del? && Reaches(ops[i])
    ensures ops[1..] == OverrideOps(key, input)
  {
    assert "enabled" in Enabled(input.enabled);
    [HSet(key, Enabled(input.enabled))] + OverrideOps(key, input)
  }

  lemma VlanOpsEffect(db: Db, key: Key, input: VlanInput)
    ensures RowOf(ExecAll(db, VlanOps(key, input)), key) == ConfiguredRow(RowOf(db, key), input)
  {
    hide PatchField, PatchedField, Rendered, RowOf, Enabled, VlanOps, OverrideOps, ExecAll;
    var first := HSet(key, Enabled(input.enabled));
    var a := [first] + PatchField(key, "priority", Rendered(input.priority));
    var b := a + PatchField(key, "forward_delay", Rendered(input.forwardDelay));
    var c := b + PatchField(key, "hello_time", Rendered(input.helloTime));
    ExecOne(db, first);
    ExecReads(db, first, key);
    PatchFieldEffect(db, key, "priority", Rendered(input.priority), [first]);
    PatchFieldEffect(db, key, "forward_delay", Rendered(input.forwardDelay), a);
    PatchFieldEffect(db, key, "hello_time", Rendered(input.helloTime), b);
    PatchFieldEffect(db, key, "max_age", Rendered(input.maxAge), c);
    VlanOpsParts(key, input);
  }

  lemma VlanOpsParts(key: Key, input: VlanInput)
    ensures VlanOps(key, input)
         == [HSet(key, Enabled(input.enabled))] + PatchField(key, "priority", Rendered(input.priority))
            + PatchField(key, "forward_delay", Rendered(input.forwardDelay))
            + PatchField(key, "hello_time", Rendered(input.helloTime)) + PatchField(key, "max_age", Rendered(input.maxAge))
  {
    hide PatchField, Rendered, Enabled;
  }

  /** A payload field over what is in effect: a value, a return to the global value, or
      nothing said. */
  function Merged(v: Option<Option<nat>>, now: nat, inherited: nat): nat {
    match v
    case None => now
    case Some(None) => inherited
    case Some(Some(n)) => n
  }

  /** The timers a `put_vlan` will leave in effect, known before the call: payload, then
      the VLAN's row, then the global row, then defaults. */
  function MergedTimers(db: Db, vlan: string, input: VlanInput): VlanTimers {
    var now, g := InEffect(db, vlan), StoredTimers(RowOf(db, GLOBAL));
    VlanTimers(Merged(input.forwardDelay, now.forwardDelay, g.forwardDelay), Merged(input.helloTime, now.helloTime, g.helloTime),
               Merged(input.maxAge, now.maxAge, g.maxAge))
  }

  /** One field through the chain of patches. */
  lemma FieldMerged(row: Row, name: string, v: Option<Option<nat>>, inherited: nat)
    requires Given(v) ==> v.value.value <= U32_MAX
    ensures NumField(PatchedField(row, name, Rendered(v)), name, U32_MAX).GetOr(inherited)
         == Merged(v, NumField(row, name, U32_MAX).GetOr(inherited), inherited)
  {
    hide NumField, Render;
    var after := PatchedField(row, name, Rendered(v));
    if Given(v) {
      NumFieldReadBack(after, name, v.value.value, U32_MAX);
    } else if v.Some? {
      NoNumField(after, name);
    }
  }

  lemma NoNumField(row: Row, name: string)
    requires name !in row
    ensures NumField(row, name, U32_MAX) == None
  {
  }

  /** Which fields the row of a VLAN keeps, and which it takes from the payload. */
  lemma ConfiguredFields(row: Row, input: VlanInput)
    ensures var after := ConfiguredRow(row, input);
      && SameField(after, PatchedField(row, "forward_delay", Rendered(input.forwardDelay)), "forward_delay")
      && SameField(after, PatchedField(row, "hello_time", Rendered(input.helloTime)), "hello_time")
      && SameField(after, PatchedField(row, "max_age", Rendered(input.maxAge)), "max_age")
  {
    assert "enabled"[0] == 'e' && "priority"[0] == 'p' && "forward_delay"[0] == 'f' && "hello_time"[0] == 'h' && "max_age"[0] == 'm';
    var on := row + Enabled(input.enabled);
    assert SameField(on, row, "forward_delay") && SameField(on, row, "hello_time") && SameField(on, row, "max_age");
    hide PatchedField, Rendered, SameField, Enabled;
    var p := PatchedField(on, "priority", Rendered(input.priority));
    var d := PatchedField(p, "forward_delay", Rendered(input.forwardDelay));
    var h := PatchedField(d, "hello_time", Rendered(input.helloTime));
    var after := PatchedField(h, "max_age", Rendered(input.maxAge));
    OtherFieldsSame(on, "priority", Rendered(input.priority));
    OtherFieldsSame(p, "forward_delay", Rendered(input.forwardDelay));
    OtherFieldsSame(d, "hello_time", Rendered(input.helloTime));
    OtherFieldsSame(h, "max_age", Rendered(input.maxAge));
    SameFieldChain(d, h, after, "forward_delay");
    SameFieldChain(p, on, row, "forward_delay");
    SamePatched(p, row, "forward_delay", Rendered(input.forwardDelay));
    SameFieldChain(after, d, PatchedField(row, "forward_delay", Rendered(input.forwardDelay)), "forward_delay");
    SameFieldChain(d, p, on, "hello_time");
    SameFieldChain(d, on, row, "hello_time");
    SamePatched(d, row, "hello_time", Rendered(input.helloTime));
    SameFieldChain(after, h, PatchedField(row, "hello_time", Rendered(input.helloTime)), "hello_time");
    SameFieldChain(h, d, p, "max_age");
    SameFieldChain(h, p, on, "max_age");
    SameFieldChain(h, on, row, "max_age");
    SamePatched(h, row, "max_age", Rendered(input.maxAge));
  }

  lemma OtherFieldsSame(row: Row, name: string, v: Option<Option<string>>)
    ensures forall other :: other != name ==> SameField(PatchedField(row, name, v), row, other)
  {
  }

  lemma SamePatched(a: Row, b: Row, name: string, v: Option<Option<string>>)
    requires SameField(a, b, name)
    ensures SameField(PatchedField(a, name, v), PatchedField(b, name, v), name)
  {
  }

  lemma SameFieldChain(a: Row, b: Row, c: Row, name: string)
    requires SameField(a, b, name) || SameField(b, a, name)
    requires SameField(b, c, name) || SameField(c, b, name)
    ensures SameField(a, c, name) && SameField(c, a, name)
  {
  }

  /** Both rows hold the field alike, or neither does. */
  predicate SameField(a: Row, b: Row, name: string) {
    (name in a <==> name in b) && (name in a ==> a[name] == b[name])
  }

  lemma SameFieldSameNumber(a: Row, b: Row, name: string)
    requires SameField(a, b, name)
    ensures NumField(a, name, U32_MAX) == NumField(b, name, U32_MAX)
  {
  }

  /** The configured row over any global values runs with the merged timers. */
  lemma ConfiguredTimers(row: Row, input: VlanInput, g: Timers)
    requires VlanInputOk(input)
    ensures var now := Over(row, g);
      Over(ConfiguredRow(row, input), g)
      == VlanTimers(Merged(input.forwardDelay, now.forwardDelay, g.forwardDelay), Merged(input.helloTime, now.helloTime, g.helloTime),
                    Merged(input.maxAge, now.maxAge, g.maxAge))
  {
    hide NumField, ConfiguredRow, PatchedField, Rendered, SameField;
    var after := ConfiguredRow(row, input);
    ConfiguredFields(row, input);
    SameFieldSameNumber(after, PatchedField(row, "forward_delay", Rendered(input.forwardDelay)), "forward_delay");
    SameFieldSameNumber(after, PatchedField(row, "hello_time", Rendered(input.helloTime)), "hello_time");
    SameFieldSameNumber(after, PatchedField(row, "max_age", Rendered(input.maxAge)), "max_age");
    FieldMerged(row, "forward_delay", input.forwardDelay, g.forwardDelay);
    FieldMerged(row, "hello_time", input.helloTime, g.helloTime);
    FieldMerged(row, "max_age", input.maxAge, g.maxAge);
  }

  /** After a whole `put_vlan` the timers in effect on the VLAN are the merged ones, and
      those of every other VLAN are what they were. */
  lemma PutVlanTimers(db: Db, vlan: string, input: VlanInput)
    requires VlanInputOk(input)
    ensures var after := ExecAll(db, VlanOps(StpVlanKey(vlan), input));
      && InEffect(after, vlan) == MergedTimers(db, vlan, input)
      && forall v :: v != vlan ==> InEffect(after, v) == InEffect(db, v)
  {
    hide Over, ConfiguredRow, VlanOps, VlanInputOk, StoredTimers;
    var key := StpVlanKey(vlan);
    var after := ExecAll(db, VlanOps(key, input));
    VlanOpsEffect(db, key, input);
    KeysApart(vlan);
    Untouched(db, VlanOps(key, input), GLOBAL);
    ConfiguredTimers(RowOf(db, key), input, StoredTimers(RowOf(db, GLOBAL)));
    forall v | v != vlan ensures InEffect(after, v) == InEffect(db, v) {
      StpKeyInjective(v, vlan);
      Untouched(db, VlanOps(key, input), StpVlanKey(v));
    }
  }

  lemma StpKeyInjective(v: string, w: string)
    ensures StpVlanKey(v) == StpVlanKey(w) <==> v == w
  {
    assert StpVlanKey(v).name[|STP_VLAN|..] == v && StpVlanKey(w).name[|STP_VLAN|..] == w;
  }

  /** Every instance is in the relation after a `put_vlan` exactly when all the others
      were before it and the merged timers are. */
  lemma PutVlanRelatedExactly(db: Db, vlan: string, input: VlanInput)
    requires NoEmptyRows(db) && VlanInputOk(input)
    ensures AllRelated(ExecAll(db, VlanOps(StpVlanKey(vlan), input)))
       <==> Related(MergedTimers(db, vlan, input)) && forall v :: v != vlan && StpVlanKey(v) in db ==> Related(InEffect(db, v))
  {
    hide InEffect, Related, MergedTimers, VlanOps, VlanInputOk, StpVlanKey;
    var key := StpVlanKey(vlan);
    var after := ExecAll(db, VlanOps(key, input));
    PutVlanTimers(db, vlan, input);
    PartialVlan(db, input, key, |VlanOps(key, input)|);
    assert VlanOps(key, input)[..|VlanOps(key, input)|] == VlanOps(key, input);
    ConfiguredVlanThere(db, key, input);
    forall v | v != vlan ensures StpVlanKey(v) in after <==> StpVlanKey(v) in db {
      StpKeyInjective(v, vlan);
    }
    assert key in after;
  }

  lemma ConfiguredVlanThere(db: Db, key: Key, input: VlanInput)
    requires NoEmptyRows(db)
    ensures key in ExecAll(db, VlanOps(key, input))
  {
    hide OverrideOps, LeavesEnabled;
    var ops, first := VlanOps(key, input), HSet(key, Enabled(input.enabled));
    assert ops == [first] + ops[1..];
    ExecOne(db, first);
    ExecReads(db, first, key);
    ExecAllAppend(db, [first], ops[1..]);
    OverridesLeaveEnabled(key, input);
    EnabledStays(Exec(db, first), ops[1..], key, if input.enabled then "true" else "false");
  }

  /** A write that leaves the `enabled` field alone. */
  predicate LeavesEnabled(op: Op) {
    match op
    case HSet(_, fields) => "enabled" !in fields
    case HDel(_, names) => "enabled" !in names
    case Del(_) => false
  }

  lemma OverridesLeaveEnabled(key: Key, input: VlanInput)
    ensures forall i :: 0 <= i < |OverrideOps(key, input)| ==> LeavesEnabled(OverrideOps(key, input)[i])
  {
    assert "enabled"[0] == 'e' && "priority"[0] == 'p' && "forward_delay"[0] == 'f' && "hello_time"[0] == 'h' && "max_age"[0] == 'm';
  }

  lemma {:induction false} EnabledStays(db: Db, ops: seq<Op>, key: Key, value: string)
    requires forall i :: 0 <= i < |ops| ==> LeavesEnabled(ops[i])
    requires "enabled" in RowOf(db, key) && RowOf(db, key)["enabled"] == value
    ensures "enabled" in RowOf(ExecAll(db, ops), key) && RowOf(ExecAll(db, ops), key)["enabled"] == value
    decreases |ops|
  {
    if ops != [] {
      EnabledStays(db, ops[..|ops| - 1], key, value);
      ExecReads(ExecAll(db, ops[..|ops| - 1]), ops[|ops| - 1], key);
    }
  }

  /** After its first write the VLAN counts as an instance exactly when it was asked to,
      however many of the overrides follow. */
  lemma PartialVlan(db: Db, input: VlanInput, key: Key, n: nat)
    requires 0 < n <= |VlanOps(key, input)|
    ensures var after := ExecAll(db, VlanOps(key, input)[..n]);
      CountsAsOn(RowOf(after, key)) == input.enabled && forall k :: k != key ==> RowOf(after, k) == RowOf(db, k) && (k in after <==> k in db)
  {
    hide OverrideOps, LeavesEnabled, BoolField;
    var ops, first := VlanOps(key, input), HSet(key, Enabled(input.enabled));
    var rest := ops[1..n];
    assert ops[..n] == [first] + rest;
    ExecOne(db, first);
    ExecReads(db, first, key);
    ExecAllAppend(db, [first], rest);
    OverridesLeaveEnabled(key, input);
    assert forall i :: 0 <= i < |rest| ==> rest[i] == ops[1..][i];
    var value := if input.enabled then "true" else "false";
    EnabledStays(Exec(db, first), rest, key, value);
    BoolFieldReadBack(RowOf(ExecAll(db, ops[..n]), key), "enabled", input.enabled);
    forall k | k != key ensures RowOf(ExecAll(db, ops[..n]), k) == RowOf(db, k) && (k in ExecAll(db, ops[..n]) <==> k in db) {
      Untouched(db, ops[..n], k);
    }
  }

  /** However far the writes of `put_vlan` got, the configuration stays sound. */
  lemma PartialVlanKeepsSound(db: Db, input: VlanInput, vlan: string, n: nat)
    requires NoEmptyRows(db) && Sound(db) && GLOBAL in db
    requires n <= |VlanOps(StpVlanKey(vlan), input)|
    requires input.enabled ==> |Instances(db) - {StpVlanKey(vlan)}| + 1 <= InstanceLimit(db)
    ensures Sound(ExecAll(db, VlanOps(StpVlanKey(vlan), input)[..n]))
  {
    hide CountsAsOn, StoredTimers, IsStpVlan, StpVlanKey, CheckAll;
    var key := StpVlanKey(vlan);
    var after := ExecAll(db, VlanOps(key, input)[..n]);
    KeysApart(vlan);
    if n == 0 {
      assert VlanOps(key, input)[..0] == [];
    } else {
      PartialVlan(db, input, key, n);
      ExecAllNoEmptyRows(db, VlanOps(key, input)[..n]);
      forall k | k in Instances(after) && k != key ensures k in Instances(db) {
        assert RowOf(after, k) == RowOf(db, k);
      }
      if input.enabled {
        SubsetCount(Instances(after), Instances(db) - {key} + {key});
      } else {
        SubsetCount(Instances(after), Instances(db));
      }
      assert RowOf(after, LIMIT) == RowOf(db, LIMIT) && RowOf(after, GLOBAL) == RowOf(db, GLOBAL);
    }
  }

  /** The other instances counted one by one, a failed read counting as on. */
  method CountOthers(plat: Platform, key: Key) returns (ok: bool, on: nat, ghost scanned: seq<string>)
    requires plat.Valid()
    modifies plat`calls
    ensures old(plat.calls) < plat.calls
    ensures ok ==> |Instances(plat.rows) - {key}| <= on
    ensures AllWork(plat.fault, old(plat.calls), plat.calls) ==> ok
    ensures plat.steady ==> NoRepeats(scanned)
    // and it is that number when no read fails and the scan repeats no key
    ensures AllWork(plat.fault, old(plat.calls), plat.calls) ==> NoRepeats(scanned) ==> on == |Instances(plat.rows) - {key}|
  {
    hide BoolField, CountsAsOn, OthersIn, Instances;
    on, scanned := 0, [];
    OthersStart(plat.rows, key);
    var names;
    ok, names := plat.Scan(CONFIG_DB, STP_VLAN);
    if !ok { return; }
    scanned := names;
    ghost var seen: set<Key> := {};
    for i := 0 to |names|
      invariant old(plat.calls) < plat.calls
      invariant |seen| <= on
      invariant AllWork(plat.fault, old(plat.calls), plat.calls) ==> on == OthersIn(plat.rows, names[..i], key)
      invariant forall j :: 0 <= j < i && Key(CONFIG_DB, names[j]) in Instances(plat.rows) - {key} ==> Key(CONFIG_DB, names[j]) in seen
    {
      var k := Key(CONFIG_DB, names[i]);
      OthersNext(plat.rows, names, i, key);
      InstancesAre(plat.rows, k);
      if k != key {
        var counts := ReadsAsOn(plat, k);
        if counts {
          on := on + 1;
          seen := seen + {k};
        }
      }
    }
    forall k | k in Instances(plat.rows) - {key} ensures k in seen {
      InstancesAre(plat.rows, k);
      assert k == Key(CONFIG_DB, k.name) && k.name in names;
    }
    SubsetCount(Instances(plat.rows) - {key}, seen);
    assert names[..|names|] == names;
    if NoRepeats(names) {
      OthersInScan(plat.rows, names, key);
    }
  }

  lemma InstancesAre(db: Db, k: Key)
    ensures k in Instances(db) <==> k in db && IsStpVlan(k) && CountsAsOn(db[k])
  {
  }

  lemma OthersStart(db: Db, key: Key)
    ensures OthersIn(db, [], key) == 0
  {
  }

  lemma OthersNext(db: Db, names: seq<string>, i: nat, key: Key)
    requires i < |names|
    ensures var k := Key(CONFIG_DB, names[i]);
      OthersIn(db, names[..i + 1], key) == OthersIn(db, names[..i], key) + if k != key && CountsAsOn(RowOf(db, k)) then 1 else 0
  {
    assert names[..i + 1][..i] == names[..i];
  }

  /** The rows counted among these names. */
  function OthersIn(db: Db, names: seq<string>, key: Key): nat
    decreases |names|
  {
    if names == [] then 0
    else
      var k := Key(CONFIG_DB, names[|names| - 1]);
      OthersIn(db, names[..|names| - 1], key) + if k != key && CountsAsOn(RowOf(db, k)) then 1 else 0
  }

  ghost function Named(db: Db, names: seq<string>, key: Key): set<Key> {
    set k | k in db && k != key && k.db == CONFIG_DB && k.name in names && CountsAsOn(db[k])
  }

  lemma {:induction false} OthersAreCounted(db: Db, names: seq<string>, key: Key)
    requires NoRepeats(names) && forall n :: n in names ==> Key(CONFIG_DB, n) in db
    ensures OthersIn(db, names, key) == |Named(db, names, key)|
    decreases |names|
  {
    hide CountsAsOn;
    if names == [] {
      assert Named(db, names, key) == {};
    } else {
      var front, last := names[..|names| - 1], names[|names| - 1];
      var k := Key(CONFIG_DB, last);
      assert last !in front && forall n :: n in names <==> n in front || n == last;
      OthersAreCounted(db, front, key);
      assert k in db && k !in Named(db, front, key);
      assert Named(db, names, key) == Named(db, front, key) + if k != key && CountsAsOn(db[k]) then {k} else {};
    }
  }

  lemma OthersInScan(db: Db, names: seq<string>, key: Key)
    requires NoRepeats(names) && forall n :: n in names <==> Key(CONFIG_DB, n) in db && STP_VLAN <= n
    ensures OthersIn(db, names, key) == |Instances(db) - {key}|
  {
    hide CountsAsOn;
    OthersAreCounted(db, names, key);
    assert Named(db, names, key) == Instances(db) - {key};
  }

  /** What `put_vlan` answers when no call fails and so many other instances are counted. */
  function VlanVerdict(db: Db, supported: bool, vlan: string, input: VlanInput, others: nat): WriteResult {
    if !supported then Conflict
    else if !VlanInputOk(input) then BadRequest
    else if VlanKey(vlan) !in db then NotFound
    else if GLOBAL !in db then Conflict
    else if input.enabled && others + 1 > InstanceLimit(db) then Unprocessable
    else Done
  }

  /** A row whose read fails counts as on. */
  method ReadsAsOn(plat: Platform, k: Key) returns (counts: bool)
    requires plat.Valid()
    modifies plat`calls
    ensures plat.calls == old(plat.calls) + 1
    ensures CountsAsOn(RowOf(plat.rows, k)) ==> counts
    ensures plat.fault(old(plat.calls)) == Works ==> counts == CountsAsOn(RowOf(plat.rows, k))
  {
    var _, row := plat.HGetAll(k);
    counts := CountsAsOn(row);
  }

  /** Configuring one VLAN within the limit, as one transition, even half-way. */
  ghost predicate VlanStep(a: Db, b: Db) {
    GLOBAL in a && exists vlan: string, input: VlanInput, n: nat ::
      && n <= |VlanOps(StpVlanKey(vlan), input)|
      && (input.enabled ==> |Instances(a) - {StpVlanKey(vlan)}| + 1 <= InstanceLimit(a))
      && b == ExecAll(a, VlanOps(StpVlanKey(vlan), input)[..n])
  }

  lemma VlanStepOf(a: Db, vlan: string, input: VlanInput, n: nat)
    requires GLOBAL in a && n <= |VlanOps(StpVlanKey(vlan), input)|
    requires input.enabled ==> |Instances(a) - {StpVlanKey(vlan)}| + 1 <= InstanceLimit(a)
    ensures VlanStep(a, ExecAll(a, VlanOps(StpVlanKey(vlan), input)[..n]))
  {
    hide VlanOps, Instances, InstanceLimit;
  }

  /** `put_vlan`. */
  method PutVlan(plat: Platform, supported: bool, id: nat, input: VlanInput)
    returns (r: WriteResult, ghost done: nat, ghost checked: nat, ghost others: nat, ghost scanned: seq<string>)
    requires plat.Valid() && id <= U32_MAX
    modifies plat
    ensures plat.Valid() && old(plat.calls) <= checked <= plat.calls
    ensures done <= |VlanOps(StpVlanKey(VlanName(id)), input)|
    ensures plat.rows == ExecAll(old(plat.rows), VlanOps(StpVlanKey(VlanName(id)), input)[..done])
    ensures r in {BadRequest, NotFound, Conflict, Unprocessable} ==> plat.rows == old(plat.rows)
    ensures r.Done? ==> VlanInputOk(input) && GLOBAL in old(plat.rows) && VlanKey(VlanName(id)) in old(plat.rows)
    ensures r.Done? ==>
              RowOf(plat.rows, StpVlanKey(VlanName(id))) == ConfiguredRow(RowOf(old(plat.rows), StpVlanKey(VlanName(id))), input)
    // read back, the row is what was asked for, and no other row is ever written
    ensures r.Done? ==> VlanSays(RowOf(old(plat.rows), StpVlanKey(VlanName(id))), RowOf(plat.rows, StpVlanKey(VlanName(id))), input)
    ensures forall k :: k != StpVlanKey(VlanName(id)) ==> RowOf(plat.rows, k) == RowOf(old(plat.rows), k)
    // the timers in effect on the VLAN are the merged ones, so they satisfy the relation
    // exactly when those do; no other VLAN's change
    ensures r.Done? ==>
              && InEffect(plat.rows, VlanName(id)) == MergedTimers(old(plat.rows), VlanName(id), input)
              && (Related(InEffect(plat.rows, VlanName(id))) <==> Related(MergedTimers(old(plat.rows), VlanName(id), input)))
              && forall v :: v != VlanName(id) ==> InEffect(plat.rows, v) == InEffect(old(plat.rows), v)
    // the reads working is enough: a write that fails half-way breaks nothing
    ensures AllWork(plat.fault, old(plat.calls), checked) ==> plat.rows == old(plat.rows) || VlanStep(old(plat.rows), plat.rows)
    // a full answer, the count being the number of other instances unless the scan repeats
    ensures AllWork(plat.fault, old(plat.calls), plat.calls) ==>
              r == VlanVerdict(old(plat.rows), supported, VlanName(id), input, others)
    ensures AllWork(plat.fault, old(plat.calls), plat.calls) ==> NoRepeats(scanned) && (r.Done? || r.Unprocessable?) && input.enabled ==>
              others == |Instances(old(plat.rows)) - {StpVlanKey(VlanName(id))}|
    ensures plat.steady ==> NoRepeats(scanned)
  {
    hide VlanStep, VlanInputOk, StpVlanKey, VlanName, VlanOps, Instances, InstanceLimit, VlanKey, ConfiguredRow,
         InEffect, MergedTimers, Related, VlanSays;
    ghost var db := plat.rows;
    var key := StpVlanKey(VlanName(id));
    done, checked, others, scanned := 0, plat.calls, 0, [];
    assert VlanOps(key, input)[..0] == [];
    if !supported {
      r := Conflict;
      return;
    }
    if !VlanInputOk(input) {
      r := BadRequest;
      return;
    }
    var ok, found := plat.Exists(VlanKey(VlanName(id)));
    checked := plat.calls;
    if !ok || !found {
      r := if ok then NotFound else Redis;
      return;
    }
    ok, found := plat.Exists(GLOBAL);
    checked := plat.calls;
    if !ok || !found {
      r := if ok then Conflict else Redis;
      return;
    }
    if input.enabled {
      var on, limit;
      ghost var before := plat.calls;
      ok, on, scanned := CountOthers(plat, key);
      checked, others := plat.calls, on;
      assert AllWork(plat.fault, old(plat.calls), plat.calls) ==> AllWork(plat.fault, before, plat.calls);
      if !ok {
        r := Redis;
        return;
      }
      limit := MaxInstances(plat);
      checked := plat.calls;
      if on + 1 > limit {
        r := Unprocessable;
        return;
      }
    }
    VlanOpsEffect(db, key, input);
    ConfiguredRowSays(RowOf(db, key), input);
    PutVlanTimers(db, VlanName(id), input);
    ok, done := WriteEach(plat, VlanOps(key, input));
    assert done == |VlanOps(key, input)| ==> VlanOps(key, input)[..done] == VlanOps(key, input);
    forall k | k != key ensures RowOf(plat.rows, k) == RowOf(db, k) {
      Untouched(db, VlanOps(key, input)[..done], k);
    }
    if AllWork(plat.fault, old(plat.calls), checked) {
      VlanStepOf(db, VlanName(id), input, done);
    }
    r := if ok then Done else Redis;
  }

  /** `put_port` and every other call of the agent write only rows the invariant does not
      read, so any number of their writes keeps it. */
  lemma {:induction false} OtherCallsKeepSound(db: Db, ops: seq<Op>)
    requires NoEmptyRows(db) && Sound(db) && forall i :: 0 <= i < |ops| ==> Outside(ops[i].key)
    ensures Sound(ExecAll(db, ops)) && NoEmptyRows(ExecAll(db, ops))
    decreases |ops|
  {
    hide Sound, Outside;
    if ops != [] {
      OtherCallsKeepSound(db, ops[..|ops| - 1]);
      OtherWritesKeepSound(ExecAll(db, ops[..|ops| - 1]), ops[|ops| - 1]);
      ExecNoEmptyRows(ExecAll(db, ops[..|ops| - 1]), ops[|ops| - 1]);
    }
  }

  /** Writes of any other call. */
  ghost predicate OtherStep(a: Db, b: Db) {
    exists ops: seq<Op> :: (forall i :: 0 <= i < |ops| ==> Outside(ops[i].key)) && b == ExecAll(a, ops)
  }

  ghost predicate Step(a: Db, b: Db) {
    NoEmptyRows(b) && (a == b || EnableStep(a, b) || DisableStep(a, b) || VlanStep(a, b) || OtherStep(a, b))
  }

  lemma OnKeepsTimers(row: Row, g: Timers)
    ensures Over(row + ON, g) == Over(row, g)
  {
    assert "enabled"[0] == 'e' && "forward_delay"[0] == 'f' && "hello_time"[0] == 'h' && "max_age"[0] == 'm';
    SameFieldSameNumber(row + ON, row, "forward_delay");
    SameFieldSameNumber(row + ON, row, "hello_time");
    SameFieldSameNumber(row + ON, row, "max_age");
  }

  /** Over no row at all the global timers are in effect. */
  lemma NothingOver(t: Timers)
    requires CheckAll(t)
    ensures Related(Over(map[], t))
  {
    NoNumField(map[], "forward_delay");
    NoNumField(map[], "hello_time");
    NoNumField(map[], "max_age");
  }

  /** Once the global row is written every VLAN runs with its own overrides over the new
      global timers, and every instance is in the relation exactly when those merged timers
      are, VLAN by VLAN. */
  lemma PutGlobalRelatedExactly(db: Db, input: GlobalInput, t: Timers, enabling: bool, vlans: seq<string>, ports: seq<string>)
    requires NoEmptyRows(db) && CheckAll(t)
    ensures var after := ExecAll(db, EnableOps(input, t, enabling, vlans, ports));
      && (forall v :: InEffect(after, v) == Over(RowOf(db, StpVlanKey(v)), t))
      && (AllRelated(after) <==> forall v :: StpVlanKey(v) in db ==> Related(Over(RowOf(db, StpVlanKey(v)), t)))
  {
    hide Over, Related, CheckAll, EnableOps, Seeded, StoredTimers, GlobalFields, ON, StpVlanKey, IsStpVlan;
    var after := ExecAll(db, EnableOps(input, t, enabling, vlans, ports));
    EnableEffect(db, input, t, enabling, vlans, ports);
    CheckedFit(t);
    GlobalFieldsReadBack(RowOf(db, GLOBAL), input.mode, t);
    forall v ensures InEffect(after, v) == Over(RowOf(db, StpVlanKey(v)), t) && (StpVlanKey(v) in db ==> StpVlanKey(v) in after) {
      KeysApart(v);
      OnKeepsTimers(RowOf(db, StpVlanKey(v)), t);
    }
    NothingOver(t);
    if forall v :: StpVlanKey(v) in db ==> Related(Over(RowOf(db, StpVlanKey(v)), t)) {
      forall v | StpVlanKey(v) in after ensures Related(InEffect(after, v)) {
        assert StpVlanKey(v) !in db ==> RowOf(db, StpVlanKey(v)) == map[];
      }
    }
    if AllRelated(after) {
      forall v | StpVlanKey(v) in db ensures Related(Over(RowOf(db, StpVlanKey(v)), t)) {
        assert StpVlanKey(v) in after && Related(InEffect(after, v));
      }
    }
  }

  /** `put_global`: a disabled mode takes everything down, any other goes in one batch. */
  method PutGlobal(plat: Platform, supported: bool, mstSupported: bool, input: GlobalInput)
    returns (r: WriteResult, ghost vlans: seq<string>)
    requires plat.Valid()
    modifies plat
    ensures plat.Valid()
    ensures !supported ==> r.Conflict?
    ensures r in {Conflict, BadRequest, Unprocessable} ==> plat.rows == old(plat.rows)
    ensures r.Done? && input.mode.Disabled? ==> DisableStep(old(plat.rows), plat.rows)
    ensures r.Done? && !input.mode.Disabled? ==>
              var t := Effective(input, RowOf(old(plat.rows), GLOBAL));
              CheckAll(t) && RowOf(plat.rows, GLOBAL) == RowOf(old(plat.rows), GLOBAL) + GlobalFields(input.mode, t)
    // read back, the rows are what was asked for, and on first enabling every VLAN and every
    // layer-2 port has a row that is on
    ensures r.Done? && !input.mode.Disabled? ==> GlobalSays(RowOf(old(plat.rows), GLOBAL), RowOf(plat.rows, GLOBAL), input)
    ensures r.Done? && !input.mode.Disabled? && AllWork(plat.fault, old(plat.calls), plat.calls) ==>
              EnableSays(old(plat.rows), plat.rows, input, iset p | IsL2(old(plat.rows), p))
    // only the global timers are checked: the overrides of a VLAN apply over them unchecked
    ensures r.Done? && !input.mode.Disabled? ==>
              var t := Effective(input, RowOf(old(plat.rows), GLOBAL));
              && (forall v :: InEffect(plat.rows, v) == Over(RowOf(old(plat.rows), StpVlanKey(v)), t))
              && (AllRelated(plat.rows)
                  <==> forall v :: StpVlanKey(v) in old(plat.rows) ==> Related(Over(RowOf(old(plat.rows), StpVlanKey(v)), t)))
    ensures !r.Done? && !input.mode.Disabled? && OneFailureAtMost(plat.fault, old(plat.calls), plat.calls) ==> plat.rows == old(plat.rows)
    ensures AllWork(plat.fault, old(plat.calls), plat.calls) ==>
              !r.Redis? && (supported && input.mode.Disabled? ==> r.Done?) && Step(old(plat.rows), plat.rows)
    // `vlans` is what the scan for VLANs gave, each at least once
    ensures AllWork(plat.fault, old(plat.calls), plat.calls) && supported && !input.mode.Disabled? ==>
              && r == EnableVerdict(old(plat.rows), mstSupported, input, |vlans|)
              && (r in {Done, Unprocessable} && !(input.mode.Mst? && !mstSupported) ==>
                    forall n :: n in vlans <==> Key(CONFIG_DB, n) in old(plat.rows) && VLAN <= n)
  {
    hide Over, Related, InEffect, StpVlanKey, Effective, CheckAll, GlobalFields, EnableStep, DisableStep, VlanStep, OtherStep, EnableOps, IsL2, InstanceLimit,
         EnableSays, GlobalSays;
    vlans := [];
    if !supported {
      r := Conflict;
      return;
    }
    ghost var db := plat.rows;
    if input.mode.Disabled? {
      ghost var keys, gone;
      r, keys, gone := Disable(plat);
    } else {
      ghost var ports;
      r, vlans, ports := Enable(plat, mstSupported, input);
      if r.Done? {
        EnableSaysGlobal(db, plat.rows, input, iset p | p in ports);
        EnableEffect(db, input, Effective(input, RowOf(db, GLOBAL)), GLOBAL !in db, vlans, ports);
        PutGlobalRelatedExactly(db, input, Effective(input, RowOf(db, GLOBAL)), GLOBAL !in db, vlans, ports);
      }
    }
  }

  lemma StepKeepsSound(a: Db, b: Db)
    requires NoEmptyRows(a) && Sound(a) && Step(a, b)
    ensures Sound(b)
  {
    hide Sound, CheckAll, InstanceLimit, Instances, Outside;
    if EnableStep(a, b) {
      var input, t, enabling, vlans, ports :|
        && CheckAll(t) && (enabling <==> GLOBAL !in a) && (enabling ==> |vlans| <= InstanceLimit(a))
        && b == ExecAll(a, EnableOps(input, t, enabling, vlans, ports));
      EnableKeepsSound(a, input, t, enabling, vlans, ports);
    } else if DisableStep(a, b) {
      NothingLeftIsSound(a, b);
    } else if VlanStep(a, b) {
      var vlan, input, n :|
        && 0 <= n <= |VlanOps(StpVlanKey(vlan), input)|
        && (input.enabled ==> |Instances(a) - {StpVlanKey(vlan)}| + 1 <= InstanceLimit(a))
        && b == ExecAll(a, VlanOps(StpVlanKey(vlan), input)[..n]);
      PartialVlanKeepsSound(a, input, vlan, n);
    } else if OtherStep(a, b) {
      var ops: seq<Op> :| (forall i :: 0 <= i < |ops| ==> Outside(ops[i].key)) && b == ExecAll(a, ops);
      OtherCallsKeepSound(a, ops);
    }
  }

  /** Over every run from an empty spanning-tree configuration, every store is sound. */
  lemma {:induction false} EveryRunStaysSound(states: seq<Db>, n: nat)
    requires n < |states| && NoEmptyRows(states[0])
    requires GLOBAL !in states[0] && forall k :: k in states[0] ==> !IsStpVlan(k)
    requires forall i :: 0 <= i < |states| - 1 ==> Step(states[i], states[i + 1])
    ensures NoEmptyRows(states[n]) && Sound(states[n])
    decreases n
  {
    hide Sound, EnableStep, DisableStep, VlanStep, OtherStep, IsStpVlan;
    if n == 0 {
      EmptyIsSound(states[0]);
    } else {
      EveryRunStaysSound(states, n - 1);
      assert Step(states[n - 1], states[n]);
      StepKeepsSound(states[n - 1], states[n]);
    }
  }
}
