/** The BGP write calls (`src/sonic/bgp.rs`) in both modes, each one of the transitions of
    `Bgp.Step`. */
module BgpCalls {
  import opened Common
  import opened Text
  import opened Store
  import opened Keys
  import opened Diffs
  import opened Bgp

  /** How the image configures BGP. */
  datatype Mode = Unavailable | Legacy | Frrcfgd

  const METADATA := Key(CONFIG_DB, "DEVICE_METADATA|localhost")

  predicate CheckAsn(asn: nat) {
    1 <= asn <= U32_MAX
  }

  predicate CheckTimers(keepalive: Option<nat>, holdtime: Option<nat>) {
    && (holdtime.Some? ==> holdtime.value == 0 || 3 <= holdtime.value <= 65535)
    && (keepalive.Some? ==> 1 <= keepalive.value <= 21845)
    && (keepalive.Some? && holdtime.Some? && holdtime.value != 0 ==> keepalive.value < holdtime.value)
  }

  function Flag(on: bool): string {
    if on then "true" else "false"
  }

  function Number(n: Option<nat>): Option<Option<string>> {
    Some(if n.Some? then Some(Render(n.value)) else None)
  }

  // ----------------------------------------------------------------- put_global

  datatype GlobalInput = GlobalInput(
    asn: Option<nat>,
    routerId: Option<string>,
    keepalive: Option<nat>,
    holdtime: Option<nat>,
    graceful: bool,
    maxEbgp: Option<nat>,
    maxIbgp: Option<nat>)

  /** What legacy mode has no place for. */
  predicate Expressible(input: GlobalInput) {
    && input.routerId == None && input.keepalive == None && input.holdtime == None && !input.graceful
    && input.maxEbgp == None && input.maxIbgp == None
  }

  function InstanceFields(asn: nat, input: GlobalInput): Row {
    map["local_asn" := Render(asn), "graceful_restart_enable" := Flag(input.graceful)]
  }

  function InstanceOps(key: Key, asn: nat, input: GlobalInput): seq<Op> {
    [HSet(key, InstanceFields(asn, input))] + PatchField(key, "router_id", Some(input.routerId))
    + PatchField(key, "keepalive", Number(input.keepalive)) + PatchField(key, "holdtime", Number(input.holdtime))
  }

  /** The instance row after a put. */
  function InstanceRow(row: Row, asn: nat, input: GlobalInput): Row {
    var routed := PatchedField(row + InstanceFields(asn, input), "router_id", Some(input.routerId));
    var kept := PatchedField(routed, "keepalive", Number(input.keepalive));
    PatchedField(kept, "holdtime", Number(input.holdtime))
  }

  function PathOps(key: Key, input: GlobalInput): seq<Op> {
    PatchField(key, "max_ebgp_paths", Number(input.maxEbgp)) + PatchField(key, "max_ibgp_paths", Number(input.maxIbgp))
  }

  function PathKey(vrf: string, af: string): Key {
    Key(CONFIG_DB, GLOBALS_AF + vrf + "|" + af)
  }

  function GlobalOps(vrf: string, asn: nat, input: GlobalInput): seq<Op> {
    InstanceOps(GlobalKey(vrf), asn, input) + PathOps(PathKey(vrf, "ipv4_unicast"), input) + PathOps(PathKey(vrf, "ipv6_unicast"), input)
  }

  lemma InstanceOpsEffect(db: Db, key: Key, asn: nat, input: GlobalInput)
    ensures RowOf(ExecAll(db, InstanceOps(key, asn, input)), key) == InstanceRow(RowOf(db, key), asn, input)
  {
    hide PatchField, PatchedField, Number, InstanceFields, RowOf, ExecAll;
    var first := HSet(key, InstanceFields(asn, input));
    var a := [first] + PatchField(key, "router_id", Some(input.routerId));
    var b := a + PatchField(key, "keepalive", Number(input.keepalive));
    ExecOne(db, first);
    ExecReads(db, first, key);
    PatchFieldEffect(db, key, "router_id", Some(input.routerId), [first]);
    PatchFieldEffect(db, key, "keepalive", Number(input.keepalive), a);
    PatchFieldEffect(db, key, "holdtime", Number(input.holdtime), b);
  }

  lemma InstanceStays(row: Row, asn: nat, input: GlobalInput)
    ensures InstanceRow(row, asn, input) != map[]
  {
    assert "local_asn"[0] == 'l' && "router_id"[0] == 'r' && "keepalive"[0] == 'k' && "holdtime"[0] == 'h';
    var start := row + InstanceFields(asn, input);
    assert "local_asn" in start;
    PatchedFieldOthers(start, "router_id", Some(input.routerId), "local_asn");
    var routed := PatchedField(start, "router_id", Some(input.routerId));
    PatchedFieldOthers(routed, "keepalive", Number(input.keepalive), "local_asn");
    PatchedFieldOthers(PatchedField(routed, "keepalive", Number(input.keepalive)), "holdtime", Number(input.holdtime), "local_asn");
  }

  // What a put says of the instance, read back from its rows.

  ghost predicate InstanceSays(before: Row, after: Row, asn: nat, input: GlobalInput) {
    && SaysNumber(after, "local_asn", Some(asn)) && SaysBool(after, "graceful_restart_enable", input.graceful)
    && Raw(after, "router_id") == input.routerId
    && SaysNumber(after, "keepalive", input.keepalive) && SaysNumber(after, "holdtime", input.holdtime)
    && KeepsOthers(before, after, {"local_asn", "graceful_restart_enable", "router_id", "keepalive", "holdtime"})
  }

  ghost predicate PathsSay(before: Row, after: Row, input: GlobalInput) {
    && SaysNumber(after, "max_ebgp_paths", input.maxEbgp) && SaysNumber(after, "max_ibgp_paths", input.maxIbgp)
    && KeepsOthers(before, after, {"max_ebgp_paths", "max_ibgp_paths"})
  }

  /** Setting an instance up: its own row and the path rows of both families read back as
      asked for, and no other row changes. */
  ghost predicate GlobalSays(db: Db, after: Db, vrf: string, asn: nat, input: GlobalInput) {
    && InstanceSays(RowOf(db, GlobalKey(vrf)), RowOf(after, GlobalKey(vrf)), asn, input)
    && PathsSay(RowOf(db, PathKey(vrf, "ipv4_unicast")), RowOf(after, PathKey(vrf, "ipv4_unicast")), input)
    && PathsSay(RowOf(db, PathKey(vrf, "ipv6_unicast")), RowOf(after, PathKey(vrf, "ipv6_unicast")), input)
    && forall k :: k !in {GlobalKey(vrf), PathKey(vrf, "ipv4_unicast"), PathKey(vrf, "ipv6_unicast")} ==> RowOf(after, k) == RowOf(db, k)
  }

  lemma StartReads(row: Row, asn: nat, input: GlobalInput)
    ensures var start := row + InstanceFields(asn, input);
      && Raw(start, "local_asn") == Some(Render(asn)) && Raw(start, "graceful_restart_enable") == Some(Flag(input.graceful))
      && KeepsOthers(row, start, {"local_asn", "graceful_restart_enable"})
  {
    assert "local_asn"[0] == 'l' && "graceful_restart_enable"[0] == 'g';
    hide Render, Flag;
  }

  lemma InstanceNamesDiffer()
    ensures "local_asn"[0] == 'l' && "graceful_restart_enable"[0] == 'g' && "router_id"[0] == 'r' && "keepalive"[0] == 'k' && "holdtime"[0] == 'h'
  {
  }

  lemma InstanceRowSays(row: Row, asn: nat, input: GlobalInput)
    ensures InstanceSays(row, InstanceRow(row, asn, input), asn, input)
  {
    hide PatchedField, Render, Raw, SaysNumber, SaysBool, InstanceFields;
    var start := row + InstanceFields(asn, input);
    var after := InstanceRow(row, asn, input);
    InstanceNamesDiffer();
    StartReads(row, asn, input);
    ThreePatched(start, "router_id", Some(input.routerId), "keepalive", Number(input.keepalive), "holdtime", Number(input.holdtime));
    RenderedSays(after, "local_asn", Some(asn));
    FlagSays(after, "graceful_restart_enable", input.graceful);
    RenderedSays(after, "keepalive", input.keepalive);
    RenderedSays(after, "holdtime", input.holdtime);
  }

  lemma PathOpsSay(db: Db, key: Key, input: GlobalInput)
    ensures PathsSay(RowOf(db, key), RowOf(ExecAll(db, PathOps(key, input)), key), input)
  {
    assert "max_ebgp_paths" != "max_ibgp_paths" by { assert "max_ebgp_paths"[4] == 'e' && "max_ibgp_paths"[4] == 'i'; }
    hide RowOf, ExecAll, PatchField, Number;
    TwoNumbersSay(db, key, "max_ebgp_paths", input.maxEbgp, "max_ibgp_paths", input.maxIbgp);
  }

  lemma TwoNumbersSay(db: Db, key: Key, f: string, v: Option<nat>, g: string, w: Option<nat>)
    requires f != g
    ensures var after := RowOf(ExecAll(db, PatchField(key, f, Number(v)) + PatchField(key, g, Number(w))), key);
      SaysNumber(after, f, v) && SaysNumber(after, g, w) && KeepsOthers(RowOf(db, key), after, {f, g})
  {
    hide PatchedField, PatchField, Render, RowOf, SaysNumber, Raw;
    var row := RowOf(db, key);
    PatchFieldEffect(db, key, f, Number(v), []);
    assert [] + PatchField(key, f, Number(v)) == PatchField(key, f, Number(v));
    PatchFieldEffect(db, key, g, Number(w), PatchField(key, f, Number(v)));
    TwoPatched(row, f, Number(v), g, Number(w));
    RenderedSays(PatchedField(PatchedField(row, f, Number(v)), g, Number(w)), f, v);
    RenderedSays(PatchedField(PatchedField(row, f, Number(v)), g, Number(w)), g, w);
  }

  lemma PathKeysDiffer(vrf: string)
    ensures PathKey(vrf, "ipv4_unicast") != PathKey(vrf, "ipv6_unicast")
  {
    var p := GLOBALS_AF + vrf + "|";
    assert (p + "ipv4_unicast")[|p| + 3] == '4' && (p + "ipv6_unicast")[|p| + 3] == '6';
  }

  lemma PathKeyIsApart(vrf: string, af: string)
    ensures PathKey(vrf, af) != GlobalKey(vrf) && Beneath(PathKey(vrf, af), GLOBALS_AF)
  {
    assert "BGP_GLOBALS|"[11] == '|' && "BGP_GLOBALS_AF|"[11] == '_';
    assert PathKey(vrf, af).name[11] == '_' && GlobalKey(vrf).name[11] == '|';
    assert PathKey(vrf, af).name == GLOBALS_AF + (vrf + "|" + af);
  }

  /** Setting an instance up writes its row and its path rows, nothing else. */
  lemma GlobalOpsEffect(db: Db, vrf: string, asn: nat, input: GlobalInput)
    requires NoEmptyRows(db)
    ensures var after := ExecAll(db, GlobalOps(vrf, asn, input));
      && RowOf(after, GlobalKey(vrf)) == InstanceRow(RowOf(db, GlobalKey(vrf)), asn, input)
      && GlobalSays(db, after, vrf, asn, input)
      && GlobalStep(db, after)
  {
    hide InstanceOps, PathOps, InstanceRow, GlobalKey, PathKey, Beneath, InstanceSays, PathsSay;
    var key := GlobalKey(vrf);
    var v4, v6 := PathKey(vrf, "ipv4_unicast"), PathKey(vrf, "ipv6_unicast");
    var after := ExecAll(db, GlobalOps(vrf, asn, input));
    PathKeyIsApart(vrf, "ipv4_unicast");
    PathKeyIsApart(vrf, "ipv6_unicast");
    OpsOnKey(key, asn, input, v4, v6);
    var middle := ExecAll(db, InstanceOps(key, asn, input) + PathOps(v4, input));
    ExecAllAppend(db, InstanceOps(key, asn, input), PathOps(v4, input));
    ExecAllAppend(db, InstanceOps(key, asn, input) + PathOps(v4, input), PathOps(v6, input));
    InstanceOpsEffect(db, key, asn, input);
    Untouched(ExecAll(db, InstanceOps(key, asn, input)), PathOps(v4, input), key);
    Untouched(middle, PathOps(v6, input), key);
    InstanceStays(RowOf(db, key), asn, input);
    InstanceRowSays(RowOf(db, key), asn, input);
    PathKeysDiffer(vrf);
    PathOpsSay(ExecAll(db, InstanceOps(key, asn, input)), v4, input);
    PathOpsSay(middle, v6, input);
    Untouched(db, InstanceOps(key, asn, input), v4);
    Untouched(db, InstanceOps(key, asn, input) + PathOps(v4, input), v6);
    Untouched(middle, PathOps(v6, input), v4);
    forall k | k != key && k != v4 && k != v6 ensures RowOf(after, k) == RowOf(db, k) {
      Untouched(db, GlobalOps(vrf, asn, input), k);
    }
    var touched := k => k == GlobalKey(vrf) || Beneath(k, GLOBALS_AF);
    forall k | !touched(k) ensures RowOf(after, k) == RowOf(db, k) {
      Untouched(db, GlobalOps(vrf, asn, input), k);
    }
    assert key in after;
    assert SameBut(db, after, k => k == GlobalKey(vrf) || Beneath(k, GLOBALS_AF));
  }

  lemma OpsOnKey(key: Key, asn: nat, input: GlobalInput, v4: Key, v6: Key)
    ensures forall i :: 0 <= i < |InstanceOps(key, asn, input)| ==> InstanceOps(key, asn, input)[i].key == key
    ensures forall i :: 0 <= i < |PathOps(v4, input)| ==> PathOps(v4, input)[i].key == v4
    ensures forall i :: 0 <= i < |PathOps(v6, input)| ==> PathOps(v6, input)[i].key == v6
  {
  }

  /** The keys taken down with an instance: its own row first. */
  method ScanVrf(plat: Platform, vrf: string) returns (ok: bool, keys: seq<Key>)
    requires plat.Valid()
    modifies plat`calls
    ensures old(plat.calls) <= plat.calls
    ensures ok <==> AllWork(plat.fault, old(plat.calls), plat.calls)
    ensures plat.calls <= old(plat.calls) + 3 && (ok ==> plat.calls == old(plat.calls) + 3)
    ensures ok ==> |keys| > 0 && keys[0] == GlobalKey(vrf)
    ensures ok ==> forall k :: k in keys ==> OfVrf(k, vrf)
    ensures ok ==> forall k :: k in plat.rows && OfVrf(k, vrf) ==> k in keys
  {
    hide Beneath;
    keys := [GlobalKey(vrf)];
    var tables := [GLOBALS_AF, NEIGHBOR, NEIGHBOR_AF];
    for i := 0 to 3
      invariant plat.calls == old(plat.calls) + i && AllWork(plat.fault, old(plat.calls), plat.calls)
      invariant |keys| > 0 && keys[0] == GlobalKey(vrf)
      invariant forall k :: k in keys ==> OfVrf(k, vrf)
      invariant forall k, j :: 0 <= j < i && k in plat.rows && Beneath(k, tables[j] + vrf + "|") ==> k in keys
    {
      var names;
      ok, names := plat.Scan(CONFIG_DB, tables[i] + vrf + "|");
      if !ok { return; }
      forall k ensures k in KeysNamed(CONFIG_DB, names) <==> k in plat.rows && Beneath(k, tables[i] + vrf + "|") {
        ScannedExactly(plat.rows, names, tables[i] + vrf + "|", k);
      }
      keys := keys + KeysNamed(CONFIG_DB, names);
    }
    forall k | k in plat.rows && OfVrf(k, vrf) ensures k in keys {
      assert tables[0] == GLOBALS_AF && tables[1] == NEIGHBOR && tables[2] == NEIGHBOR_AF;
      assert Beneath(k, tables[0] + vrf + "|") || Beneath(k, tables[1] + vrf + "|") || Beneath(k, tables[2] + vrf + "|") || k == GlobalKey(vrf);
    }
    ok := true;
  }

  /** A teardown interrupted after `n` deletions breaks the nesting exactly from the
      first deletion until no neighbor or family row of the VRF is left. */
  lemma InterruptedTeardown(db: Db, vrf: string, keys: seq<Key>, n: nat)
    requires NoEmptyRows(db) && Nested(db) && IsPart(vrf) && n <= |keys|
    requires |keys| > 0 && keys[0] == GlobalKey(vrf) && forall k :: k in keys ==> OfVrf(k, vrf)
    ensures Nested(db - KeySet(keys[..n])) <==>
              n == 0 || forall k :: k in db && OfVrf(k, vrf) && (NeighborOf(k).Some? || AfOf(k).Some?) ==> k in keys[..n]
  {
    hide AfOf, NeighborOf, GlobalKey, NeighborKey, AfKeys, AfPrefix, OfVrf;
    var after, gone := db - KeySet(keys[..n]), keys[..n];
    assert forall k :: k in gone ==> k in keys;
    if n == 0 {
      assert KeySet(keys[..0]) == {} && after == db;
    } else {
      assert gone[0] == GlobalKey(vrf) && GlobalKey(vrf) in gone;
      if forall k :: k in db && OfVrf(k, vrf) && (NeighborOf(k).Some? || AfOf(k).Some?) ==> k in gone {
        forall k | k in after && AfOf(k).Some? ensures NeighborKey(AfOf(k).value.0, AfOf(k).value.1) in after {
          AfParts(k);
          var (v, p, f) := AfOf(k).value;
          OfOtherVrf(vrf, v, p, f);
        }
        forall k | k in after && NeighborOf(k).Some? ensures GlobalKey(NeighborOf(k).value.0) in after {
          NeighborParts(k);
          var (v, p) := NeighborOf(k).value;
          OfOtherVrf(vrf, v, p, "");
        }
      } else {
        var k :| k in db && OfVrf(k, vrf) && (NeighborOf(k).Some? || AfOf(k).Some?) && k !in gone;
        LeftBehind(db, after, vrf, k);
      }
    }
  }

  lemma LeftBehind(db: Db, after: Db, vrf: string, k: Key)
    requires IsPart(vrf) && k in after && OfVrf(k, vrf) && (NeighborOf(k).Some? || AfOf(k).Some?)
    requires GlobalKey(vrf) !in after
    ensures !Nested(after)
  {
    hide AfOf, NeighborOf, GlobalKey, NeighborKey, AfKeys, AfPrefix, OfVrf;
    if AfOf(k).Some? {
      AfParts(k);
      var (v, p, f) := AfOf(k).value;
      OfOtherVrf(vrf, v, p, f);
      SplitNeighbor(v, p);
    } else {
      NeighborParts(k);
      var (v, p) := NeighborOf(k).value;
      OfOtherVrf(vrf, v, p, "");
    }
  }

  lemma MetadataIsLegacy()
    ensures !IsFrr(METADATA)
  {
    assert "DEVICE_METADATA|localhost"[0] == 'D' && "BGP_GLOBALS"[0] == 'B' && "BGP_NEIGHBOR|"[0] == 'B' && "BGP_NEIGHBOR_AF|"[0] == 'B';
  }

  lemma LegacyOps(a: Db, b: Db, key: Key)
    requires !IsFrr(key) && forall k :: k != key ==> RowOf(b, k) == RowOf(a, k)
    ensures LegacyStep(a, b)
  {
  }

  /** The whole legacy global surface. */
  function LegacyAsn(asn: Option<nat>): (op: Op)
    ensures op.key == METADATA && Reaches(op)
  {
    match asn
    case Some(n) => assert "bgp_asn" in map["bgp_asn" := Render(n)]; HSet(METADATA, map["bgp_asn" := Render(n)])
    case None => HDel(METADATA, {"bgp_asn"})
  }

  lemma LegacyAsnSays(db: Db, asn: Option<nat>)
    ensures var before, after := RowOf(db, METADATA), RowOf(Exec(db, LegacyAsn(asn)), METADATA);
      SaysNumber(after, "bgp_asn", asn) && KeepsOthers(before, after, {"bgp_asn"})
  {
    hide Render;
    ExecReads(db, LegacyAsn(asn), METADATA);
    RenderedSays(RowOf(Exec(db, LegacyAsn(asn)), METADATA), "bgp_asn", asn);
  }

  predicate GlobalInputOk(quad: string -> bool, vrf: string, input: GlobalInput) {
    && ValidVrf(vrf)
    && (input.asn.Some? ==> CheckAsn(input.asn.value))
    && CheckTimers(input.keepalive, input.holdtime)
    && (input.routerId.Some? ==> quad(input.routerId.value))
  }

  predicate GlobalAccepted(db: Db, mode: Mode, quad: string -> bool, vrf: string, input: GlobalInput) {
    && GlobalInputOk(quad, vrf, input)
    && match mode
       case Unavailable => false
       case Legacy => vrf == "default" && Expressible(input)
       case Frrcfgd => vrf == "default" || Key(CONFIG_DB, "VRF|" + vrf) in db
  }

  /** The calls that look for the VRF and for the rows to delete. */
  function Lookups(vrf: string): nat {
    if vrf == "default" then 3 else 4
  }

  /** One DEL for each row of the VRF, the instance row first. */
  method Teardown(plat: Platform, vrf: string) returns (r: WriteResult, ghost keys: seq<Key>, ghost gone: nat)
    requires plat.Valid()
    modifies plat
    ensures plat.Valid() && old(plat.calls) <= plat.calls
    ensures r == if AllWork(plat.fault, old(plat.calls), plat.calls) then Done else Redis
    ensures r.Done? ==> forall k :: RowOf(plat.rows, k) == if OfVrf(k, vrf) then map[] else RowOf(old(plat.rows), k)
    ensures gone <= |keys| && plat.rows == old(plat.rows) - KeySet(keys[..gone])
    ensures (keys != [] ==> keys[0] == GlobalKey(vrf)) && forall k :: k in keys ==> OfVrf(k, vrf)
    ensures AllWork(plat.fault, old(plat.calls), old(plat.calls) + 3) ==>
              && (forall k :: k in old(plat.rows) && OfVrf(k, vrf) ==> k in keys)
              && StopsAt(plat.fault, old(plat.calls) + 3, plat.calls, gone, r.Done?)
    ensures IsPart(vrf) && Nested(old(plat.rows)) ==>
              (Nested(plat.rows) <==>
                 gone == 0 || forall k :: k in old(plat.rows) && OfVrf(k, vrf) && (NeighborOf(k).Some? || AfOf(k).Some?) ==> k in keys[..gone])
  {
    hide OfVrf, Nested, NeighborOf, AfOf;
    ghost var db := plat.rows;
    keys, gone := [], 0;
    assert KeySet([]) == {} && db - {} == db;
    var ok, all := ScanVrf(plat, vrf);
    if !ok {
      r := Redis;
      return;
    }
    keys := all;
    ok, gone := DeleteEach(plat, all);
    assert gone == |keys| ==> keys[..gone] == keys;
    if IsPart(vrf) && Nested(db) {
      InterruptedTeardown(db, vrf, keys, gone);
    }
    r := if ok then Done else Redis;
  }

  /** `put_global`. */
  method PutGlobal(plat: Platform, mode: Mode, quad: string -> bool, vrf: string, input: GlobalInput)
    returns (r: WriteResult, ghost keys: seq<Key>, ghost gone: nat)
    requires plat.Valid()
    modifies plat
    ensures plat.Valid()
    ensures r in {Conflict, BadRequest, Unprocessable} ==> plat.rows == old(plat.rows)
    ensures mode.Legacy? ==> LegacyStep(old(plat.rows), plat.rows)
    ensures r.Done? && mode.Legacy? ==> (
              && vrf == "default" && Expressible(input)
              && plat.rows == Exec(old(plat.rows), LegacyAsn(input.asn))
              && SaysNumber(RowOf(plat.rows, METADATA), "bgp_asn", input.asn)
              && KeepsOthers(RowOf(old(plat.rows), METADATA), RowOf(plat.rows, METADATA), {"bgp_asn"})
              && forall k :: k != METADATA ==> RowOf(plat.rows, k) == RowOf(old(plat.rows), k))
    ensures r.Done? && mode.Frrcfgd? && input.asn.Some? ==>
              && plat.rows == ExecAll(old(plat.rows), GlobalOps(vrf, input.asn.value, input))
              && GlobalStep(old(plat.rows), plat.rows)
    // read back, the instance and both path rows are what was asked for, and no other row changed
    ensures r.Done? && mode.Frrcfgd? && input.asn.Some? ==> GlobalSays(old(plat.rows), plat.rows, vrf, input.asn.value, input)
    // a null ASN takes down everything under the VRF
    ensures r.Done? && mode.Frrcfgd? && input.asn == None ==>
              forall k :: RowOf(plat.rows, k) == if OfVrf(k, vrf) then map[] else RowOf(old(plat.rows), k)
    // the instance row first; stopped anywhere, what is left is properly nested exactly before
    // the first deletion and once no neighbor or family row of the VRF is left
    ensures mode.Frrcfgd? && input.asn == None ==>
              && gone <= |keys| && plat.rows == old(plat.rows) - KeySet(keys[..gone])
              && (keys != [] ==> keys[0] == GlobalKey(vrf)) && forall k :: k in keys ==> OfVrf(k, vrf)
    // how far it got, by the first call to fail
    ensures input.asn == None && mode.Frrcfgd? && GlobalAccepted(old(plat.rows), mode, quad, vrf, input)
              && AllWork(plat.fault, old(plat.calls), old(plat.calls) + Lookups(vrf)) ==>
              && (forall k :: k in old(plat.rows) && OfVrf(k, vrf) ==> k in keys)
              && StopsAt(plat.fault, old(plat.calls) + Lookups(vrf), plat.calls, gone, r.Done?)
    ensures mode.Frrcfgd? && input.asn == None && IsPart(vrf) && Nested(old(plat.rows)) ==>
              (Nested(plat.rows) <==>
                 gone == 0 || forall k :: k in old(plat.rows) && OfVrf(k, vrf) && (NeighborOf(k).Some? || AfOf(k).Some?) ==> k in keys[..gone])
    ensures !r.Done? && input.asn.Some? && OneFailureAtMost(plat.fault, old(plat.calls), plat.calls) && mode.Frrcfgd? ==>
              plat.rows == old(plat.rows)
    ensures AllWork(plat.fault, old(plat.calls), plat.calls) ==>
              !r.Redis? && (r.Done? <==> GlobalAccepted(old(plat.rows), mode, quad, vrf, input))
    ensures AllWork(plat.fault, old(plat.calls), plat.calls) && IsPart(vrf) ==> Step(old(plat.rows), plat.rows)
  {
    hide GlobalInputOk, GlobalOps, OfVrf, Expressible, IsFrr, Nested, NeighborOf, AfOf, GlobalSays, SaysNumber, KeepsOthers;
    ghost var db := plat.rows;
    keys, gone := [], 0;
    assert KeySet([]) == {} && db - {} == db;
    assert LegacyStep(db, db);
    if mode.Unavailable? {
      r := Conflict;
      return;
    }
    if !GlobalInputOk(quad, vrf, input) {
      r := BadRequest;
      return;
    }
    if mode.Legacy? {
      if vrf != "default" || !Expressible(input) {
        r := Unprocessable;
        return;
      }
      MetadataIsLegacy();
      var op := LegacyAsn(input.asn);
      var ok := plat.Write(op);
      forall k | k != METADATA ensures RowOf(plat.rows, k) == RowOf(db, k) {
        ExecKeepsOthers(db, op, k);
      }
      LegacyOps(db, plat.rows, METADATA);
      LegacyAsnSays(db, input.asn);
      r := if ok then Done else Redis;
      return;
    }
    if vrf != "default" {
      var ok, found := plat.Exists(Key(CONFIG_DB, "VRF|" + vrf));
      if !ok || !found {
        r := if ok then BadRequest else Redis;
        return;
      }
    }
    if input.asn == None {
      r, keys, gone := Teardown(plat, vrf);
      return;
    }
    GlobalOpsEffect(db, vrf, input.asn.value, input);
    var ok; ghost var forward;
    ok, forward := Apply(plat, GlobalOps(vrf, input.asn.value, input));
    r := if ok then Done else Redis;
  }

  // ------------------------------------------------------------------ neighbors

  datatype Af = Ipv4Unicast | Ipv6Unicast | L2vpnEvpn

  function AfName(af: Af): string {
    match af
    case Ipv4Unicast => "ipv4_unicast"
    case Ipv6Unicast => "ipv6_unicast"
    case L2vpnEvpn => "l2vpn_evpn"
  }

  datatype NeighborInput = NeighborInput(
    asn: nat,
    name: Option<string>,
    peerGroup: Option<string>,
    localAddr: Option<string>,
    keepalive: Option<nat>,
    holdtime: Option<nat>,
    ttl: Option<nat>,
    bfd: bool,
    admin: string,
    afs: seq<Af>)

  /** The families asked for. */
  function AfSet(afs: seq<Af>): set<string> {
    set af | af in afs :: AfName(af)
  }

  /** The same, family by family. */
  predicate Asked(afs: seq<Af>, af: string) {
    || (af == "ipv4_unicast" && Ipv4Unicast in afs)
    || (af == "ipv6_unicast" && Ipv6Unicast in afs)
    || (af == "l2vpn_evpn" && L2vpnEvpn in afs)
  }

  lemma AskedExactly(afs: seq<Af>, af: string)
    ensures af in AfSet(afs) <==> Asked(afs, af)
  {
  }

  predicate ValidPeer(isIp: string -> bool, peer: string) {
    isIp(peer) || "Ethernet" <= peer || "PortChannel" <= peer || "Vlan" <= peer
  }

  predicate NeighborOk(isIp: string -> bool, vrf: string, input: NeighborInput) {
    && ValidVrf(vrf) && CheckAsn(input.asn) && CheckTimers(input.keepalive, input.holdtime)
    && (input.ttl.Some? ==> 1 <= input.ttl.value <= 255)
    && (input.localAddr.Some? ==> isIp(input.localAddr.value))
  }

  function PeerFields(input: NeighborInput): Row {
    map["asn" := Render(input.asn), "bfd" := Flag(input.bfd), "admin_status" := input.admin]
  }

  function PeerOps(key: Key, input: NeighborInput): seq<Op> {
    [HSet(key, PeerFields(input))] + PatchField(key, "name", Some(input.name))
    + PatchField(key, "peer_group_name", Some(input.peerGroup)) + PatchField(key, "local_addr", Some(input.localAddr))
    + PatchField(key, "keepalive", Number(input.keepalive)) + PatchField(key, "holdtime", Number(input.holdtime))
    + PatchField(key, "ebgp_multihop_ttl", Number(input.ttl))
  }

  /** The neighbor row after an upsert. */
  function PeerRow(row: Row, input: NeighborInput): Row {
    var named := PatchedField(row + PeerFields(input), "name", Some(input.name));
    var grouped := PatchedField(named, "peer_group_name", Some(input.peerGroup));
    var addressed := PatchedField(grouped, "local_addr", Some(input.localAddr));
    var kept := PatchedField(addressed, "keepalive", Number(input.keepalive));
    var held := PatchedField(kept, "holdtime", Number(input.holdtime));
    PatchedField(held, "ebgp_multihop_ttl", Number(input.ttl))
  }

  lemma PeerOpsEffect(db: Db, key: Key, input: NeighborInput)
    ensures RowOf(ExecAll(db, PeerOps(key, input)), key) == PeerRow(RowOf(db, key), input)
  {
    hide PatchField, PatchedField, Number, PeerFields, RowOf, ExecAll;
    var first := HSet(key, PeerFields(input));
    var a := [first] + PatchField(key, "name", Some(input.name));
    var b := a + PatchField(key, "peer_group_name", Some(input.peerGroup));
    var c := b + PatchField(key, "local_addr", Some(input.localAddr));
    var d := c + PatchField(key, "keepalive", Number(input.keepalive));
    var e := d + PatchField(key, "holdtime", Number(input.holdtime));
    ExecOne(db, first);
    ExecReads(db, first, key);
    PatchFieldEffect(db, key, "name", Some(input.name), [first]);
    PatchFieldEffect(db, key, "peer_group_name", Some(input.peerGroup), a);
    PatchFieldEffect(db, key, "local_addr", Some(input.localAddr), b);
    PatchFieldEffect(db, key, "keepalive", Number(input.keepalive), c);
    PatchFieldEffect(db, key, "holdtime", Number(input.holdtime), d);
    PatchFieldEffect(db, key, "ebgp_multihop_ttl", Number(input.ttl), e);
  }

  /** What an upsert says of the neighbor, read back from its row. */
  ghost predicate PeerSays(before: Row, after: Row, input: NeighborInput) {
    && SaysNumber(after, "asn", Some(input.asn)) && SaysBool(after, "bfd", input.bfd) && Raw(after, "admin_status") == Some(input.admin)
    && Raw(after, "name") == input.name && Raw(after, "peer_group_name") == input.peerGroup && Raw(after, "local_addr") == input.localAddr
    && SaysNumber(after, "keepalive", input.keepalive) && SaysNumber(after, "holdtime", input.holdtime)
    && SaysNumber(after, "ebgp_multihop_ttl", input.ttl)
    && KeepsOthers(before, after, {"asn", "bfd", "admin_status", "name", "peer_group_name", "local_addr", "keepalive", "holdtime", "ebgp_multihop_ttl"})
  }

  lemma PeerNamesDiffer()
    ensures "asn"[1] == 's' && "admin_status"[1] == 'd' && "bfd"[0] == 'b' && "name"[0] == 'n' && "peer_group_name"[0] == 'p'
    ensures "local_addr"[0] == 'l' && "keepalive"[0] == 'k' && "holdtime"[0] == 'h' && "ebgp_multihop_ttl"[0] == 'e' && "asn"[0] == 'a' == "admin_status"[0]
  {
  }

  lemma PeerStartSays(row: Row, input: NeighborInput)
    ensures var start := row + PeerFields(input);
      && Raw(start, "asn") == Some(Render(input.asn)) && Raw(start, "bfd") == Some(Flag(input.bfd))
      && Raw(start, "admin_status") == Some(input.admin)
      && forall f :: f !in {"asn", "bfd", "admin_status"} ==> Raw(start, f) == Raw(row, f)
  {
    PeerNamesDiffer();
    hide Render, Flag;
  }

  lemma PeerRowSays(row: Row, input: NeighborInput)
    ensures PeerSays(row, PeerRow(row, input), input)
  {
    PeerNamesDiffer();
    hide PatchedField, Render, Raw, PeerFields, SaysNumber, SaysBool;
    var start := row + PeerFields(input);
    var after := PeerRow(row, input);
    PeerStartSays(row, input);
    SixPatched(start, "name", Some(input.name), "peer_group_name", Some(input.peerGroup), "local_addr", Some(input.localAddr),
               "keepalive", Number(input.keepalive), "holdtime", Number(input.holdtime), "ebgp_multihop_ttl", Number(input.ttl));
    RenderedSays(after, "asn", Some(input.asn));
    FlagSays(after, "bfd", input.bfd);
    RenderedSays(after, "keepalive", input.keepalive);
    RenderedSays(after, "holdtime", input.holdtime);
    RenderedSays(after, "ebgp_multihop_ttl", input.ttl);
  }

  lemma PeerStays(row: Row, input: NeighborInput)
    ensures PeerRow(row, input) != map[]
  {
    hide PatchedField;
    assert "asn"[0] == 'a' && "name"[0] == 'n' && "peer_group_name"[0] == 'p' && "local_addr"[0] == 'l' && "keepalive"[0] == 'k'
      && "holdtime"[0] == 'h' && "ebgp_multihop_ttl"[0] == 'e';
    var start := row + PeerFields(input);
    assert "asn" in start;
    var named := PatchedField(start, "name", Some(input.name));
    var grouped := PatchedField(named, "peer_group_name", Some(input.peerGroup));
    var addressed := PatchedField(grouped, "local_addr", Some(input.localAddr));
    var kept := PatchedField(addressed, "keepalive", Number(input.keepalive));
    var held := PatchedField(kept, "holdtime", Number(input.holdtime));
    PatchedFieldOthers(start, "name", Some(input.name), "asn");
    PatchedFieldOthers(named, "peer_group_name", Some(input.peerGroup), "asn");
    PatchedFieldOthers(grouped, "local_addr", Some(input.localAddr), "asn");
    PatchedFieldOthers(addressed, "keepalive", Number(input.keepalive), "asn");
    PatchedFieldOthers(kept, "holdtime", Number(input.holdtime), "asn");
    PatchedFieldOthers(held, "ebgp_multihop_ttl", Number(input.ttl), "asn");
  }

  /** A family row that is on, its other fields kept. */
  ghost predicate FamilyOn(before: Row, after: Row) {
    SaysBool(after, "admin_status", true) && KeepsOthers(before, after, {"admin_status"})
  }

  lemma FamilyOnSays(row: Row)
    ensures FamilyOn(row, row + AF_ON)
  {
    FlagSays(row + AF_ON, "admin_status", true);
  }

  const AF_ON: Row := map["admin_status" := "true"]

  function AfRows(afs: set<string>): map<string, Row> {
    map af | af in afs :: AF_ON
  }

  lemma AfKeysDiffer(vrf: string, peer: string, on: set<string>)
    ensures Injective(AfKeys(vrf, peer), on)
  {
    forall x, y | x in on && y in on && AfKeys(vrf, peer)(x) == AfKeys(vrf, peer)(y) ensures x == y {
      var p := AfPrefix(vrf, peer);
      assert (p + x)[|p|..] == x && (p + y)[|p|..] == y;
    }
  }

  /** The families that have a row: `keys` and `strip_prefix`, a failed scan reading as
      none. */
  method CurrentAfs(plat: Platform, vrf: string, peer: string) returns (afs: set<string>)
    requires plat.Valid()
    modifies plat`calls
    ensures old(plat.calls) < plat.calls
    ensures AllWork(plat.fault, old(plat.calls), plat.calls) ==> forall af :: af in afs <==> AfKeys(vrf, peer)(af) in plat.rows
  {
    var p := AfPrefix(vrf, peer);
    var _, names := plat.Scan(CONFIG_DB, p);
    afs := {};
    for i := 0 to |names|
      invariant plat.calls == old(plat.calls) + 1
      invariant forall af :: af in afs <==> p + af in names[..i]
    {
      assert names[..i + 1] == names[..i] + [names[i]];
      if p <= names[i] {
        assert names[i] == p + names[i][|p|..];
        forall af | p + af == names[i] ensures af == names[i][|p|..] {
          assert (p + af)[|p|..] == af;
        }
        afs := afs + {names[i][|p|..]};
      }
    }
    assert names[..|names|] == names;
    if AllWork(plat.fault, old(plat.calls), plat.calls) {
      assert plat.fault(old(plat.calls)) == Works;
      forall af ensures p + af in names <==> AfKeys(vrf, peer)(af) in plat.rows {
        assert p <= p + af;
      }
    }
  }

  lemma PeerOpsOnKey(key: Key, input: NeighborInput)
    ensures forall i :: 0 <= i < |PeerOps(key, input)| ==> PeerOps(key, input)[i].key == key
  {
  }

  /** An upsert leaves exactly the requested neighbor row and, once the current families
      were read, exactly the requested families. */
  lemma UpsertEffect(db: Db, vrf: string, peer: string, input: NeighborInput, current: set<string>, afOps: seq<Op>)
    requires NoEmptyRows(db) && GlobalKey(vrf) in db
    requires CarriesOut(afOps, AfKeys(vrf, peer), current - AfSet(input.afs), AfRows(AfSet(input.afs)))
    ensures var after := ExecAll(db, PeerOps(NeighborKey(vrf, peer), input) + afOps);
      && RowOf(after, NeighborKey(vrf, peer)) == PeerRow(RowOf(db, NeighborKey(vrf, peer)), input)
      && PeerSays(RowOf(db, NeighborKey(vrf, peer)), RowOf(after, NeighborKey(vrf, peer)), input)
      && UpsertOf(db, after, vrf, peer)
      && (forall af :: Asked(input.afs, af) ==> FamilyOn(RowOf(db, AfKeys(vrf, peer)(af)), RowOf(after, AfKeys(vrf, peer)(af))))
      && ((forall af :: af in current <==> AfKeys(vrf, peer)(af) in db) ==>
            forall af :: AfKeys(vrf, peer)(af) in after <==> Asked(input.afs, af))
  {
    hide PeerOps, PeerRow, PeerSays, FamilyOn, Asked, AF_ON, GlobalKey, NeighborKey, AfKeys, Beneath, AfSet, CarriesOut, Injective;
    var key := NeighborKey(vrf, peer);
    var middle := ExecAll(db, PeerOps(key, input));
    var after := ExecAll(middle, afOps);
    var dels, sets := current - AfSet(input.afs), AfRows(AfSet(input.afs));
    ExecAllAppend(db, PeerOps(key, input), afOps);
    PeerOpsOnKey(key, input);
    PeerOpsEffect(db, key, input);
    PeerStays(RowOf(db, key), input);
    PeerRowSays(RowOf(db, key), input);
    forall af ensures AfKeys(vrf, peer)(af) != key && Beneath(AfKeys(vrf, peer)(af), AfPrefix(vrf, peer)) {
      AfKeyApart(vrf, peer, af);
    }
    OthersUntouched(middle, afOps, AfKeys(vrf, peer), dels, sets, key);
    assert key in after;
    var touched := k => k == NeighborKey(vrf, peer) || Beneath(k, AfPrefix(vrf, peer));
    forall k | !touched(k) ensures RowOf(after, k) == RowOf(db, k) {
      Untouched(db, PeerOps(key, input), k);
      OthersUntouched(middle, afOps, AfKeys(vrf, peer), dels, sets, k);
    }
    assert SameBut(db, after, k => k == NeighborKey(vrf, peer) || Beneath(k, AfPrefix(vrf, peer)));
    forall af | Asked(input.afs, af) ensures FamilyOn(RowOf(db, AfKeys(vrf, peer)(af)), RowOf(after, AfKeys(vrf, peer)(af))) {
      AskedExactly(input.afs, af);
      Untouched(db, PeerOps(key, input), AfKeys(vrf, peer)(af));
      FamilyCarried(middle, afOps, vrf, peer, current, AfSet(input.afs), af);
    }
    if forall af :: af in current <==> AfKeys(vrf, peer)(af) in db {
      ExecAllNoEmptyRows(db, PeerOps(key, input));
      ExecAllNoEmptyRows(middle, afOps);
      forall af ensures AfKeys(vrf, peer)(af) in after <==> Asked(input.afs, af) {
        AskedExactly(input.afs, af);
        AfConverged(db, middle, after, vrf, peer, key, PeerOps(key, input), afOps, current, AfSet(input.afs), af);
      }
    }
  }

  lemma FamilyCarried(db: Db, afOps: seq<Op>, vrf: string, peer: string, current: set<string>, want: set<string>, af: string)
    requires CarriesOut(afOps, AfKeys(vrf, peer), current - want, AfRows(want)) && af in want
    ensures FamilyOn(RowOf(db, AfKeys(vrf, peer)(af)), RowOf(ExecAll(db, afOps), AfKeys(vrf, peer)(af)))
  {
    hide AfKeys, CarriesOut, Injective, FamilyOn, AF_ON;
    AfKeysDiffer(vrf, peer, (current - want) + AfRows(want).Keys + {af});
    CarriedOut(db, afOps, AfKeys(vrf, peer), current - want, AfRows(want), af);
    FamilyOnSays(RowOf(db, AfKeys(vrf, peer)(af)));
  }

  lemma AfKeyApart(vrf: string, peer: string, af: string)
    ensures AfKeys(vrf, peer)(af) != NeighborKey(vrf, peer) && Beneath(AfKeys(vrf, peer)(af), AfPrefix(vrf, peer))
  {
    assert "BGP_NEIGHBOR|"[12] == '|' && "BGP_NEIGHBOR_AF|"[12] == '_';
    assert AfKeys(vrf, peer)(af).name[12] == '_' && NeighborKey(vrf, peer).name[12] == '|';
    assert AfPrefix(vrf, peer) <= AfPrefix(vrf, peer) + af;
  }

  lemma AfConverged(db: Db, middle: Db, after: Db, vrf: string, peer: string, key: Key, ops: seq<Op>, afOps: seq<Op>,
                    current: set<string>, want: set<string>, af: string)
    requires middle == ExecAll(db, ops) && after == ExecAll(middle, afOps) && NoEmptyRows(middle) && NoEmptyRows(after)
    requires CarriesOut(afOps, AfKeys(vrf, peer), current - want, AfRows(want))
    requires forall i :: 0 <= i < |ops| ==> ops[i].key == key
    requires AfKeys(vrf, peer)(af) != key
    requires af in current <==> AfKeys(vrf, peer)(af) in db
    ensures AfKeys(vrf, peer)(af) in after <==> af in want
  {
    hide AfKeys, CarriesOut, Injective;
    var k := AfKeys(vrf, peer)(af);
    Untouched(db, ops, k);
    AfKeysDiffer(vrf, peer, (current - want) + AfRows(want).Keys + {af});
    CarriedOut(middle, afOps, AfKeys(vrf, peer), current - want, AfRows(want), af);
    assert "admin_status" in RowOf(middle, k) + AF_ON;
  }

  // ------------------------------------------------------ legacy-mode neighbors

  function LegacyFields(input: NeighborInput): Row {
    map["asn" := Render(input.asn), "admin_status" := input.admin]
  }

  function LegacyPeerOps(key: Key, input: NeighborInput): seq<Op> {
    [HSet(key, LegacyFields(input))] + PatchField(key, "name", Some(input.name)) + PatchField(key, "local_addr", Some(input.localAddr))
    + PatchField(key, "keepalive", Number(input.keepalive)) + PatchField(key, "holdtime", Number(input.holdtime))
  }

  /** What a legacy upsert says of the neighbor, read back from its flat row. */
  ghost predicate LegacySays(before: Row, after: Row, input: NeighborInput) {
    && SaysNumber(after, "asn", Some(input.asn)) && Raw(after, "admin_status") == Some(input.admin)
    && Raw(after, "name") == input.name && Raw(after, "local_addr") == input.localAddr
    && SaysNumber(after, "keepalive", input.keepalive) && SaysNumber(after, "holdtime", input.holdtime)
    && KeepsOthers(before, after, {"asn", "admin_status", "name", "local_addr", "keepalive", "holdtime"})
  }

  lemma LegacyStartSays(row: Row, input: NeighborInput)
    ensures var start := row + LegacyFields(input);
      && Raw(start, "asn") == Some(Render(input.asn)) && Raw(start, "admin_status") == Some(input.admin)
      && forall f :: f !in {"asn", "admin_status"} ==> Raw(start, f) == Raw(row, f)
  {
    PeerNamesDiffer();
    hide Render;
  }

  lemma LegacyOpsSay(db: Db, key: Key, input: NeighborInput)
    ensures LegacySays(RowOf(db, key), RowOf(ExecAll(db, LegacyPeerOps(key, input)), key), input)
  {
    PeerNamesDiffer();
    hide PatchedField, PatchField, Render, Raw, LegacyFields, RowOf, ExecAll;
    var first := HSet(key, LegacyFields(input));
    var a := [first] + PatchField(key, "name", Some(input.name));
    var b := a + PatchField(key, "local_addr", Some(input.localAddr));
    var c := b + PatchField(key, "keepalive", Number(input.keepalive));
    ExecOne(db, first);
    ExecReads(db, first, key);
    PatchFieldEffect(db, key, "name", Some(input.name), [first]);
    PatchFieldEffect(db, key, "local_addr", Some(input.localAddr), a);
    PatchFieldEffect(db, key, "keepalive", Number(input.keepalive), b);
    PatchFieldEffect(db, key, "holdtime", Number(input.holdtime), c);
    var start := RowOf(db, key) + LegacyFields(input);
    var after := RowOf(ExecAll(db, LegacyPeerOps(key, input)), key);
    LegacyStartSays(RowOf(db, key), input);
    FourPatched(start, "name", Some(input.name), "local_addr", Some(input.localAddr),
                "keepalive", Number(input.keepalive), "holdtime", Number(input.holdtime));
    hide SaysNumber;
    RenderedSays(after, "asn", Some(input.asn));
    RenderedSays(after, "keepalive", input.keepalive);
    RenderedSays(after, "holdtime", input.holdtime);
  }

  lemma LegacyPeerOpsOnKey(key: Key, input: NeighborInput)
    ensures forall i :: 0 <= i < |LegacyPeerOps(key, input)| ==> LegacyPeerOps(key, input)[i].key == key
  {
  }

  /** A flat neighbor key is a per-VRF one exactly when the peer splits in two. */
  lemma FlatKeyExactly(peer: string)
    ensures IsFrr(LegacyKey(peer)) <==> NeighborOf(LegacyKey(peer)).Some?
    ensures Lacks(peer, '|') ==> !IsFrr(LegacyKey(peer))
  {
    KeyTables("", peer, "");
    if Lacks(peer, '|') {
      assert LegacyKey(peer).name[|NEIGHBOR|..] == peer;
      assert FieldLen(peer, '|') == |peer|;
    }
  }

  predicate LegacyExpressible(peer: string, input: NeighborInput) {
    && input.peerGroup == None && input.ttl == None && !input.bfd
    && (input.afs == [] || input.afs == [if ':' in peer then Ipv6Unicast else Ipv4Unicast])
  }

  predicate LegacyAccepted(db: Db, isIp: string -> bool, vrf: string, peer: string, input: NeighborInput, creating: bool) {
    && vrf == "default" && isIp(peer) && LegacyExpressible(peer, input)
    && Field(RowOf(db, METADATA), "bgp_asn").Some?
    && (creating <==> LegacyKey(peer) !in db)
  }

  predicate NeighborAccepted(db: Db, mode: Mode, isIp: string -> bool, vrf: string, peer: string, input: NeighborInput, creating: bool) {
    && NeighborOk(isIp, vrf, input)
    && match mode
       case Unavailable => false
       case Legacy => LegacyAccepted(db, isIp, vrf, peer, input, creating)
       case Frrcfgd =>
         && ValidPeer(isIp, peer) && GlobalKey(vrf) in db && (creating <==> NeighborKey(vrf, peer) !in db)
         && input.peerGroup != Some("")
  }

  method UpsertLegacy(plat: Platform, isIp: string -> bool, vrf: string, peer: string, input: NeighborInput, creating: bool)
    returns (r: WriteResult)
    requires plat.Valid()
    modifies plat
    ensures plat.Valid() && old(plat.calls) <= plat.calls
    ensures r.Done? ==>
              && vrf == "default" && isIp(peer) && LegacyExpressible(peer, input)
              && plat.rows == ExecAll(old(plat.rows), LegacyPeerOps(LegacyKey(peer), input))
              && LegacySays(RowOf(old(plat.rows), LegacyKey(peer)), RowOf(plat.rows, LegacyKey(peer)), input)
              && (creating <==> LegacyKey(peer) !in old(plat.rows))
    ensures forall k :: k != LegacyKey(peer) ==> RowOf(plat.rows, k) == RowOf(old(plat.rows), k)
    ensures !r.Done? && OneFailureAtMost(plat.fault, old(plat.calls), plat.calls) ==> plat.rows == old(plat.rows)
    ensures AllWork(plat.fault, old(plat.calls), plat.calls) ==>
              !r.Redis? && (r.Done? <==> LegacyAccepted(old(plat.rows), isIp, vrf, peer, input, creating))
    ensures !isIp(peer) ==> plat.rows == old(plat.rows)
  {
    hide LegacyPeerOps, LegacyExpressible, LegacyKey, LegacySays;
    if vrf != "default" { return Unprocessable; }
    if !isIp(peer) { return BadRequest; }
    if !LegacyExpressible(peer, input) { return Unprocessable; }
    var _, meta := plat.HGetAll(METADATA);
    if Field(meta, "bgp_asn") == None { return Conflict; }
    var key := LegacyKey(peer);
    var ok, found := plat.Exists(key);
    if !ok { return Redis; }
    if creating && found { return BadRequest; }
    if !creating && !found { return NotFound; }
    LegacyPeerOpsOnKey(key, input);
    LegacyOpsSay(plat.rows, key, input);
    ghost var forward;
    ok, forward := Apply(plat, LegacyPeerOps(key, input));
    r := if ok then Done else Redis;
  }

  /** `upsert_neighbor`, for create and put alike. */
  method UpsertNeighbor(plat: Platform, mode: Mode, isIp: string -> bool, vrf: string, peer: string, input: NeighborInput, creating: bool)
    returns (r: WriteResult)
    requires plat.Valid()
    modifies plat
    ensures plat.Valid() && old(plat.calls) <= plat.calls
    ensures r.Done? ==> NeighborOk(isIp, vrf, input)
    ensures r.Done? && mode.Frrcfgd? ==>
              && ValidPeer(isIp, peer) && GlobalKey(vrf) in old(plat.rows)
              && (creating <==> NeighborKey(vrf, peer) !in old(plat.rows))
              && RowOf(plat.rows, NeighborKey(vrf, peer)) == PeerRow(RowOf(old(plat.rows), NeighborKey(vrf, peer)), input)
              && UpsertOf(old(plat.rows), plat.rows, vrf, peer)
    // read back, the neighbor is what was asked for and the desired families are on
    ensures r.Done? && mode.Frrcfgd? ==>
              && PeerSays(RowOf(old(plat.rows), NeighborKey(vrf, peer)), RowOf(plat.rows, NeighborKey(vrf, peer)), input)
              && forall af :: Asked(input.afs, af) ==>
                   FamilyOn(RowOf(old(plat.rows), AfKeys(vrf, peer)(af)), RowOf(plat.rows, AfKeys(vrf, peer)(af)))
    // and no family else has a row
    ensures r.Done? && mode.Frrcfgd? && AllWork(plat.fault, old(plat.calls), plat.calls) ==>
              forall af :: AfKeys(vrf, peer)(af) in plat.rows <==> Asked(input.afs, af)
    ensures r.Done? && mode.Legacy? ==> LegacySays(RowOf(old(plat.rows), LegacyKey(peer)), RowOf(plat.rows, LegacyKey(peer)), input)
    ensures mode.Legacy? && (isIp(peer) ==> Lacks(peer, '|')) ==> LegacyStep(old(plat.rows), plat.rows)
    ensures !r.Done? && OneFailureAtMost(plat.fault, old(plat.calls), plat.calls) ==> plat.rows == old(plat.rows)
    ensures AllWork(plat.fault, old(plat.calls), plat.calls) ==>
              !r.Redis? && (r.Done? <==> NeighborAccepted(old(plat.rows), mode, isIp, vrf, peer, input, creating))
    ensures AllWork(plat.fault, old(plat.calls), plat.calls) && IsPart(vrf) && IsPart(peer) ==> Step(old(plat.rows), plat.rows)
  {
    hide LegacyAccepted, NeighborOk, ValidPeer, NeighborKey, GlobalKey, AfKeys, PeerOps, PeerRow, UpsertOf, AfSet, IsFrr, CarriesOut, Injective, LegacyKey,
         LegacyExpressible, LegacyPeerOps, PeerSays, LegacySays, FamilyOn, Asked;
    ghost var db := plat.rows;
    assert LegacyStep(db, db);
    if mode.Unavailable? { return Conflict; }
    if !NeighborOk(isIp, vrf, input) { return BadRequest; }
    if mode.Legacy? {
      FlatKeyExactly(peer);
      r := UpsertLegacy(plat, isIp, vrf, peer, input, creating);
      if Lacks(peer, '|') {
        LegacyOps(db, plat.rows, LegacyKey(peer));
      }
      return;
    }
    if !ValidPeer(isIp, peer) { return BadRequest; }
    var ok, found := plat.Exists(NeighborKey(vrf, peer));
    if !ok { return Redis; }
    if creating && found { return BadRequest; }
    if !creating && !found { return NotFound; }
    ok, found := plat.Exists(GlobalKey(vrf));
    if !ok { return Redis; }
    if !found || input.peerGroup == Some("") { return BadRequest; }
    var current := CurrentAfs(plat, vrf, peer);
    AfKeysDiffer(vrf, peer, (current - AfSet(input.afs)) + AfRows(AfSet(input.afs)).Keys);
    assert AF_ON != map[] by { assert "admin_status" in AF_ON; }
    var afOps := CarryOut(AfKeys(vrf, peer), current - AfSet(input.afs), AfRows(AfSet(input.afs)));
    UpsertEffect(db, vrf, peer, input, current, afOps);
    ghost var forward;
    ok, forward := Apply(plat, PeerOps(NeighborKey(vrf, peer), input) + afOps);
    r := if ok then Done else Redis;
  }

  // -------------------------------------------------------------------- delete

  /** `delete_neighbor`: in legacy mode the peer is not checked at all. */
  method DeleteNeighbor(plat: Platform, mode: Mode, vrf: string, peer: string) returns (r: WriteResult)
    requires plat.Valid()
    modifies plat
    ensures plat.Valid() && old(plat.calls) <= plat.calls
    ensures r in {Conflict, Unprocessable, NotFound} ==> plat.rows == old(plat.rows)
    ensures r.Done? && mode.Legacy? ==> LegacyKey(peer) in old(plat.rows) && plat.rows == old(plat.rows) - {LegacyKey(peer)}
    // a legacy delete leaves the frrcfgd rows alone exactly when the peer is no pair
    ensures r.Done? && mode.Legacy? ==> (LegacyStep(old(plat.rows), plat.rows) <==> NeighborOf(LegacyKey(peer)) == None)
    ensures mode.Legacy? && Lacks(peer, '|') ==> LegacyStep(old(plat.rows), plat.rows)
    ensures r.Done? && mode.Frrcfgd? ==>
              forall k :: RowOf(plat.rows, k) == if k == NeighborKey(vrf, peer) || Beneath(k, AfPrefix(vrf, peer)) then map[] else RowOf(old(plat.rows), k)
    // even a failure half-way leaves no family row without its neighbor
    ensures mode.Frrcfgd? ==> DeleteOf(old(plat.rows), plat.rows, vrf, peer)
    ensures AllWork(plat.fault, old(plat.calls), plat.calls) ==>
              r == match mode
                   case Unavailable => Conflict
                   case Legacy => if vrf != "default" then Unprocessable else if LegacyKey(peer) in old(plat.rows) then Done else NotFound
                   case Frrcfgd => if NeighborKey(vrf, peer) in old(plat.rows) then Done else NotFound
    ensures AllWork(plat.fault, old(plat.calls), plat.calls) && IsPart(vrf) && IsPart(peer) ==> Step(old(plat.rows), plat.rows)
  {
    assert DeleteOf(plat.rows, plat.rows, vrf, peer);
    hide IsFrr, Beneath, NeighborKey, LegacyKey, DeleteOf;
    ghost var db := plat.rows;
    assert LegacyStep(db, db);
    if mode.Unavailable? { return Conflict; }
    if mode.Legacy? {
      if vrf != "default" { return Unprocessable; }
      var ok, found := plat.Exists(LegacyKey(peer));
      if !ok || !found { return if ok then NotFound else Redis; }
      ok := plat.Write(Del(LegacyKey(peer)));
      FlatKeyExactly(peer);
      LegacyDelete(db, plat.rows, peer);
      return if ok then Done else Redis;
    }
    var ok, found := plat.Exists(NeighborKey(vrf, peer));
    if !ok || !found { return if ok then NotFound else Redis; }
    var names;
    ok, names := plat.Scan(CONFIG_DB, AfPrefix(vrf, peer));
    if !ok { return Redis; }
    var keys := KeysNamed(CONFIG_DB, names) + [NeighborKey(vrf, peer)];
    forall k ensures k in KeysNamed(CONFIG_DB, names) <==> k in db && Beneath(k, AfPrefix(vrf, peer)) {
      ScannedExactly(db, names, AfPrefix(vrf, peer), k);
    }
    ghost var gone;
    ok, gone := DeleteEach(plat, keys);
    PartialDelete(db, vrf, peer, KeysNamed(CONFIG_DB, names), gone);
    assert gone == |keys| ==> keys[..gone] == keys;
    r := if ok then Done else Redis;
  }

  lemma LegacyDelete(a: Db, b: Db, peer: string)
    requires NoEmptyRows(a) && LegacyKey(peer) in a && (b == a || b == a - {LegacyKey(peer)})
    ensures !IsFrr(LegacyKey(peer)) ==> LegacyStep(a, b)
    ensures b != a && IsFrr(LegacyKey(peer)) ==> !LegacyStep(a, b)
  {
    hide IsFrr, LegacyKey;
    var touched := k => !IsFrr(k);
    if b != a && IsFrr(LegacyKey(peer)) {
      assert !touched(LegacyKey(peer)) && RowOf(b, LegacyKey(peer)) != RowOf(a, LegacyKey(peer));
    }
  }

  lemma PartialDelete(db: Db, vrf: string, peer: string, afs: seq<Key>, n: nat)
    requires n <= |afs| + 1
    requires forall k :: k in afs <==> k in db && Beneath(k, AfPrefix(vrf, peer))
    ensures DeleteOf(db, db - KeySet((afs + [NeighborKey(vrf, peer)])[..n]), vrf, peer)
  {
    hide Beneath, NeighborKey;
    var keys := afs + [NeighborKey(vrf, peer)];
    var after := db - KeySet(keys[..n]);
    var touched := k => k == NeighborKey(vrf, peer) || Beneath(k, AfPrefix(vrf, peer));
    forall k | !touched(k) ensures RowOf(after, k) == RowOf(db, k) {
      if k in keys[..n] {
        assert k in keys;
      }
    }
    assert SameBut(db, after, k => k == NeighborKey(vrf, peer) || Beneath(k, AfPrefix(vrf, peer)));
    if n == |keys| {
      assert keys[..n] == keys;
      forall k | k in after ensures !Beneath(k, AfPrefix(vrf, peer)) {
        assert k !in keys;
      }
    } else {
      assert keys[..n] == afs[..n];
      NeighborNotUnder(vrf, peer);
      assert NeighborKey(vrf, peer) in keys[..n] ==> NeighborKey(vrf, peer) in afs;
    }
  }

  lemma NeighborNotUnder(vrf: string, peer: string)
    ensures !Beneath(NeighborKey(vrf, peer), AfPrefix(vrf, peer))
  {
    NotUnderAf(vrf, peer, vrf, peer);
  }
}
