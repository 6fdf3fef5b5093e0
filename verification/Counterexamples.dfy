/** Inputs on which a natural claim about the agent fails, beside the lemmas that say when
    exactly it holds.  Two more stand in `VrfWitness` and `StpWitness`, one in
    `VlanUpdate`. */
module Counterexamples {
  import opened Common
  import opened Text
  import opened Store
  import opened Keys
  import opened Vlans
  import Policy
  import PolicyRoundTrip
  import PolicyTheorems
  import Stp
  import Bgp
  import BgpCalls
  import AclWrites
  import Fdb
  import VlanWrites

  // ------------------------------------------------------------- routing policy

  /** A prefix list named like a bound keyword, with that bound. */
  const GE_RULE := Policy.PrefixRule(10, "permit", "10.0.0.0/8", Some(24), None)
  const GE_LIST := Policy.PrefixList("ge", "ipv4", [GE_RULE])

  lemma GeListReadsOtherwise()
    ensures PolicyTheorems.ValidPolicy([GE_LIST], [])
    ensures Policy.ParsePolicy(Unlines(PolicyTheorems.Printed([GE_LIST], []))) != Policy.Running([GE_LIST], [], [])
  {
    assert PolicyRoundTrip.ValidRule(GE_RULE) by {
      assert GE_RULE.prefix[8] == '/';
      assert IsWord(GE_RULE.prefix);
    }
    assert PolicyRoundTrip.ValidList(GE_LIST);
    var lists := [GE_LIST];
    assert !PolicyTheorems.CleanRule(lists[0].name, lists[0].rules[0]);
    assert !PolicyTheorems.CleanPolicy(lists, []);
    PolicyTheorems.RoundTripExactly([GE_LIST], []);
  }

  // -------------------------------------------------------- interrupted deletions

  /** Redis works for the first calls and refuses every later one. */
  function UpTo(n: nat): nat -> Fault {
    (c: nat) => if c < n then Works else Refused
  }

  const INSTANCE := Bgp.GlobalKey("default")
  const NEIGHBOR := Bgp.NeighborKey("default", "10.0.0.1")

  /** One BGP instance with one neighbor. */
  const ONE_NEIGHBOR: Db := map[INSTANCE := map["local_asn" := "65000"], NEIGHBOR := map["asn" := "65001"]]

  const NO_BGP := BgpCalls.GlobalInput(None, None, None, None, false, None, None)

  lemma NeighborFacts(quad: string -> bool)
    ensures NoEmptyRows(ONE_NEIGHBOR) && Bgp.Nested(ONE_NEIGHBOR) && NEIGHBOR in ONE_NEIGHBOR && INSTANCE != NEIGHBOR
    ensures Bgp.NeighborOf(NEIGHBOR).Some? && Bgp.OfVrf(NEIGHBOR, "default") && IsPart("default")
    ensures BgpCalls.GlobalAccepted(ONE_NEIGHBOR, BgpCalls.Frrcfgd, quad, "default", NO_BGP)
  {
    assert "local_asn" in map["local_asn" := "65000"] && "asn" in map["asn" := "65001"];
    OneNeighbor("default", "10.0.0.1", map["local_asn" := "65000"], map["asn" := "65001"]);
  }

  lemma OneNeighbor(vrf: string, peer: string, a: Row, b: Row)
    requires IsPart(vrf) && peer != "" && a != map[] && b != map[]
    ensures var i, n := Bgp.GlobalKey(vrf), Bgp.NeighborKey(vrf, peer);
      var db: Db := map[i := a, n := b];
      i != n && NoEmptyRows(db) && Bgp.Nested(db) && Bgp.NeighborOf(n).Some? && Bgp.OfVrf(n, vrf)
  {
    Bgp.KeyTables(vrf, peer, "");
    Bgp.SplitNeighbor(vrf, peer);
    assert Bgp.NEIGHBOR + vrf + "|" <= Bgp.NeighborKey(vrf, peer).name;
    hide Bgp.NeighborOf, Bgp.AfOf, Bgp.GlobalKey, Bgp.NeighborKey;
  }

  /** Taking the instance down, redis failing after the first deletion. */
  method TeardownOrphansNeighbor(quad: string -> bool) returns (plat: Platform, r: WriteResult)
    ensures Bgp.Nested(ONE_NEIGHBOR) && !r.Done? && !Bgp.Nested(plat.rows)
  {
    NeighborFacts(quad);
    assert BgpCalls.Lookups("default") == 3 && NO_BGP.asn == None;
    hide INSTANCE, NEIGHBOR, ONE_NEIGHBOR, NO_BGP, Bgp.Nested, Bgp.NeighborOf, Bgp.AfOf, Bgp.OfVrf, BgpCalls.GlobalAccepted, BgpCalls.Lookups,
         BgpCalls.GlobalOps, Bgp.LegacyStep, BgpCalls.LegacyAsn, Bgp.GlobalStep, Bgp.Step, OneFailureAtMost, KeySet;
    plat := new Platform(ONE_NEIGHBOR, UpTo(4), true);
    assert AllWork(plat.fault, 0, 3);
    ghost var keys, gone;
    r, keys, gone := BgpCalls.PutGlobal(plat, BgpCalls.Frrcfgd, quad, "default", NO_BGP);
    RefusedFrom(plat.fault, 4, 3, plat.calls, gone, r.Done?);
    OneGone(keys, gone, INSTANCE, NEIGHBOR);
  }

  /** The first of two different keys was removed and the other was not. */
  lemma OneGone(keys: seq<Key>, gone: nat, first: Key, other: Key)
    requires keys != [] && keys[0] == first && other in keys && other != first && gone <= |keys|
    ensures |keys| >= 2 && (gone == 1 ==> other !in keys[..gone])
  {
    var i :| 0 <= i < |keys| && keys[i] == other;
  }

  const STP_VLAN10 := Stp.StpVlanKey("Vlan10")

  /** Spanning tree on with one VLAN instance. */
  const ONE_INSTANCE: Db := map[Stp.GLOBAL := map["mode" := "pvst"], STP_VLAN10 := map["enabled" := "true"]]

  lemma InstanceFacts()
    ensures NoEmptyRows(ONE_INSTANCE) && Stp.Sound(ONE_INSTANCE) && Stp.GLOBAL in ONE_INSTANCE && STP_VLAN10 in ONE_INSTANCE
    ensures Stp.IsStpVlan(STP_VLAN10) && Stp.IsStp(STP_VLAN10) && STP_VLAN10 != Stp.GLOBAL
  {
    Stp.KeysApart("Vlan10");
    assert "mode" in ONE_INSTANCE[Stp.GLOBAL] && "enabled" in ONE_INSTANCE[STP_VLAN10];
    assert Stp.Instances(ONE_INSTANCE) <= {STP_VLAN10};
    SmallSet(Stp.Instances(ONE_INSTANCE), STP_VLAN10);
    DefaultTimers();
    assert Stp.InstanceLimit(ONE_INSTANCE) == 255 by { Stp.NoLimit(); }
    assert Stp.TABLES[0] == Stp.STP_VLAN;
  }

  /** Disabling, redis failing after the first deletion. */
  method DisableOrphansVlan() returns (plat: Platform, r: WriteResult)
    ensures Stp.Sound(ONE_INSTANCE) && r.Redis? && !Stp.Sound(plat.rows)
  {
    InstanceFacts();
    hide STP_VLAN10, ONE_INSTANCE, Stp.Sound, Stp.IsStpVlan, Stp.IsStp;
    plat := new Platform(ONE_INSTANCE, UpTo(Stp.SCANS + 1), true);
    ghost var keys, gone;
    r, keys, gone := Stp.Disable(plat);
    RefusedFrom(plat.fault, Stp.SCANS + 1, Stp.SCANS, plat.calls, gone, r.Done?);
    OneGone(keys, gone, Stp.GLOBAL, STP_VLAN10);
  }

  lemma SmallSet(s: set<Key>, x: Key)
    requires s <= {x}
    ensures |s| <= 1
  {
    if s != {} {
      assert s == {x};
    }
  }

  lemma DefaultTimers()
    ensures Stp.CheckAll(Stp.StoredTimers(map["mode" := "pvst"]))
  {
    var row: Row := map["mode" := "pvst"];
    assert "mode"[0] == 'm' && "mode"[1] == 'o' && "forward_delay"[0] == 'f' && "hello_time"[0] == 'h' && "max_age"[1] == 'a'
      && "priority"[0] == 'p' && "rootguard_timeout"[0] == 'r';
    Stp.NoNumField(row, "forward_delay");
    Stp.NoNumField(row, "hello_time");
    Stp.NoNumField(row, "max_age");
    Stp.NoNumField(row, "priority");
    Stp.NoNumField(row, "rootguard_timeout");
  }

  const RULE := AclWrites.RuleKey("T", AclWrites.RuleName(10))
  const DESC := AclWrites.DescKey("T", AclWrites.RuleName(10))

  /** A table with one rule and its description. */
  const DESCRIBED: Db := map[AclWrites.TableKey("T") := map["type" := "L3"], RULE := map["PRIORITY" := "10"], DESC := map["description" := "x"]]

  lemma DescribedFacts()
    ensures NoEmptyRows(DESCRIBED) && AclWrites.Nested(DESCRIBED) && AclWrites.Managed(DESCRIBED, "T")
    ensures RULE in DESCRIBED && !AclWrites.DescsStand(DESCRIBED - {RULE}) && DESCRIBED - {RULE} != DESCRIBED - {RULE, DESC}
  {
    var kind: Row := map["type" := "L3"];
    assert "type" in kind && "PRIORITY" in map["PRIORITY" := "10"] && "description" in map["description" := "x"];
    AclWrites.RuleNamed(10);
    assert AclWrites.KindNamed("L3").Some? && IsPart("T");
    hide AclWrites.KindOf, AclWrites.KindNamed, AclWrites.TableKey, AclWrites.RuleKey, AclWrites.DescKey, AclWrites.RuleName, AclWrites.Nested,
         AclWrites.DescsStand, AclWrites.Managed;
    AclWrites.TypeIsKind(kind, "L3");
    OneRule("T", AclWrites.RuleName(10), kind, map["PRIORITY" := "10"], map["description" := "x"]);
  }

  lemma OneRule(t: string, name: string, a: Row, b: Row, c: Row)
    requires IsPart(t) && name != "" && a != map[] && b != map[] && c != map[] && AclWrites.KindOf(a).Some?
    ensures var table, rule, desc := AclWrites.TableKey(t), AclWrites.RuleKey(t, name), AclWrites.DescKey(t, name);
      var db: Db := map[table := a, rule := b, desc := c];
      && NoEmptyRows(db) && AclWrites.Nested(db) && AclWrites.Managed(db, t) && rule in db && desc in db
      && !AclWrites.DescsStand(db - {rule}) && db - {rule} != db - {rule, desc}
  {
    AclWrites.Tables(t, name, t);
    AclWrites.PartsOf(t, name);
    var table, rule, desc := AclWrites.TableKey(t), AclWrites.RuleKey(t, name), AclWrites.DescKey(t, name);
    var db: Db := map[table := a, rule := b, desc := c];
    assert rule != table && desc != table && rule != desc;
    assert desc in db - {rule};
    hide AclWrites.TableKey, AclWrites.RuleKey, AclWrites.DescKey, AclWrites.RuleOf, AclWrites.DescOf, AclWrites.KindOf;
    OneRuleNested(db, t, name);
    hide AclWrites.Nested, AclWrites.DescsStand;
    AclWrites.InterruptedDeleteRule(db, t, name);
  }

  lemma OneRuleNested(db: Db, t: string, name: string)
    requires db.Keys == {AclWrites.TableKey(t), AclWrites.RuleKey(t, name), AclWrites.DescKey(t, name)} && IsPart(t) && name != ""
    ensures AclWrites.Nested(db) && AclWrites.DescsStand(db)
  {
    hide AclWrites.TableKey, AclWrites.RuleKey, AclWrites.DescKey, AclWrites.RuleOf, AclWrites.DescOf;
    AclWrites.Tables(t, name, t);
    AclWrites.PartsOf(t, name);
  }

  lemma BetweenWrites(fault: nat -> Fault, db: Db, rule: Key, desc: Key)
    requires fault == UpTo(3)
    ensures AllWork(fault, 0, 2) && !AllWork(fault, 0, 4) && AclWrites.AfterRemoval(db, rule, desc, fault, 2) == db - {rule}
  {
    assert fault(3) == Refused;
  }

  /** Deleting the rule, redis failing between the two deletions. */
  method DeleteRuleOrphansDescription() returns (plat: Platform, r: WriteResult)
    ensures AclWrites.Nested(DESCRIBED) && !r.Done? && !AclWrites.DescsStand(plat.rows)
  {
    DescribedFacts();
    assert RULE == AclWrites.RuleKey("T", AclWrites.RuleName(10)) && DESC == AclWrites.DescKey("T", AclWrites.RuleName(10));
    hide RULE, DESC, DESCRIBED, AclWrites.RuleKey, AclWrites.DescKey, AclWrites.RuleName, AclWrites.Nested, AclWrites.DescsStand,
         AclWrites.Managed, AclWrites.AnyStep, AclWrites.DeleteStep, AclWrites.TableVerdict, AclWrites.AfterRemoval, AclWrites.PartlyRemoved,
         IsPart, UpTo, NoEmptyRows;
    plat := new Platform(DESCRIBED, UpTo(3), true);
    BetweenWrites(plat.fault, DESCRIBED, RULE, DESC);
    r := AclWrites.DeleteRule(plat, "T", 10);
    assert plat.rows == DESCRIBED - {RULE};
  }

  // ------------------------------------------------------------ names not checked

  /** A legacy deletion of a peer with a bar in it takes a row of the other schema. */
  method LegacyDeleteTakesFrrRow() returns (plat: Platform, r: WriteResult, ghost before: Db)
    ensures r.Done? && !Bgp.LegacyStep(before, plat.rows)
  {
    var peer := "default" + "|" + "10.0.0.1";
    var key := Bgp.LegacyKey(peer);
    PeerIsPair();
    var rows: Db := map[key := map["asn" := "65001"]];
    before := rows;
    assert "asn" in rows[key];
    plat := new Platform(rows, c => Works, true);
    r := BgpCalls.DeleteNeighbor(plat, BgpCalls.Mode.Legacy, "default", peer);
  }

  lemma PeerIsPair()
    ensures Bgp.NeighborOf(Bgp.LegacyKey("default" + "|" + "10.0.0.1")).Some?
  {
    Bgp.SplitNeighbor("default", "10.0.0.1");
    assert Bgp.LegacyKey("default" + "|" + "10.0.0.1") == Bgp.NeighborKey("default", "10.0.0.1");
  }

  /** A name with a leading zero, read as VLAN 10 and written by no call. */
  const MISSPELT := "Vlan0" + Render(10)

  lemma MisspeltFacts()
    ensures VlanId(MISSPELT) == Some(10) && MISSPELT != VlanName(10) && IsVlanName(MISSPELT) && Lacks(MISSPELT, ':')
  {
    Fdb.PaddedName(10);
    assert |MISSPELT| != |VlanName(10)|;
    RenderLacks(10, '|');
    forall i | 0 <= i < |MISSPELT| ensures MISSPELT[i] != '|' {
      if i >= 5 {
        assert MISSPELT[i] == Render(10)[i - 5];
      }
    }
  }

  /** A port update that is done and leaves the port in a VLAN it asked to leave. */
  method MisspeltMemberSurvives() returns (plat: Platform, r: WriteResult)
    ensures r.Done? && !ExactMembership(plat.rows, "Ethernet0", map[])
  {
    var port, member := VlanWrites.PortKey("Ethernet0"), MemberKey(MISSPELT, "Ethernet0");
    var rows: Db := map[port := map["mtu" := "9100"], member := map["tagging_mode" := TAGGED]];
    var routed := VlanWrites.Patch(None, None, None, None, None, Some(Routed), None, None);
    MisspeltFacts();
    VlanWrites.PortKeyDiffers(MISSPELT, "Ethernet0");
    assert "mtu" in rows[port] && "tagging_mode" in rows[member];
    assert IsVlanName(MISSPELT) && member in rows && !Canonical(MISSPELT);
    assert !AllCanonical(rows, "Ethernet0");
    assert VlanWrites.Wanted(routed) == Some(map[]);
    hide MISSPELT, AllCanonical, ExactMembership, Canonical, VlanId;
    plat := new Platform(rows, c => Works, true);
    ghost var run;
    r, run := VlanWrites.UpdatePort(plat, "Ethernet0", routed, None);
  }

  function StaleKey(mac: string): Key {
    Key(CONFIG_DB, Fdb.FDB + "Vlan0" + Render(10) + ":" + mac)
  }

  /** VLAN 10 with one member, and an entry of it under a misspelt name. */
  function StaleDb(mac: string, port: string): Db {
    map[VlanKey(VlanName(10)) := map["vlanid" := "10"], MemberKey(VlanName(10), port) := map["tagging_mode" := TAGGED],
        StaleKey(mac) := map["port" := port]]
  }

  lemma StaleFacts(mac: string, port: string)
    ensures NoEmptyRows(StaleDb(mac, port))
    ensures VlanKey(VlanName(10)) in StaleDb(mac, port) && MemberKey(VlanName(10), port) in StaleDb(mac, port)
    ensures RowOf(StaleDb(mac, port), StaleKey(mac)) == map["port" := port]
  {
    hide VlanName, Render;
    assert "vlanid" in map["vlanid" := "10"] && "tagging_mode" in map["tagging_mode" := TAGGED] && "port" in map["port" := port];
  }

  lemma PortIsPresent(rows: Db, k: Key, port: string)
    requires RowOf(rows, k) == map["port" := port] && Present(port).Some?
    ensures Field(RowOf(rows, k), "port").Some?
  {
    hide Present;
  }

  lemma EthernetIsPresent()
    ensures Present("Ethernet0").Some?
  {
    assert IsWord("Ethernet0");
    TrimOfTrimmed("Ethernet0");
  }

  /** A unicast MAC in its normal spelling, from its digits. */
  const DIGITS := "021122334455"
  const MAC := Fdb.Pairs(DIGITS)

  lemma MacIsNormal()
    ensures Fdb.CheckMac(MAC) == Some(MAC)
  {
    assert forall i :: 0 <= i < 12 ==> Fdb.IsLowerHex(DIGITS[i]);
    assert DIGITS[1] == '2';
    Fdb.DigitsAreMac(DIGITS);
    UnicastMac(MAC);
  }

  lemma UnicastMac(mac: string)
    requires Fdb.NormalizeMac(mac) == Some(mac) && |mac| == 17 && mac[1] == '2'
    ensures Fdb.CheckMac(mac) == Some(mac)
  {
    hide Fdb.NormalizeMac;
    assert "00:00:00:00:00:00"[1] == '0';
  }

  /** Setting a static entry of VLAN 10: done, and the reader still reports the misspelt row
      beside the new one. */
  method MisspeltEntrySurvives() returns (plat: Platform, r: WriteResult)
    ensures r.Done? && Fdb.Reported(plat.rows, StaleKey(MAC), 10, MAC) && StaleKey(MAC) != Fdb.StaticKey(10, MAC)
  {
    var mac, port := MAC, "Ethernet0";
    MacIsNormal();
    EthernetIsPresent();
    hide MAC;
    Fdb.CheckedIsNormal(mac, mac);
    Fdb.LeadingZeroIsReported(map[], 10, mac);
    Fdb.CanonicalIsSpelling(10, mac);
    StaleFacts(mac, port);
    hide Fdb.CheckMac, Fdb.NormalizeMac, VlanName, Fdb.IsSpellingOf, Fdb.Reported, Render, StaleDb, Fdb.NoMisspelling, Fdb.StaticKey,
         Present, Field;
    plat := new Platform(StaleDb(mac, port), c => Works, true);
    r := Fdb.PutStatic(plat, true, 10, mac, port);
    PortIsPresent(plat.rows, StaleKey(mac), port);
    Fdb.LeadingZeroIsReported(plat.rows, 10, mac);
  }
}
