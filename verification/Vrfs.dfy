/** VRF and interface lifecycle (`src/sonic/l3.rs`): validation, the write calls, and the
    invariant that every bound vrf_name names an existing VRF row. */
module Vrfs {
  import opened Common
  import opened Text
  import opened Store
  import opened Keys
  import opened L3

  // ---------------------------------------------------------------- validation

  predicate IsVrfNameChar(c: char) {
    IsAlphanumeric(c) || c == '_' || c == '-'
  }

  predicate ValidVrfName(name: string) {
    3 < |name| <= 15 && "Vrf" <= name && forall i :: 0 <= i < |name| ==> IsVrfNameChar(name[i])
  }

  predicate ValidVni(vni: Option<nat>) {
    vni.Some? ==> 1 <= vni.value <= 16_777_215
  }

  predicate ValidLoopbackName(name: string) {
    "Loopback" <= name && 1 <= |name| - 8 <= 4 && AllDigits(name[8..])
  }

  function VrfKey(name: string): Key {
    Key(CONFIG_DB, "VRF|" + name)
  }

  predicate InputOk(db: Db, vrf: Option<string>, addresses: seq<string>) {
    && (vrf.Some? ==> "Vrf" <= vrf.value && VrfKey(vrf.value) in db)
    && (forall i :: 0 <= i < |addresses| ==> ValidCidr(addresses[i]))
    && (forall i, j :: 0 <= i < j < |addresses| ==> addresses[i] != addresses[j])
  }

  function BaseTable(kind: Kind): string
    requires !kind.Loopback?
  {
    match kind
    case Port => "PORT|"
    case PortChannel => "PORTCHANNEL|"
    case Vlan => "VLAN|"
  }

  /** Where the rows of an interface lie, by its name. */
  lemma RowsByName(name: string)
    ensures "PortChannel" <= name ==> AttrName(name) == "PORTCHANNEL_INTERFACE|" + name
    ensures "Vlan" <= name ==> AttrName(name) == "VLAN_INTERFACE|" + name
    ensures "Loopback" <= name ==> AttrName(name) == "LOOPBACK_INTERFACE|" + name
    ensures !("PortChannel" <= name || "Vlan" <= name || "Loopback" <= name) ==> AttrName(name) == "INTERFACE|" + name
  {
    assert "PortChannel"[0] == 'P' && "Vlan"[0] == 'V' && "Loopback"[0] == 'L';
    assert "PORTCHANNEL_INTERFACE" + "|" == "PORTCHANNEL_INTERFACE|" && "VLAN_INTERFACE" + "|" == "VLAN_INTERFACE|"
      && "LOOPBACK_INTERFACE" + "|" == "LOOPBACK_INTERFACE|" && "INTERFACE" + "|" == "INTERFACE|";
  }

  /** A loopback exists iff it has LOOPBACK_INTERFACE rows; other kinds have a row of
      their own. */
  ghost predicate BaseExists(db: Db, name: string) {
    if KindOf(name) == Loopback then
      AttrKey(AttrName(name)) in db
      || exists n :: Key(CONFIG_DB, n) in db && "LOOPBACK_INTERFACE|" + name + "|" <= n
    else Key(CONFIG_DB, BaseTable(KindOf(name)) + name) in db
  }

  // ------------------------------------------------------------- the invariant

  /** `l3_rows` takes a key of an interface table for an attribute row when it does not
      split in two. */
  predicate IsAttrRow(kind: Kind, key: Key) {
    && key.db == CONFIG_DB
    && TwoParts(key.name, TableOfKind(kind) + "|") == None
    && KeySuffix(key.name, TableOfKind(kind) + "|").Some?
  }

  function AttrRowName(kind: Kind, key: Key): string
    requires IsAttrRow(kind, key)
  {
    KeySuffix(key.name, TableOfKind(kind) + "|").value
  }

  /** Attribute rows sit in the table of their own kind, so that no two of them carry
      the same interface name. */
  ghost predicate InOwnTables(db: Db) {
    forall kind, k :: k in db && IsAttrRow(kind, k) ==> KindOf(AttrRowName(kind, k)) == kind
  }

  ghost predicate BindsTo(db: Db, kind: Kind, key: Key, vrf: string) {
    key in db && IsAttrRow(kind, key) && Field(db[key], "vrf_name") == Some(vrf)
  }

  /** The safety property: every bound vrf_name names an existing VRF row.  VRF names
      carry no outer white space, since bindings are read trimmed. */
  ghost predicate Consistent(db: Db) {
    && NoEmptyRows(db)
    && InOwnTables(db)
    && (forall kind, k, v :: BindsTo(db, kind, k, v) ==> VrfKey(v) in db)
    && (forall v :: VrfKey(v) in db ==> Trimmed(v))
  }

  // ------------------------------------------------------- calls as transitions

  datatype Request =
    | CreateVrf(name: string, fallback: bool, vni: Option<nat>)
    | UpdateVrf(name: string, fallback: bool, vni: Option<nat>)
    | DeleteVrf(name: string)
    | PutInterface(name: string, vrf: Option<string>, addresses: seq<string>)
    | CreateLoopback(name: string, vrf: Option<string>, addresses: seq<string>)
    | DeleteInterface(name: string)

  function VrfOps(name: string, fallback: bool, vni: Option<nat>): seq<Op> {
    [ HSet(VrfKey(name), map["fallback" := if fallback then "true" else "false"]),
      if vni.Some? then HSet(VrfKey(name), map["vni" := Render(vni.value)]) else HDel(VrfKey(name), {"vni"}) ]
  }

  /** Some first part of an unbatched write program took effect. */
  ghost predicate PartlyDone(db: Db, ops: seq<Op>, db': Db) {
    exists n :: 0 <= n <= |ops| && db' == ExecAll(db, ops[..n])
  }

  ghost predicate Converged(db: Db, name: string, vrf: Option<string>, addresses: seq<string>, db': Db) {
    db' == Target(db, AttrName(name), vrf, Elements(addresses))
  }

  ghost predicate IsRowOf(name: string, key: Key) {
    key == AttrKey(AttrName(name)) || (key.db == CONFIG_DB && AttrName(name) + "|" <= key.name)
  }

  /** Rows of one interface went, its attribute row last. */
  ghost predicate PartlyDeleted(db: Db, name: string, db': Db) {
    && db'.Keys <= db.Keys
    && (forall k :: k in db' ==> db'[k] == db[k])
    && (forall k :: k in db && k !in db' ==> IsRowOf(name, k))
    && (AttrKey(AttrName(name)) in db && AttrKey(AttrName(name)) !in db' ==>
          forall k :: k in db' ==> !IsRowOf(name, k))
  }

  /** Every way one call can end, with any of its writes failing. */
  ghost predicate Step(db: Db, req: Request, db': Db) {
    db' == db ||
    match req
    case CreateVrf(name, fallback, vni) =>
      ValidVrfName(name) && ValidVni(vni) && VrfKey(name) !in db && PartlyDone(db, VrfOps(name, fallback, vni), db')
    case UpdateVrf(name, fallback, vni) =>
      ValidVni(vni) && VrfKey(name) in db && PartlyDone(db, VrfOps(name, fallback, vni), db')
    case DeleteVrf(name) =>
      VrfKey(name) in db && (forall kind, k :: !BindsTo(db, kind, k, name)) && db' == db - {VrfKey(name)}
    case PutInterface(name, vrf, addresses) =>
      BaseExists(db, name) && InputOk(db, vrf, addresses) && Converged(db, name, vrf, addresses, db')
    case CreateLoopback(name, vrf, addresses) =>
      ValidLoopbackName(name) && InputOk(db, vrf, addresses) && Converged(db, name, vrf, addresses, db')
    case DeleteInterface(name) =>
      KindOf(name) == Loopback && PartlyDeleted(db, name, db')
  }

  // ------------------------------------------------------------- facts about keys

  lemma PrefixBeforeBar(p: string, name: string, rest: string)
    requires Lacks(p, '|')
    ensures p <= name + "|" + rest <==> p <= name
  {
    var s := name + "|" + rest;
    assert s[|name|] == '|' && s[..|name|] == name;
    if p <= s {
      assert forall i :: 0 <= i < |p| ==> p[i] == s[i];
    }
  }

  /** An address row's name has the kind of its interface. */
  lemma KindOfIpName(name: string, ip: string)
    ensures KindOf(name + "|" + ip) == KindOf(name)
  {
    PrefixBeforeBar("PortChannel", name, ip);
    PrefixBeforeBar("Vlan", name, ip);
    PrefixBeforeBar("Loopback", name, ip);
  }

  lemma TablesApart(a: Kind, b: Kind, s: string)
    requires TableOfKind(a) + "|" <= s && TableOfKind(b) + "|" <= s
    ensures a == b
  {
    assert s[0] == TableOfKind(a)[0] == TableOfKind(b)[0];
  }

  lemma VrfKeyApart(v: string, kind: Kind, w: string)
    ensures !(TableOfKind(kind) + "|" <= "VRF|" + v)
    ensures VrfKey(v) == VrfKey(w) ==> v == w
  {
    assert ("VRF|" + v)[0] == 'V' && ("VRF|" + v)[1] == 'R';
    assert TableOfKind(kind)[0] != 'V' || TableOfKind(kind)[1] != 'R';
    assert ("VRF|" + v)[4..] == v && ("VRF|" + w)[4..] == w;
  }

  lemma RowsOfInterface(name: string, key: Key)
    requires IsRowOf(name, key)
    ensures TableOfKind(KindOf(name)) + "|" <= key.name
    ensures forall v :: key != VrfKey(v)
    ensures forall kind :: IsAttrRow(kind, key) ==> kind == KindOf(name) && KindOf(AttrRowName(kind, key)) == kind
  {
    var t := TableOfKind(KindOf(name)) + "|";
    assert AttrName(name) == t + name;
    if key.name != AttrName(name) {
      var ip := key.name[|AttrName(name)| + 1..];
      assert key.name == t + (name + "|" + ip);
      KindOfIpName(name, ip);
      assert key.name[|t|..] == name + "|" + ip;
    } else {
      assert key.name[|t|..] == name;
    }
    forall v ensures key != VrfKey(v) {
      VrfKeyApart(v, KindOf(name), v);
    }
    forall kind | IsAttrRow(kind, key) ensures kind == KindOf(name) && KindOf(AttrRowName(kind, key)) == kind {
      TablesApart(kind, KindOf(name), key.name);
    }
  }

  // -------------------------------------------------------- each call keeps it

  /** A row of the target: of the interface itself, or the same as before. */
  lemma TargetRowBinding(db: Db, name: string, vrf: Option<string>, desired: set<string>, k: Key, v: string)
    requires vrf.Some? ==> Trimmed(vrf.value) && vrf.value != ""
    requires Field(TargetRow(db, AttrName(name), vrf, desired, k), "vrf_name") == Some(v)
    ensures vrf == Some(v) || Field(RowOf(db, k), "vrf_name") == Some(v)
  {
    hide AttrName, Trim;
    if vrf.Some? {
      TrimOfTrimmed(vrf.value);
    }
    PlaceholderFacts(RowOf(db, k), vrf, desired);
  }

  lemma TargetAttrRows(db: Db, name: string, vrf: Option<string>, desired: set<string>, k: Key, kind: Kind)
    requires InOwnTables(db) && IsAttrRow(kind, k)
    requires TargetRow(db, AttrName(name), vrf, desired, k) != map[]
    ensures KindOf(AttrRowName(kind, k)) == kind
  {
    hide TwoParts, AttrName;
    if k != AttrKey(AttrName(name)) && !IsIpKeyOf(AttrName(name), k) {
      assert k in db;
    } else {
      RowsOfInterface(name, k);
    }
  }

  lemma TargetVrfRows(db: Db, name: string, vrf: Option<string>, desired: set<string>, v: string)
    ensures TargetRow(db, AttrName(name), vrf, desired, VrfKey(v)) == RowOf(db, VrfKey(v))
  {
    hide AttrName;
    if IsRowOf(name, VrfKey(v)) {
      RowsOfInterface(name, VrfKey(v));
    }
  }

  lemma ConvergedKeepsConsistent(db: Db, name: string, vrf: Option<string>, addresses: seq<string>)
    requires Consistent(db) && InputOk(db, vrf, addresses)
    ensures Consistent(Target(db, AttrName(name), vrf, Elements(addresses)))
  {
    hide AttrName, TargetRow, TwoParts, Target, ValidCidr;
    var attr, desired := AttrName(name), Elements(addresses);
    var t := Target(db, attr, vrf, desired);
    TargetReads(db, attr, vrf, desired, AttrKey(attr));
    forall v ensures VrfKey(v) in t <==> VrfKey(v) in db {
      TargetReads(db, attr, vrf, desired, VrfKey(v));
      TargetVrfRows(db, name, vrf, desired, v);
    }
    forall kind, k | k in t && IsAttrRow(kind, k) ensures KindOf(AttrRowName(kind, k)) == kind {
      TargetReads(db, attr, vrf, desired, k);
      TargetAttrRows(db, name, vrf, desired, k, kind);
    }
    forall kind, k, v | BindsTo(t, kind, k, v) ensures VrfKey(v) in t {
      TargetReads(db, attr, vrf, desired, k);
      TargetRowBinding(db, name, vrf, desired, k, v);
      if vrf != Some(v) {
        assert BindsTo(db, kind, k, v);
      }
    }
  }

  lemma VrfRowKeepsConsistent(db: Db, name: string, row: Row)
    requires Consistent(db) && Trimmed(name) && row != map[]
    ensures Consistent(db[VrfKey(name) := row])
  {
    var db' := db[VrfKey(name) := row];
    forall kind ensures !IsAttrRow(kind, VrfKey(name)) {
      VrfKeyApart(name, kind, name);
    }
    forall kind, k, v | BindsTo(db', kind, k, v) ensures VrfKey(v) in db' {
      assert BindsTo(db, kind, k, v);
    }
    forall v | VrfKey(v) in db' ensures Trimmed(v) {
      VrfKeyApart(v, Port, name);
    }
  }

  /** Creating or updating a VRF: every write leaves a VRF row in place. */
  lemma VrfOpsKeepConsistent(db: Db, name: string, fallback: bool, vni: Option<nat>, n: nat)
    requires Consistent(db) && Trimmed(name) && n <= 2
    ensures Consistent(ExecAll(db, VrfOps(name, fallback, vni)[..n]))
  {
    var ops := VrfOps(name, fallback, vni);
    var key := VrfKey(name);
    ExecOne(db, ops[0]);
    ExecTwo(db, ops[0], ops[1]);
    assert ops[..0] == [] && ops[..1] == [ops[0]] && ops[..2] == [ops[0], ops[1]];
    var row1 := RowOf(db, key) + ops[0].fields;
    assert "fallback" in row1;
    VrfRowKeepsConsistent(db, name, row1);
    var db1 := Exec(db, ops[0]);
    assert db1 == db[key := row1];
    var row2 := ExecRow(row1, ops[1]);
    assert "fallback" in row2;
    VrfRowKeepsConsistent(db1, name, row2);
    if n == 2 && vni.Some? {
      assert "vni" in ops[1].fields;
      assert Exec(db1, ops[1]) == db1[key := row2];
    }
  }

  lemma DeletedKeepsConsistent(db: Db, name: string, db': Db)
    requires Consistent(db) && PartlyDeleted(db, name, db')
    ensures Consistent(db')
  {
    forall v ensures VrfKey(v) in db' <==> VrfKey(v) in db {
      if IsRowOf(name, VrfKey(v)) {
        RowsOfInterface(name, VrfKey(v));
      }
    }
    forall kind, k, v | BindsTo(db', kind, k, v) ensures VrfKey(v) in db' {
      assert BindsTo(db, kind, k, v);
    }
  }

  lemma UnboundVrfRemovable(db: Db, name: string)
    requires Consistent(db) && forall kind, k :: !BindsTo(db, kind, k, name)
    ensures Consistent(db - {VrfKey(name)})
  {
    var db' := db - {VrfKey(name)};
    forall kind, k, v | BindsTo(db', kind, k, v) ensures VrfKey(v) in db' {
      assert BindsTo(db, kind, k, v);
      VrfKeyApart(v, Port, name);
    }
  }

  lemma StepKeepsConsistent(db: Db, req: Request, db': Db)
    requires Consistent(db) && Step(db, req, db')
    ensures Consistent(db')
  {
    if db' != db {
      match req
      case CreateVrf(name, fallback, vni) =>
        var n :| 0 <= n <= 2 && db' == ExecAll(db, VrfOps(name, fallback, vni)[..n]);
        VrfOpsKeepConsistent(db, name, fallback, vni, n);
      case UpdateVrf(name, fallback, vni) =>
        var n :| 0 <= n <= 2 && db' == ExecAll(db, VrfOps(name, fallback, vni)[..n]);
        VrfOpsKeepConsistent(db, name, fallback, vni, n);
      case DeleteVrf(name) => UnboundVrfRemovable(db, name);
      case PutInterface(name, vrf, addresses) => ConvergedKeepsConsistent(db, name, vrf, addresses);
      case CreateLoopback(name, vrf, addresses) => ConvergedKeepsConsistent(db, name, vrf, addresses);
      case DeleteInterface(name) => DeletedKeepsConsistent(db, name, db');
    }
  }

  ghost predicate IsRun(dbs: seq<Db>, reqs: seq<Request>) {
    |dbs| == |reqs| + 1 && forall i :: 0 <= i < |reqs| ==> Step(dbs[i], reqs[i], dbs[i + 1])
  }

  /** Over every run of the calls, with writes failing anywhere: bound VRFs exist. */
  lemma {:induction false} EveryRunStaysConsistent(dbs: seq<Db>, reqs: seq<Request>)
    requires IsRun(dbs, reqs) && Consistent(dbs[0])
    ensures forall i :: 0 <= i < |dbs| ==> Consistent(dbs[i])
    decreases |reqs|
  {
    if |reqs| > 0 {
      StepKeepsConsistent(dbs[0], reqs[0], dbs[1]);
      assert IsRun(dbs[1..], reqs[1..]) by {
        forall i | 0 <= i < |reqs[1..]| ensures Step(dbs[1..][i], reqs[1..][i], dbs[1..][i + 1]) {
          assert Step(dbs[i + 1], reqs[i + 1], dbs[i + 2]);
        }
      }
      EveryRunStaysConsistent(dbs[1..], reqs[1..]);
      assert forall i :: 1 <= i < |dbs| ==> dbs[i] == dbs[1..][i - 1];
    }
  }
}
