/** L3 interfaces (`src/sonic/l3.rs`): converging one interface's attribute row and
    address rows under SONiC's rule that vrf_name must not change while addresses
    exist. */
module L3 {
  import opened Common
  import opened Text
  import opened Store
  import opened Keys

  datatype Kind = Port | PortChannel | Vlan | Loopback

  function KindOf(name: string): Kind {
    if "PortChannel" <= name then PortChannel
    else if "Vlan" <= name then Vlan
    else if "Loopback" <= name then Loopback
    else Port
  }

  function TableOfKind(kind: Kind): string {
    match kind
    case Port => "INTERFACE"
    case PortChannel => "PORTCHANNEL_INTERFACE"
    case Vlan => "VLAN_INTERFACE"
    case Loopback => "LOOPBACK_INTERFACE"
  }

  function L3Table(name: string): string {
    TableOfKind(KindOf(name))
  }

  function AttrName(name: string): string {
    L3Table(name) + "|" + name
  }

  // From here on an interface is known by the key name of its attribute row, `attr`:
  // its address rows are `attr|<prefix>`.

  function AttrKey(attr: string): Key {
    Key(CONFIG_DB, attr)
  }

  function IpKey(attr: string, ip: string): Key {
    Key(CONFIG_DB, attr + "|" + ip)
  }

  // ------------------------------------------------------- reading the store

  predicate IsIpKeyOf(attr: string, key: Key) {
    key.db == CONFIG_DB && attr + "|" <= key.name && |key.name| > |attr| + 1
  }

  function IpOf(attr: string, key: Key): string
    requires IsIpKeyOf(attr, key)
  {
    key.name[|attr| + 1..]
  }

  lemma IpKeyInverse(attr: string, ip: string, key: Key)
    ensures ip != "" ==> IsIpKeyOf(attr, IpKey(attr, ip)) && IpOf(attr, IpKey(attr, ip)) == ip
    ensures IsIpKeyOf(attr, key) ==> key == IpKey(attr, IpOf(attr, key)) && IpOf(attr, key) != ""
    ensures !IsIpKeyOf(attr, AttrKey(attr)) && IpKey(attr, ip) != AttrKey(attr)
  {
    assert IpKey(attr, ip).name[|attr| + 1..] == ip;
    assert |IpKey(attr, ip).name| > |attr|;
  }

  /** The interface's addresses: the suffixes of its IP-level keys. */
  function Ips(db: Db, attr: string): set<string> {
    set k | k in db && IsIpKeyOf(attr, k) :: IpOf(attr, k)
  }

  lemma IpsByKey(db: Db, attr: string, ip: string)
    ensures ip in Ips(db, attr) <==> ip != "" && IpKey(attr, ip) in db
  {
    IpKeyInverse(attr, ip, IpKey(attr, ip));
    if ip in Ips(db, attr) {
      var k :| k in db && IsIpKeyOf(attr, k) && IpOf(attr, k) == ip;
      IpKeyInverse(attr, ip, k);
    }
    if ip != "" && IpKey(attr, ip) in db {
      assert IpOf(attr, IpKey(attr, ip)) in Ips(db, attr);
    }
  }

  /** The vrf_name in effect. */
  function BoundVrf(db: Db, attr: string): Option<string> {
    Field(RowOf(db, AttrKey(attr)), "vrf_name")
  }

  // ----------------------------------------------------------- the write program

  function RemoveOps(attr: string, ips: seq<string>, keep: set<string>): seq<Op> {
    if |ips| == 0 then []
    else if ips[|ips| - 1] in keep then RemoveOps(attr, ips[..|ips| - 1], keep)
    else RemoveOps(attr, ips[..|ips| - 1], keep) + [Del(IpKey(attr, ips[|ips| - 1]))]
  }

  function AttrOps(attr: string, vrf: Option<string>, anyIp: bool): seq<Op> {
    match vrf
    case Some(v) => [HSet(AttrKey(attr), map["vrf_name" := v]), HDel(AttrKey(attr), {"NULL"})]
    case None =>
      if anyIp then [HDel(AttrKey(attr), {"vrf_name"}), HSet(AttrKey(attr), PLACEHOLDER)]
      else [Del(AttrKey(attr))]
  }

  function AddOps(attr: string, ips: seq<string>, keep: set<string>): seq<Op> {
    if |ips| == 0 then []
    else if ips[|ips| - 1] in keep then AddOps(attr, ips[..|ips| - 1], keep)
    else AddOps(attr, ips[..|ips| - 1], keep) + [HSet(IpKey(attr, ips[|ips| - 1]), PLACEHOLDER)]
  }

  /** Addresses whose rows survive: all wanted ones, unless the VRF changes. */
  function Kept(changed: bool, current: set<string>, desired: set<string>): set<string> {
    if changed then {} else current * desired
  }

  /** What `converge` sends.  `scanned` lists the current addresses as SCAN returned
      them, `wanted` the desired set in the order it is iterated. */
  function ConvergeOps(db: Db, attr: string, vrf: Option<string>, scanned: seq<string>, wanted: seq<string>): seq<Op> {
    var keep := Kept(BoundVrf(db, attr) != vrf, Ips(db, attr), Elements(wanted));
    RemoveOps(attr, scanned, keep) + AttrOps(attr, vrf, wanted != []) + AddOps(attr, wanted, keep)
  }

  function Elements(s: seq<string>): set<string> {
    set x | x in s
  }

  // -------------------------------------------------------------- the target state

  function AttrTarget(row: Row, vrf: Option<string>, desired: set<string>): Row {
    match vrf
    case Some(v) => row["vrf_name" := v] - {"NULL"}
    case None => if desired != {} then (row - {"vrf_name"})["NULL" := "NULL"] else map[]
  }

  /** The row a converged store holds at `key`, said independently of any write. */
  function TargetRow(db: Db, attr: string, vrf: Option<string>, desired: set<string>, key: Key): Row {
    if key == AttrKey(attr) then AttrTarget(RowOf(db, key), vrf, desired)
    else if IsIpKeyOf(attr, key) then
      if IpOf(attr, key) !in desired then map[]
      else if key in db && BoundVrf(db, attr) == vrf then db[key]
      else PLACEHOLDER
    else RowOf(db, key)
  }

  function Target(db: Db, attr: string, vrf: Option<string>, desired: set<string>): Db {
    var keys := db.Keys + {AttrKey(attr)} + (set ip | ip in desired :: IpKey(attr, ip));
    map k | k in keys && TargetRow(db, attr, vrf, desired, k) != map[] :: TargetRow(db, attr, vrf, desired, k)
  }

  lemma TargetReads(db: Db, attr: string, vrf: Option<string>, desired: set<string>, key: Key)
    ensures RowOf(Target(db, attr, vrf, desired), key) == TargetRow(db, attr, vrf, desired, key)
    ensures NoEmptyRows(Target(db, attr, vrf, desired))
  {
    IpKeyInverse(attr, "", key);
    if TargetRow(db, attr, vrf, desired, key) != map[] && key !in db && key != AttrKey(attr) {
      assert IsIpKeyOf(attr, key) && key == IpKey(attr, IpOf(attr, key));
    }
  }

  // ------------------------------------------------- effect of the three phases

  lemma {:induction false} RemoveEffect(db: Db, attr: string, ips: seq<string>, keep: set<string>, key: Key)
    requires "" !in ips
    ensures RowOf(ExecAll(db, RemoveOps(attr, ips, keep)), key)
         == if IsIpKeyOf(attr, key) && IpOf(attr, key) in ips && IpOf(attr, key) !in keep then map[] else RowOf(db, key)
    decreases |ips|
  {
    if |ips| > 0 {
      var front, last := ips[..|ips| - 1], ips[|ips| - 1];
      assert ips == front + [last];
      RemoveEffect(db, attr, front, keep, key);
      IpKeyInverse(attr, last, key);
      if last !in keep {
        ExecAllAppend(db, RemoveOps(attr, front, keep), [Del(IpKey(attr, last))]);
        ExecOne(ExecAll(db, RemoveOps(attr, front, keep)), Del(IpKey(attr, last)));
      }
    }
  }

  lemma {:induction false} AddEffect(db: Db, attr: string, ips: seq<string>, keep: set<string>, key: Key)
    requires "" !in ips
    ensures RowOf(ExecAll(db, AddOps(attr, ips, keep)), key)
         == if IsIpKeyOf(attr, key) && IpOf(attr, key) in ips && IpOf(attr, key) !in keep
            then RowOf(db, key) + PLACEHOLDER else RowOf(db, key)
    decreases |ips|
  {
    if |ips| > 0 {
      var front, last := ips[..|ips| - 1], ips[|ips| - 1];
      assert ips == front + [last];
      AddEffect(db, attr, front, keep, key);
      IpKeyInverse(attr, last, key);
      if last !in keep {
        ExecAllAppend(db, AddOps(attr, front, keep), [HSet(IpKey(attr, last), PLACEHOLDER)]);
        ExecOne(ExecAll(db, AddOps(attr, front, keep)), HSet(IpKey(attr, last), PLACEHOLDER));
        assert RowOf(db, key) + PLACEHOLDER + PLACEHOLDER == RowOf(db, key) + PLACEHOLDER;
      }
    }
  }

  lemma AttrRowEffect(row: Row, v: string)
    ensures row + map["vrf_name" := v] - {"NULL"} == row["vrf_name" := v] - {"NULL"}
    ensures row - {"vrf_name"} + PLACEHOLDER == (row - {"vrf_name"})["NULL" := "NULL"]
  {
    assert row + map["vrf_name" := v] == row["vrf_name" := v];
  }

  lemma AttrEffect(db: Db, attr: string, vrf: Option<string>, desired: set<string>, key: Key)
    ensures RowOf(ExecAll(db, AttrOps(attr, vrf, desired != {})), key)
         == if key == AttrKey(attr) then AttrTarget(RowOf(db, key), vrf, desired) else RowOf(db, key)
  {
    var ops := AttrOps(attr, vrf, desired != {});
    ExecReads(db, ops[0], key);
    AttrRowEffect(RowOf(db, key), vrf.GetOr(""));
    if |ops| == 2 {
      ExecTwo(db, ops[0], ops[1]);
      ExecReads(Exec(db, ops[0]), ops[1], key);
    } else {
      ExecOne(db, ops[0]);
    }
  }

  lemma PlaceholderFacts(row: Row, vrf: Option<string>, desired: set<string>)
    ensures PLACEHOLDER != map[] && map[] + PLACEHOLDER == PLACEHOLDER
    ensures vrf.Some? || desired != {} ==> AttrTarget(row, vrf, desired) != map[]
    ensures vrf.Some? && Trimmed(vrf.value) && vrf.value != "" ==> Field(AttrTarget(row, vrf, desired), "vrf_name") == vrf
    ensures vrf.None? ==> Field(AttrTarget(row, vrf, desired), "vrf_name") == None
  {
    assert "NULL" in PLACEHOLDER;
    if vrf.Some? {
      assert "vrf_name" in AttrTarget(row, vrf, desired);
      TrimOfTrimmed(vrf.value);
    } else if desired != {} {
      assert "NULL" in AttrTarget(row, vrf, desired);
    }
  }

  lemma ConvergeReads(db: Db, attr: string, vrf: Option<string>, scanned: seq<string>, wanted: seq<string>, keep: set<string>, key: Key)
    requires NoEmptyRows(db)
    requires Elements(scanned) == Ips(db, attr) && "" !in wanted
    requires keep == Kept(BoundVrf(db, attr) != vrf, Ips(db, attr), Elements(wanted))
    ensures RowOf(ExecAll(ExecAll(ExecAll(db, RemoveOps(attr, scanned, keep)), AttrOps(attr, vrf, Elements(wanted) != {})), AddOps(attr, wanted, keep)), key)
         == TargetRow(db, attr, vrf, Elements(wanted), key)
  {
    var desired := Elements(wanted);
    var db1 := ExecAll(db, RemoveOps(attr, scanned, keep));
    var db2 := ExecAll(db1, AttrOps(attr, vrf, desired != {}));
    NoEmptyIp(db, attr, scanned);
    RemoveEffect(db, attr, scanned, keep, key);
    AttrEffect(db1, attr, vrf, desired, key);
    AddEffect(db2, attr, wanted, keep, key);
    IpKeyInverse(attr, "", key);
    if IsIpKeyOf(attr, key) {
      var ip := IpOf(attr, key);
      IpsByKey(db, attr, ip);
      PlaceholderFacts(map[], None, {});
      assert ip in scanned <==> ip in Elements(scanned);
      assert ip in wanted <==> ip in desired;
    }
  }

  lemma NoEmptyIp(db: Db, attr: string, scanned: seq<string>)
    requires Elements(scanned) == Ips(db, attr)
    ensures "" !in scanned
  {
    IpsByKey(db, attr, "");
    assert "" in scanned ==> "" in Elements(scanned);
  }

  lemma ElementsEmpty(s: seq<string>)
    ensures (s != []) == (Elements(s) != {})
  {
    if s != [] {
      assert s[0] in Elements(s);
    }
  }

  /** The end of a forward run: exactly the target state, whatever order SCAN and the
      desired set come in. */
  lemma ConvergeReachesTarget(db: Db, attr: string, vrf: Option<string>, scanned: seq<string>, wanted: seq<string>)
    requires NoEmptyRows(db)
    requires Elements(scanned) == Ips(db, attr) && "" !in wanted
    ensures ExecAll(db, ConvergeOps(db, attr, vrf, scanned, wanted)) == Target(db, attr, vrf, Elements(wanted))
  {
    var desired := Elements(wanted);
    var keep := Kept(BoundVrf(db, attr) != vrf, Ips(db, attr), desired);
    var r, a, d := RemoveOps(attr, scanned, keep), AttrOps(attr, vrf, desired != {}), AddOps(attr, wanted, keep);
    ElementsEmpty(wanted);
    ExecAllAppend(db, r, a);
    ExecAllAppend(db, r + a, d);
    ExecAllNoEmptyRows(db, r + a + d);
    TargetReads(db, attr, vrf, desired, AttrKey(attr));
    forall k ensures RowOf(ExecAll(db, r + a + d), k) == RowOf(Target(db, attr, vrf, desired), k) {
      ConvergeReads(db, attr, vrf, scanned, wanted, keep, k);
      TargetReads(db, attr, vrf, desired, k);
    }
    SameRowsSameDb(ExecAll(db, r + a + d), Target(db, attr, vrf, desired));
  }

  /** The attribute row of a configured interface.  It is there if and only if a VRF or an
      address was asked for; with a VRF it names it and is no placeholder, with addresses
      alone it is one; every other field is what it was. */
  ghost predicate AttrSays(before: Row, after: Row, vrf: Option<string>, anyIp: bool) {
    && (after != map[] <==> vrf.Some? || anyIp)
    && (vrf.Some? ==> Raw(after, "vrf_name") == vrf && "NULL" !in after)
    && (vrf == None && anyIp ==> "vrf_name" !in after && Raw(after, "NULL") == Some("NULL"))
    && (vrf.Some? || anyIp ==> KeepsOthers(before, after, {"vrf_name", "NULL"}))
  }

  /** What a put leaves for a reader: exactly the desired addresses, the requested VRF, the
      attribute row as above, every row outside the interface as before, rows of addresses
      kept under an unchanged VRF as before, every other address row a placeholder. */
  ghost predicate Configured(db: Db, t: Db, attr: string, vrf: Option<string>, desired: set<string>) {
    && Ips(t, attr) == desired
    && (vrf.Some? ==> Raw(RowOf(t, AttrKey(attr)), "vrf_name") == vrf)
    && (Bindable(vrf) ==> BoundVrf(t, attr) == vrf)
    && (AttrKey(attr) in t <==> vrf.Some? || desired != {})
    && AttrSays(RowOf(db, AttrKey(attr)), RowOf(t, AttrKey(attr)), vrf, desired != {})
    && (forall k :: k != AttrKey(attr) && !IsIpKeyOf(attr, k) ==> RowOf(t, k) == RowOf(db, k))
    && (forall ip :: ip in desired ==>
          RowOf(t, IpKey(attr, ip))
          == if BoundVrf(db, attr) == vrf && ip in Ips(db, attr) then RowOf(db, IpKey(attr, ip)) else map["NULL" := "NULL"])
  }

  /** The VRF argument as validation leaves it. */
  predicate Bindable(vrf: Option<string>) {
    vrf.Some? ==> Trimmed(vrf.value) && vrf.value != ""
  }

  lemma AttrTargetSays(row: Row, vrf: Option<string>, desired: set<string>)
    ensures AttrSays(row, AttrTarget(row, vrf, desired), vrf, desired != {})
  {
    assert "vrf_name"[0] == 'v' && "NULL"[0] == 'N';
    PlaceholderFacts(row, vrf, desired);
  }

  /** The target state means that. */
  lemma TargetMeaning(db: Db, attr: string, vrf: Option<string>, desired: set<string>)
    requires NoEmptyRows(db) && "" !in desired
    ensures Configured(db, Target(db, attr, vrf, desired), attr, vrf, desired)
  {
    hide AttrTarget, AttrSays, Field;
    var t := Target(db, attr, vrf, desired);
    TargetReads(db, attr, vrf, desired, AttrKey(attr));
    PlaceholderFacts(RowOf(db, AttrKey(attr)), vrf, desired);
    AttrTargetSays(RowOf(db, AttrKey(attr)), vrf, desired);
    AttrThere(RowOf(db, AttrKey(attr)), RowOf(t, AttrKey(attr)), vrf, desired != {});
    forall ip ensures ip in Ips(t, attr) <==> ip in desired {
      IpsByKey(t, attr, ip);
      IpKeyInverse(attr, ip, IpKey(attr, ip));
      TargetReads(db, attr, vrf, desired, IpKey(attr, ip));
    }
    assert Ips(t, attr) == desired;
    forall k | k != AttrKey(attr) && !IsIpKeyOf(attr, k) ensures RowOf(t, k) == RowOf(db, k) {
      TargetReads(db, attr, vrf, desired, k);
    }
    forall ip | ip in desired
      ensures RowOf(t, IpKey(attr, ip))
           == if BoundVrf(db, attr) == vrf && ip in Ips(db, attr) then RowOf(db, IpKey(attr, ip)) else map["NULL" := "NULL"]
    {
      TargetReads(db, attr, vrf, desired, IpKey(attr, ip));
      IpsByKey(db, attr, ip);
      IpKeyInverse(attr, ip, IpKey(attr, ip));
    }
  }

  lemma AttrThere(before: Row, after: Row, vrf: Option<string>, anyIp: bool)
    requires AttrSays(before, after, vrf, anyIp)
    ensures after != map[] <==> vrf.Some? || anyIp
    ensures vrf.Some? ==> Raw(after, "vrf_name") == vrf
  {
  }

  // ---------------------------------------------------------------- sequencing

  /** SONiC's rule for one write in state `db`: the VRF binding changes only while no
      address row exists, and an address row appears only under an attribute row. */
  ghost predicate RespectsSonic(db: Db, op: Op, attr: string) {
    var after := Exec(db, op);
    && (BoundVrf(after, attr) != BoundVrf(db, attr) ==> Ips(db, attr) == {})
    && (!(Ips(after, attr) <= Ips(db, attr)) ==> AttrKey(attr) in db)
  }

  /** Every write of a program respects the rule in the state it meets. */
  ghost predicate Sequenced(db: Db, ops: seq<Op>, attr: string) {
    forall i :: 0 <= i < |ops| ==> RespectsSonic(ExecAll(db, ops[..i]), ops[i], attr)
  }

  lemma SequencedAppend(db: Db, a: seq<Op>, b: seq<Op>, attr: string)
    requires Sequenced(db, a, attr) && Sequenced(ExecAll(db, a), b, attr)
    ensures Sequenced(db, a + b, attr)
  {
    var ops := a + b;
    forall i | 0 <= i < |ops| ensures RespectsSonic(ExecAll(db, ops[..i]), ops[i], attr) {
      if i < |a| {
        assert ops[..i] == a[..i];
      } else {
        assert ops[..i] == a + b[..i - |a|];
        ExecAllAppend(db, a, b[..i - |a|]);
      }
    }
  }

  lemma SequencedPrefix(db: Db, ops: seq<Op>, part: seq<Op>, attr: string)
    requires Sequenced(db, ops, attr) && part <= ops
    ensures Sequenced(db, part, attr)
  {
    hide RespectsSonic;
    forall i | 0 <= i < |part| ensures RespectsSonic(ExecAll(db, part[..i]), part[i], attr) {
      assert part[..i] == ops[..i] && part[i] == ops[i];
    }
  }

  lemma SequencedOne(db: Db, op: Op, attr: string)
    requires RespectsSonic(db, op, attr)
    ensures Sequenced(db, [op], attr)
  {
    assert [op][..0] == [];
  }

  lemma IpsAfter(db: Db, op: Op, attr: string)
    ensures op.key == AttrKey(attr) ==> Ips(Exec(db, op), attr) == Ips(db, attr)
    ensures op.Del? ==> Ips(Exec(db, op), attr) <= Ips(db, attr)
    ensures IsIpKeyOf(attr, op.key) ==> RowOf(Exec(db, op), AttrKey(attr)) == RowOf(db, AttrKey(attr))
  {
    var after := Exec(db, op);
    IpKeyInverse(attr, "", op.key);
    forall ip
      ensures op.key == AttrKey(attr) ==> (ip in Ips(after, attr) <==> ip in Ips(db, attr))
      ensures op.Del? && ip in Ips(after, attr) ==> ip in Ips(db, attr)
    {
      IpsByKey(db, attr, ip);
      IpsByKey(after, attr, ip);
      IpKeyInverse(attr, ip, IpKey(attr, ip));
    }
  }

  lemma {:induction false} RemoveSequenced(db: Db, attr: string, ips: seq<string>, keep: set<string>)
    requires "" !in ips
    ensures Sequenced(db, RemoveOps(attr, ips, keep), attr)
    decreases |ips|
  {
    if |ips| > 0 {
      var front, last := ips[..|ips| - 1], ips[|ips| - 1];
      RemoveSequenced(db, attr, front, keep);
      if last !in keep {
        var mid := ExecAll(db, RemoveOps(attr, front, keep));
        IpKeyInverse(attr, last, AttrKey(attr));
        IpsAfter(mid, Del(IpKey(attr, last)), attr);
        SequencedOne(mid, Del(IpKey(attr, last)), attr);
        SequencedAppend(db, RemoveOps(attr, front, keep), [Del(IpKey(attr, last))], attr);
      }
    }
  }

  lemma {:induction false} AddSequenced(db: Db, attr: string, ips: seq<string>, keep: set<string>)
    requires "" !in ips
    requires NoEmptyRows(db) && (ips != [] ==> AttrKey(attr) in db)
    ensures Sequenced(db, AddOps(attr, ips, keep), attr)
    decreases |ips|
  {
    if |ips| > 0 {
      var front, last := ips[..|ips| - 1], ips[|ips| - 1];
      AddSequenced(db, attr, front, keep);
      if last !in keep {
        var op := HSet(IpKey(attr, last), PLACEHOLDER);
        var mid := ExecAll(db, AddOps(attr, front, keep));
        AddEffect(db, attr, front, keep, AttrKey(attr));
        IpKeyInverse(attr, last, AttrKey(attr));
        assert RowOf(mid, AttrKey(attr)) == RowOf(db, AttrKey(attr)) != map[];
        IpsAfter(mid, op, attr);
        SequencedOne(mid, op, attr);
        SequencedAppend(db, AddOps(attr, front, keep), [op], attr);
      }
    }
  }

  lemma AttrRowBinding(row: Row, vrf: Option<string>)
    requires vrf.Some? ==> Trimmed(vrf.value) && vrf.value != ""
    ensures vrf.Some? ==> Field(row + map["vrf_name" := vrf.value], "vrf_name") == vrf
    ensures Field(row - {"vrf_name"}, "vrf_name") == None && Field(map[], "vrf_name") == None
    ensures Field(row - {"NULL"}, "vrf_name") == Field(row, "vrf_name")
    ensures Field(row + PLACEHOLDER, "vrf_name") == Field(row, "vrf_name")
  {
    if vrf.Some? {
      TrimOfTrimmed(vrf.value);
    }
  }

  lemma AttrOneSequenced(db: Db, attr: string, op: Op)
    requires op.key == AttrKey(attr)
    requires Field(ExecRow(RowOf(db, op.key), op), "vrf_name") != BoundVrf(db, attr) ==> Ips(db, attr) == {}
    ensures Sequenced(db, [op], attr)
    ensures Ips(ExecAll(db, [op]), attr) == Ips(db, attr)
    ensures RowOf(ExecAll(db, [op]), op.key) == ExecRow(RowOf(db, op.key), op)
  {
    ExecOne(db, op);
    ExecReads(db, op, op.key);
    IpsAfter(db, op, attr);
    SequencedOne(db, op, attr);
  }

  lemma AttrTwoSequenced(db: Db, attr: string, first: Op, second: Op)
    requires first.key == second.key == AttrKey(attr)
    requires Field(ExecRow(RowOf(db, first.key), first), "vrf_name") != BoundVrf(db, attr) ==> Ips(db, attr) == {}
    requires var row := ExecRow(RowOf(db, first.key), first); Field(ExecRow(row, second), "vrf_name") == Field(row, "vrf_name")
    ensures Sequenced(db, [first, second], attr)
  {
    AttrOneSequenced(db, attr, first);
    AttrOneSequenced(ExecAll(db, [first]), attr, second);
    SequencedAppend(db, [first], [second], attr);
    assert [first, second] == [first] + [second];
  }

  /** Attribute writes change the VRF only when told to a different one, and then no
      address is left. */
  lemma AttrSequenced(db: Db, attr: string, vrf: Option<string>, anyIp: bool)
    requires vrf.Some? ==> Trimmed(vrf.value) && vrf.value != ""
    requires BoundVrf(db, attr) != vrf || (vrf == None && !anyIp) ==> Ips(db, attr) == {}
    ensures Sequenced(db, AttrOps(attr, vrf, anyIp), attr)
  {
    var row := RowOf(db, AttrKey(attr));
    AttrRowBinding(row, vrf);
    match vrf
    case Some(v) =>
      AttrRowBinding(row + map["vrf_name" := v], vrf);
      AttrTwoSequenced(db, attr, HSet(AttrKey(attr), map["vrf_name" := v]), HDel(AttrKey(attr), {"NULL"}));
    case None =>
      if anyIp {
        AttrRowBinding(row - {"vrf_name"}, vrf);
        AttrTwoSequenced(db, attr, HDel(AttrKey(attr), {"vrf_name"}), HSet(AttrKey(attr), PLACEHOLDER));
      } else {
        AttrOneSequenced(db, attr, Del(AttrKey(attr)));
      }
  }

  lemma AllRemoved(db: Db, attr: string, scanned: seq<string>)
    requires NoEmptyRows(db) && Elements(scanned) == Ips(db, attr)
    ensures Ips(ExecAll(db, RemoveOps(attr, scanned, {})), attr) == {}
  {
    var db1 := ExecAll(db, RemoveOps(attr, scanned, {}));
    ExecAllNoEmptyRows(db, RemoveOps(attr, scanned, {}));
    NoEmptyIp(db, attr, scanned);
    forall ip ensures ip !in Ips(db1, attr) {
      IpsByKey(db1, attr, ip);
      IpsByKey(db, attr, ip);
      IpKeyInverse(attr, ip, IpKey(attr, ip));
      RemoveEffect(db, attr, scanned, {}, IpKey(attr, ip));
      assert ip in scanned <==> ip in Elements(scanned);
    }
  }

  /** Over every intermediate state of the forward run, so also up to any failing
      write, SONiC's rule is respected. */
  lemma ConvergeIsSequenced(db: Db, attr: string, vrf: Option<string>, scanned: seq<string>, wanted: seq<string>)
    requires NoEmptyRows(db)
    requires Elements(scanned) == Ips(db, attr) && "" !in wanted
    requires vrf.Some? ==> Trimmed(vrf.value) && vrf.value != ""
    ensures Sequenced(db, ConvergeOps(db, attr, vrf, scanned, wanted), attr)
  {
    var desired := Elements(wanted);
    var keep := Kept(BoundVrf(db, attr) != vrf, Ips(db, attr), desired);
    var r, a, d := RemoveOps(attr, scanned, keep), AttrOps(attr, vrf, wanted != []), AddOps(attr, wanted, keep);
    var db1, db2 := ExecAll(db, r), ExecAll(db, r + a);
    NoEmptyIp(db, attr, scanned);
    ElementsEmpty(wanted);
    RemoveSequenced(db, attr, scanned, keep);
    RemoveEffect(db, attr, scanned, keep, AttrKey(attr));
    IpKeyInverse(attr, "", AttrKey(attr));
    if keep == {} {
      AllRemoved(db, attr, scanned);
    }
    AttrSequenced(db1, attr, vrf, wanted != []);
    SequencedAppend(db, r, a, attr);
    ExecAllAppend(db, r, a);
    ExecAllNoEmptyRows(db, r + a);
    AttrEffect(db1, attr, vrf, desired, AttrKey(attr));
    PlaceholderFacts(RowOf(db1, AttrKey(attr)), vrf, desired);
    AddSequenced(db2, attr, wanted, keep);
    SequencedAppend(db, r + a, d, attr);
  }

  /** With an unchanged VRF, no row of an address that stays is written at all. */
  lemma KeptRowsNotWritten(db: Db, attr: string, vrf: Option<string>, scanned: seq<string>, wanted: seq<string>, ip: string)
    requires BoundVrf(db, attr) == vrf && ip in Ips(db, attr) && ip in wanted
    ensures forall op :: op in ConvergeOps(db, attr, vrf, scanned, wanted) ==> op.key != IpKey(attr, ip)
  {
    var keep := Kept(false, Ips(db, attr), Elements(wanted));
    IpKeyInverse(attr, ip, IpKey(attr, ip));
    RemoveOpsKeys(attr, scanned, keep);
    AddOpsKeys(attr, wanted, keep);
  }

  lemma {:induction false} RemoveOpsKeys(attr: string, ips: seq<string>, keep: set<string>)
    ensures forall i, ip :: 0 <= i < |RemoveOps(attr, ips, keep)| && ip in keep ==> RemoveOps(attr, ips, keep)[i].key != IpKey(attr, ip)
    decreases |ips|
  {
    if |ips| > 0 {
      RemoveOpsKeys(attr, ips[..|ips| - 1], keep);
      forall ip | ip in keep && ips[|ips| - 1] !in keep ensures IpKey(attr, ip) != IpKey(attr, ips[|ips| - 1]) {
        IpKeyInverse(attr, ip, IpKey(attr, ip)); assert IpKey(attr, ip).name[|attr| + 1..] == ip;
      }
    }
  }

  lemma {:induction false} AddOpsKeys(attr: string, ips: seq<string>, keep: set<string>)
    ensures forall i, ip :: 0 <= i < |AddOps(attr, ips, keep)| && ip in keep ==> AddOps(attr, ips, keep)[i].key != IpKey(attr, ip)
    decreases |ips|
  {
    if |ips| > 0 {
      AddOpsKeys(attr, ips[..|ips| - 1], keep);
      forall ip | ip in keep && ips[|ips| - 1] !in keep ensures IpKey(attr, ip) != IpKey(attr, ips[|ips| - 1]) {
        IpKeyInverse(attr, ip, IpKey(attr, ip)); assert IpKey(attr, ip).name[|attr| + 1..] == ip;
      }
    }
  }
}
