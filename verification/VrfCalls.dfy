/** The write calls of `src/sonic/l3.rs` as they run against a failing platform, each
    proved to be one of the transitions of `Vrfs.Step`. */
module VrfCalls {
  import opened Common
  import opened Store
  import opened Keys
  import opened L3
  import opened L3Calls
  import opened Vrfs
  import opened VrfReads

  // --------------------------------------------------------- put and create

  /** `keys(…)` with a prefix pattern: does anything match?  A failed scan reads as
      nothing. */
  method AnyKey(plat: Platform, prefix: string) returns (found: bool)
    requires plat.Valid()
    modifies plat`calls
    ensures old(plat.calls) < plat.calls
    ensures found ==> exists n :: Key(CONFIG_DB, n) in plat.rows && prefix <= n
    ensures AllWork(plat.fault, old(plat.calls), plat.calls) && !found ==>
              forall n :: Key(CONFIG_DB, n) in plat.rows ==> !(prefix <= n)
  {
    var ok, names := plat.Scan(CONFIG_DB, prefix);
    found := names != [];
    if found {
      assert names[0] in names;
    } else if AllWork(plat.fault, old(plat.calls), plat.calls) {
      assert plat.fault(old(plat.calls)) == Works;
      assert forall n :: n !in names;
    }
  }

  method CheckBase(plat: Platform, name: string) returns (ok: bool, found: bool)
    requires plat.Valid()
    modifies plat`calls
    ensures old(plat.calls) < plat.calls
    ensures ok && found ==> BaseExists(plat.rows, name)
    ensures AllWork(plat.fault, old(plat.calls), plat.calls) ==> ok && (found <==> BaseExists(plat.rows, name))
  {
    if KindOf(name) == Loopback {
      ok := true;
      var sees, row := plat.Exists(AttrKey(AttrName(name)));
      found := sees && row;
      if !found {
        found := AnyKey(plat, "LOOPBACK_INTERFACE|" + name + "|");
      }
    } else {
      ok, found := plat.Exists(Key(CONFIG_DB, BaseTable(KindOf(name)) + name));
    }
  }

  method CheckInput(plat: Platform, vrf: Option<string>, addresses: seq<string>) returns (r: WriteResult)
    requires plat.Valid()
    modifies plat`calls
    ensures old(plat.calls) <= plat.calls
    ensures r in {Done, BadRequest, Redis}
    ensures r.Done? ==> InputOk(plat.rows, vrf, addresses)
    ensures AllWork(plat.fault, old(plat.calls), plat.calls) ==> (r.Done? <==> InputOk(plat.rows, vrf, addresses)) && !r.Redis?
  {
    if vrf.Some? {
      if !("Vrf" <= vrf.value) { return BadRequest; }
      var ok, found := plat.Exists(VrfKey(vrf.value));
      if !ok { return Redis; }
      if !found { return BadRequest; }
    }
    var i := 0;
    while i < |addresses|
      invariant 0 <= i <= |addresses|
      invariant forall j :: 0 <= j < i ==> ValidCidr(addresses[j])
    {
      if !ValidCidr(addresses[i]) { return BadRequest; }
      i := i + 1;
    }
    var seen: set<string> := {};
    i := 0;
    while i < |addresses|
      invariant 0 <= i <= |addresses|
      invariant seen == Elements(addresses[..i])
      invariant forall j, k :: 0 <= j < k < i ==> addresses[j] != addresses[k]
    {
      if addresses[i] in seen {
        assert exists j :: 0 <= j < i && addresses[j] == addresses[i];
        return BadRequest;
      }
      assert forall j :: 0 <= j < i ==> addresses[..i][j] in seen;
      assert addresses[..i + 1] == addresses[..i] + [addresses[i]];
      seen := seen + {addresses[i]};
      i := i + 1;
    }
    r := Done;
  }

  /** The validated input never holds an empty address, and a consistent store only
      bindable VRFs. */
  lemma InputFacts(db: Db, vrf: Option<string>, addresses: seq<string>)
    requires InputOk(db, vrf, addresses)
    ensures "" !in addresses
    ensures Consistent(db) ==> Bindable(vrf)
  {
    forall i | 0 <= i < |addresses| ensures addresses[i] != "" {
      assert ValidCidr(addresses[i]);
    }
  }

  /** A put or create that reaches `converge` ends in exactly the target state or exactly
      the starting state; a refused one changes nothing. */
  ghost predicate AllOrNothing(before: Db, name: string, vrf: Option<string>, addresses: seq<string>, r: WriteResult, after: Db) {
    && (r.Done? ==> InputOk(before, vrf, addresses) && Converged(before, name, vrf, addresses, after))
    && (!r.Done? ==> after == before)
  }

  /** The input checked, then the interface converged: what put and create share. */
  method Configure(plat: Platform, name: string, vrf: Option<string>, addresses: seq<string>)
    returns (r: WriteResult, ghost forward: seq<Op>)
    requires plat.Valid()
    modifies plat
    ensures plat.Valid() && old(plat.calls) <= plat.calls
    ensures r.Done? || OneFailureAtMost(plat.fault, old(plat.calls), plat.calls) ==>
              AllOrNothing(old(plat.rows), name, vrf, addresses, r, plat.rows)
    ensures r.Done? ==> Configured(old(plat.rows), plat.rows, AttrName(name), vrf, Elements(addresses))
    ensures AllWork(plat.fault, old(plat.calls), plat.calls) ==> r == if InputOk(old(plat.rows), vrf, addresses) then Done else BadRequest
    ensures Logged(old(plat.log), plat.log, forward, old(plat.rows), r.Done?)
    ensures Consistent(old(plat.rows)) ==> Sequenced(old(plat.rows), forward, AttrName(name))
  {
    SequencedNone(plat.rows, AttrName(name));
    hide Target, Configured, Sequenced, ValidCidr, AttrName, Consistent, IsRestore;
    forward := [];
    r := CheckInput(plat, vrf, addresses);
    if !r.Done? { return; }
    InputFacts(plat.rows, vrf, addresses);
    var ok;
    ok, forward := Converge(plat, AttrName(name), vrf, addresses);
    r := if ok then Done else Redis;
  }

  method PutInterface(plat: Platform, name: string, vrf: Option<string>, addresses: seq<string>)
    returns (r: WriteResult, ghost forward: seq<Op>)
    requires plat.Valid()
    modifies plat
    ensures plat.Valid() && old(plat.calls) < plat.calls
    ensures r.Done? || OneFailureAtMost(plat.fault, old(plat.calls), plat.calls) ==>
              AllOrNothing(old(plat.rows), name, vrf, addresses, r, plat.rows)
    ensures r.Done? ==> Configured(old(plat.rows), plat.rows, AttrName(name), vrf, Elements(addresses))
    ensures OneFailureAtMost(plat.fault, old(plat.calls), plat.calls) ==>
              Step(old(plat.rows), Request.PutInterface(name, vrf, addresses), plat.rows)
    ensures AllWork(plat.fault, old(plat.calls), plat.calls) ==>
              r == if !BaseExists(old(plat.rows), name) then NotFound else if InputOk(old(plat.rows), vrf, addresses) then Done else BadRequest
    // what took effect before the end or the failure followed SONiC's order
    ensures Logged(old(plat.log), plat.log, forward, old(plat.rows), r.Done?)
    ensures Consistent(old(plat.rows)) ==> Sequenced(old(plat.rows), forward, AttrName(name))
  {
    SequencedNone(plat.rows, AttrName(name));
    hide Target, Configured, Sequenced, ValidCidr, InputOk, BaseExists, AttrName, Consistent, IsRestore;
    forward := [];
    var ok, found;
    ok, found := CheckBase(plat, name);
    if !ok { return Redis, []; }
    if !found { return NotFound, []; }
    r, forward := Configure(plat, name, vrf, addresses);
  }

  method CreateLoopback(plat: Platform, name: string, vrf: Option<string>, addresses: seq<string>)
    returns (r: WriteResult, ghost forward: seq<Op>)
    requires plat.Valid()
    modifies plat
    ensures plat.Valid() && old(plat.calls) <= plat.calls
    ensures r.Done? || OneFailureAtMost(plat.fault, old(plat.calls), plat.calls) ==>
              AllOrNothing(old(plat.rows), name, vrf, addresses, r, plat.rows)
    ensures r.Done? ==> Configured(old(plat.rows), plat.rows, AttrName(name), vrf, Elements(addresses))
    ensures OneFailureAtMost(plat.fault, old(plat.calls), plat.calls) ==>
              Step(old(plat.rows), Request.CreateLoopback(name, vrf, addresses), plat.rows)
    ensures AllWork(plat.fault, old(plat.calls), plat.calls) ==>
              r == if ValidLoopbackName(name) && !BaseExists(old(plat.rows), name) && InputOk(old(plat.rows), vrf, addresses) then Done else BadRequest
    ensures Logged(old(plat.log), plat.log, forward, old(plat.rows), r.Done?)
    ensures Consistent(old(plat.rows)) ==> Sequenced(old(plat.rows), forward, AttrName(name))
  {
    SequencedNone(plat.rows, AttrName(name));
    hide Target, Configured, Sequenced, ValidCidr, InputOk, BaseExists, AttrName, Consistent, IsRestore;
    forward := [];
    var ok, found;
    if !ValidLoopbackName(name) { return BadRequest, []; }
    ok, found := CheckBase(plat, name);
    if !ok { return Redis, []; }
    if found { return BadRequest, []; }
    r, forward := Configure(plat, name, vrf, addresses);
  }

  // -------------------------------------------------------------- loopback delete

  method DeleteInterface(plat: Platform, name: string) returns (r: WriteResult)
    requires plat.Valid()
    modifies plat
    ensures plat.Valid() && old(plat.calls) <= plat.calls
    ensures Step(old(plat.rows), Request.DeleteInterface(name), plat.rows)
    ensures r.Done? ==> forall k :: k in plat.rows ==> !IsRowOf(name, k)
    ensures AllWork(plat.fault, old(plat.calls), plat.calls) ==>
              r == if KindOf(name) != Loopback then BadRequest else if BaseExists(old(plat.rows), name) then Done else NotFound
  {
    if KindOf(name) != Loopback { return BadRequest; }
    var ok, found := CheckBase(plat, name);
    if !ok { return Redis; }
    if !found { return NotFound; }
    r := DeleteRows(plat, AttrName(name));
  }

  /** The deletion loop: address rows one by one, then the attribute row. */
  method DeleteRows(plat: Platform, attr: string) returns (r: WriteResult)
    requires plat.Valid()
    modifies plat
    ensures plat.Valid() && old(plat.calls) <= plat.calls
    ensures plat.rows.Keys <= old(plat.rows).Keys
    ensures forall k :: k in plat.rows ==> plat.rows[k] == old(plat.rows)[k]
    ensures forall k :: k in old(plat.rows) && k !in plat.rows ==> k == AttrKey(attr) || Beneath(k, attr + "|")
    ensures r.Done? || (AttrKey(attr) in old(plat.rows) && AttrKey(attr) !in plat.rows) ==>
              forall k :: k in plat.rows ==> k != AttrKey(attr) && !Beneath(k, attr + "|")
    ensures r == if AllWork(plat.fault, old(plat.calls), plat.calls) then Done else Redis
  {
    assert !Beneath(AttrKey(attr), attr + "|");
    hide Beneath, AttrKey;
    var ok; ghost var gone;
    ok, gone := DeleteBeneath(plat, attr + "|");
    if !ok { return Redis; }
    ok := plat.Write(Del(AttrKey(attr)));
    r := if ok then Done else Redis;
  }

  // ------------------------------------------------------------------- VRF rows

  /** The VRF row reads back as asked for, and no other row changed. */
  ghost predicate VrfSays(db: Db, after: Db, name: string, fallback: bool, vni: Option<nat>) {
    && SaysBool(RowOf(after, VrfKey(name)), "fallback", fallback) && SaysNumber(RowOf(after, VrfKey(name)), "vni", vni)
    && KeepsOthers(RowOf(db, VrfKey(name)), RowOf(after, VrfKey(name)), {"fallback", "vni"})
    && forall k :: k != VrfKey(name) ==> RowOf(after, k) == RowOf(db, k)
  }

  lemma VrfOpsSay(db: Db, name: string, fallback: bool, vni: Option<nat>)
    ensures VrfSays(db, ExecAll(db, VrfOps(name, fallback, vni)), name, fallback, vni)
  {
    hide NumField, BoolField;
    var ops, key := VrfOps(name, fallback, vni), VrfKey(name);
    assert "fallback"[0] == 'f' && "vni"[0] == 'v';
    ExecTwo(db, ops[0], ops[1]);
    ExecReads(db, ops[0], key);
    ExecReads(Exec(db, ops[0]), ops[1], key);
    var after := RowOf(ExecAll(db, ops), key);
    RenderedSays(after, "vni", vni);
    FlagSays(after, "fallback", fallback);
    forall k | k != key ensures RowOf(ExecAll(db, ops), k) == RowOf(db, k) {
      ExecReads(db, ops[0], k);
      ExecReads(Exec(db, ops[0]), ops[1], k);
    }
  }

  method WriteVrfFields(plat: Platform, name: string, fallback: bool, vni: Option<nat>) returns (r: WriteResult)
    requires plat.Valid()
    modifies plat
    ensures plat.Valid() && old(plat.calls) <= plat.calls
    ensures PartlyDone(old(plat.rows), VrfOps(name, fallback, vni), plat.rows)
    ensures r.Done? ==> plat.rows == ExecAll(old(plat.rows), VrfOps(name, fallback, vni))
    ensures r.Done? ==> VrfSays(old(plat.rows), plat.rows, name, fallback, vni)
    ensures r == if AllWork(plat.fault, old(plat.calls), plat.calls) then Done else Redis
  {
    var ops := VrfOps(name, fallback, vni);
    assert "fallback" in ops[0].fields;
    assert vni.Some? ==> "vni" in ops[1].fields;
    assert vni.None? ==> "vni" in ops[1].names;
    var ok; ghost var done;
    ok, done := WriteEach(plat, ops);
    assert ops[..|ops|] == ops;
    VrfOpsSay(old(plat.rows), name, fallback, vni);
    r := if ok then Done else Redis;
  }

  method CreateVrf(plat: Platform, name: string, fallback: bool, vni: Option<nat>) returns (r: WriteResult)
    requires plat.Valid()
    modifies plat
    ensures plat.Valid() && old(plat.calls) <= plat.calls
    ensures Step(old(plat.rows), Request.CreateVrf(name, fallback, vni), plat.rows)
    ensures r.Done? ==> plat.rows == ExecAll(old(plat.rows), VrfOps(name, fallback, vni))
    ensures r.Done? ==> VrfSays(old(plat.rows), plat.rows, name, fallback, vni)
    ensures r !in {Done, Redis} ==> plat.rows == old(plat.rows)
    ensures AllWork(plat.fault, old(plat.calls), plat.calls) ==>
              r == if ValidVrfName(name) && ValidVni(vni) && VrfKey(name) !in old(plat.rows) then Done else BadRequest
  {
    if !ValidVrfName(name) || !ValidVni(vni) { return BadRequest; }
    var ok, found := plat.Exists(VrfKey(name));
    if !ok { return Redis; }
    if found { return BadRequest; }
    r := WriteVrfFields(plat, name, fallback, vni);
  }

  method UpdateVrf(plat: Platform, name: string, fallback: bool, vni: Option<nat>) returns (r: WriteResult)
    requires plat.Valid()
    modifies plat
    ensures plat.Valid() && old(plat.calls) <= plat.calls
    ensures Step(old(plat.rows), Request.UpdateVrf(name, fallback, vni), plat.rows)
    ensures r.Done? ==> plat.rows == ExecAll(old(plat.rows), VrfOps(name, fallback, vni))
    ensures r.Done? ==> VrfSays(old(plat.rows), plat.rows, name, fallback, vni)
    ensures r !in {Done, Redis} ==> plat.rows == old(plat.rows)
    ensures AllWork(plat.fault, old(plat.calls), plat.calls) ==>
              r == if !ValidVni(vni) then BadRequest else if VrfKey(name) in old(plat.rows) then Done else NotFound
  {
    if !ValidVni(vni) { return BadRequest; }
    var ok, found := plat.Exists(VrfKey(name));
    if !ok { return Redis; }
    if !found { return NotFound; }
    r := WriteVrfFields(plat, name, fallback, vni);
  }

  // ------------------------------------------------------------------ VRF delete

  /** The calls of a deletion other than its row reads work: the check that the VRF is
      there, the scans, the DEL. */
  ghost predicate OthersWork(fault: nat -> Fault, lo: nat, read: seq<seq<string>>) {
    fault(lo) == Works && ScansWork(fault, lo + 1, read) && fault(lo + 1 + Offset(read, |read|)) == Works
  }

  /** Refused while an interface is bound, as far as the degrading reads can tell; `read`
      lists the rows read, table by table. */
  method DeleteVrf(plat: Platform, name: string) returns (r: WriteResult, ghost read: seq<seq<string>>)
    requires plat.Valid()
    modifies plat
    ensures plat.Valid() && old(plat.calls) < plat.calls
    ensures r.Done? ==> VrfKey(name) in old(plat.rows) && plat.rows == old(plat.rows) - {VrfKey(name)}
    ensures r !in {Done, Redis} ==> plat.rows == old(plat.rows)
    // whatever fails, this is one of the transitions unless the VRF is bound and every row
    // that binds it was lost to a failed read
    ensures var lost := LostRows(plat.fault, old(plat.calls) + 1, read);
      InOwnTables(old(plat.rows)) && !(Bound(old(plat.rows), name) && AllLost(old(plat.rows), lost, name)) ==>
        Step(old(plat.rows), Request.DeleteVrf(name), plat.rows)
    // and with only row reads failing it is done exactly when every binding row was lost
    ensures var lost := LostRows(plat.fault, old(plat.calls) + 1, read);
      OthersWork(plat.fault, old(plat.calls), read) && InOwnTables(old(plat.rows)) ==>
        r == if VrfKey(name) !in old(plat.rows) then NotFound else if AllLost(old(plat.rows), lost, name) then Done else Conflict
    ensures AllWork(plat.fault, old(plat.calls), plat.calls) && InOwnTables(old(plat.rows)) ==>
              r == if VrfKey(name) !in old(plat.rows) then NotFound else if Bound(old(plat.rows), name) then Conflict else Done
    // which rows are read, and by which calls
    ensures ReadsOnly(old(plat.rows), read)
    ensures VrfKey(name) in old(plat.rows) && plat.fault(old(plat.calls)) == Works && ScansWork(plat.fault, old(plat.calls) + 1, read) ==>
              |read| == 4 && ReadsAll(old(plat.rows), read)
    ensures plat.steady ==> forall j :: 0 <= j < |read| ==> NoRepeats(read[j])
  {
    hide InOwnTables, BindsTo, BoundNames, AllFound, Merge, ScansWork, LostRows, Offset, ReadsAll, AllLost;
    read := [];
    var ok, found := plat.Exists(VrfKey(name));
    if !ok || !found {
      r := if ok then NotFound else Redis;
      return;
    }
    var attrs;
    ghost var c, before := plat.calls, plat.rows;
    ghost var tables;
    ok, attrs, tables, read := L3Rows(plat);
    if AllWork(plat.fault, c, plat.calls) {
      NoneLostAnywhere(plat.fault, c, read);
    }
    if !ok {
      r := Redis;
      return;
    }
    ghost var lost := LostRows(plat.fault, c, read);
    if InOwnTables(before) {
      ShownExactly(before, tables, lost, name);
      NothingLost(before, lost, name);
    }
    assert AllWork(plat.fault, old(plat.calls), plat.calls) ==> AllWork(plat.fault, c, plat.calls);
    if BoundNames(attrs, name) != {} {
      r := Conflict;
      return;
    }
    ok := plat.Write(Del(VrfKey(name)));
    r := if ok then Done else Redis;
  }

  /** Nothing bound is nothing to lose; and where nothing was lost only that. */
  lemma NothingLost(db: Db, lost: seq<set<string>>, vrf: string)
    requires |lost| == 4
    ensures !Bound(db, vrf) ==> AllLost(db, lost, vrf) && forall kind, k :: !BindsTo(db, kind, k, vrf)
    ensures (forall j :: 0 <= j < 4 ==> lost[j] == {}) ==> (AllLost(db, lost, vrf) <==> !Bound(db, vrf))
  {
    hide BindsTo;
    if Bound(db, vrf) && forall j :: 0 <= j < 4 ==> lost[j] == {} {
      var kind, k :| BindsTo(db, kind, k, vrf);
      assert lost[KindIndex(kind)] == {};
    }
  }

  /** The deletion is safe exactly when nothing binds the VRF: a lost read of a binding
      row therefore does break the invariant. */
  lemma DeletingVrfSafeExactly(db: Db, name: string)
    requires Consistent(db)
    ensures Consistent(db - {VrfKey(name)}) <==> forall kind, k :: !BindsTo(db, kind, k, name)
  {
    var db' := db - {VrfKey(name)};
    if forall kind, k :: !BindsTo(db, kind, k, name) {
      UnboundVrfRemovable(db, name);
    } else {
      var kind, k :| BindsTo(db, kind, k, name);
      RowIsNotVrf(kind, k, name);
      assert BindsTo(db', kind, k, name);
    }
  }

  lemma RowIsNotVrf(kind: Kind, key: Key, name: string)
    requires IsAttrRow(kind, key)
    ensures key != VrfKey(name)
  {
    VrfKeyApart(name, kind, name);
  }
}
