/** A run of `delete_vrf` (`src/sonic/l3.rs`) that removes a VRF under an interface bound
    to it, because the one row that binds it cannot be read. */
module VrfWitness {
  import opened Common
  import opened Text
  import opened Store
  import opened Keys
  import opened L3
  import opened Vrfs
  import opened VrfReads
  import opened VrfCalls

  const VRF := "Vrf1"
  const LOOPBACK := "Loopback" + "0"
  const BINDING := Key(CONFIG_DB, "LOOPBACK_INTERFACE|" + LOOPBACK)

  /** One VRF and one loopback bound to it. */
  const ONE_BOUND: Db := map[VrfKey(VRF) := map["fallback" := "false"], BINDING := map["vrf_name" := VRF]]

  /** Only call 5 fails: the read of the row that binds the VRF, after the check that the
      VRF is there and the four scans. */
  method BoundVrfDeleted() returns (plat: Platform, r: WriteResult)
    ensures Consistent(ONE_BOUND) && Bound(ONE_BOUND, VRF)
    ensures r.Done? && plat.rows == ONE_BOUND - {VrfKey(VRF)} && !Consistent(plat.rows)
  {
    hide Consistent, VrfKey, BindsTo, InOwnTables, HasAttrRow, AllLost, ReadsAll, ReadsOnly, Offset, ScansWork, LostRows, Bound, NoRepeats,
         IsAttrRow;
    StoreFacts();
    plat := new Platform(ONE_BOUND, c => if c == 5 then Refused else Works, true);
    ghost var read;
    r, read := VrfCalls.DeleteVrf(plat, VRF);
    ScansOf(plat.fault, read);
    if |read| == 4 && ReadsAll(ONE_BOUND, read) {
      OneRowLost(plat.fault, read);
    }
    DeletingVrfSafeExactly(ONE_BOUND, VRF);
    StillBound();
  }

  lemma StillBound()
    requires Bound(ONE_BOUND, VRF)
    ensures !forall kind, k :: !BindsTo(ONE_BOUND, kind, k, VRF)
  {
    hide BindsTo;
  }

  lemma NameFacts()
    ensures KindOf(LOOPBACK) == Kind.Loopback && Lacks(LOOPBACK, '|') && LOOPBACK != "" && Trimmed(VRF) && VRF != ""
    ensures BINDING != VrfKey(VRF)
  {
    assert LOOPBACK[0] == 'L' && "PortChannel"[0] == 'P' && "Vlan"[0] == 'V';
    assert VrfKey(VRF).name[0] == 'V' && BINDING.name[0] == 'L';
  }

  lemma OnlyAttrRow(kind: Kind, k: Key)
    ensures k in ONE_BOUND && IsAttrRow(kind, k) ==> kind == Kind.Loopback && k == BINDING && AttrRowName(kind, k) == LOOPBACK
    ensures IsAttrRow(Kind.Loopback, BINDING) && AttrRowName(Kind.Loopback, BINDING) == LOOPBACK
  {
    NameFacts();
    hide VrfKey;
    var p := TableOfKind(Kind.Loopback) + "|";
    assert BINDING.name == p + LOOPBACK && BINDING.name[|p|..] == LOOPBACK;
    assert FieldLen(LOOPBACK, '|') == |LOOPBACK|;
    if k in ONE_BOUND && IsAttrRow(kind, k) {
      VrfKeyApart(VRF, kind, VRF);
      assert k == VrfKey(VRF) || k == BINDING;
      if k == BINDING {
        TablesApart(kind, Kind.Loopback, k.name);
      }
      VrfKeyName();
    }
  }

  lemma VrfKeyName()
    ensures VrfKey(VRF).name == "VRF|" + VRF
  {
  }

  lemma StoreFacts()
    ensures NoEmptyRows(ONE_BOUND) && VrfKey(VRF) in ONE_BOUND && InOwnTables(ONE_BOUND) && Consistent(ONE_BOUND)
    ensures Bound(ONE_BOUND, VRF)
  {
    NameFacts();
    hide IsAttrRow, KindOf, VrfKey;
    forall kind, k ensures k in ONE_BOUND && IsAttrRow(kind, k) ==> k == BINDING && KindOf(AttrRowName(kind, k)) == kind {
      OnlyAttrRow(kind, k);
    }
    assert "vrf_name" in ONE_BOUND[BINDING] && "fallback" in ONE_BOUND[VrfKey(VRF)];
    assert Field(ONE_BOUND[BINDING], "vrf_name") == Some(VRF);
    OnlyAttrRow(Kind.Loopback, BINDING);
    assert BindsTo(ONE_BOUND, Kind.Loopback, BINDING, VRF);
    forall v | VrfKey(v) in ONE_BOUND ensures Trimmed(v) {
      VrfKeyApart(v, Kind.Loopback, VRF);
      VrfKeyOnly(v);
    }
  }

  lemma VrfKeyOnly(v: string)
    ensures VrfKey(v) != BINDING
  {
    assert VrfKey(v).name[0] == 'V' && BINDING.name[0] == 'L';
  }

  lemma BindingIsThere()
    ensures BINDING in ONE_BOUND && BINDING == Key(CONFIG_DB, Prefix(ALL_KINDS[3]) + LOOPBACK)
    ensures IsAttrRow(ALL_KINDS[3], BINDING) && AttrRowName(ALL_KINDS[3], BINDING) == LOOPBACK
  {
    hide IsAttrRow, AttrRowName, VrfKey;
    OnlyAttrRow(Kind.Loopback, BINDING);
    assert BINDING.name == "LOOPBACK_INTERFACE" + "|" + LOOPBACK;
  }

  lemma TableRows(j: nat, n: string)
    requires j < 4
    ensures HasAttrRow(ONE_BOUND, Prefix(ALL_KINDS[j]), n) ==> j == 3 && n == LOOPBACK
    ensures j == 3 && n == LOOPBACK ==> HasAttrRow(ONE_BOUND, Prefix(ALL_KINDS[j]), n)
  {
    hide TwoParts, VrfKey, HasAttrRow, IsAttrRow, AttrRowName;
    HasRowNamed(ONE_BOUND, ALL_KINDS[j], n);
    OnlyAttrRow(ALL_KINDS[j], Key(CONFIG_DB, Prefix(ALL_KINDS[j]) + n));
    if j == 3 && n == LOOPBACK {
      BindingIsThere();
    }
  }

  /** Nothing is read of the first three tables, so the scans are calls 1 to 4. */
  lemma ScansOf(fault: nat -> Fault, read: seq<seq<string>>)
    requires forall c :: fault(c) == if c == 5 then Refused else Works
    requires ReadsOnly(ONE_BOUND, read)
    ensures ScansWork(fault, 1, read)
    ensures forall j: nat :: j < |read| ==> Offset(read, j) == j && (j < 3 ==> read[j] == [])
  {
    hide HasAttrRow;
    forall j | 0 <= j < |read| && j < 3 ensures read[j] == [] {
      if read[j] != [] {
        TableRows(j, read[j][0]);
      }
    }
    OffsetsAre(read);
  }

  lemma OffsetsAre(read: seq<seq<string>>)
    requires |read| <= 4 && forall j :: 0 <= j < |read| && j < 3 ==> read[j] == []
    ensures forall j: nat :: j < |read| ==> Offset(read, j) == j
  {
    assert |read| > 1 ==> Offset(read, 1) == 1 + Offset(read, 0);
    assert |read| > 2 ==> Offset(read, 2) == 1 + Offset(read, 1);
    assert |read| > 3 ==> Offset(read, 3) == 1 + Offset(read, 2);
  }

  /** The one row read is read by call 5 and lost. */
  lemma OneRowLost(fault: nat -> Fault, read: seq<seq<string>>)
    requires forall c :: fault(c) == if c == 5 then Refused else Works
    requires |read| == 4 && ReadsAll(ONE_BOUND, read) && ReadsOnly(ONE_BOUND, read) && NoRepeats(read[3])
    ensures OthersWork(fault, 0, read) && AllLost(ONE_BOUND, LostRows(fault, 1, read), VRF)
  {
    ScansOf(fault, read);
    hide HasAttrRow, BindsTo, IsAttrRow;
    var last := read[3];
    TableRows(3, LOOPBACK);
    assert LOOPBACK in last;
    forall n | n in last ensures n == LOOPBACK {
      TableRows(3, n);
    }
    Single(last, LOOPBACK);
    assert Offset(read, 4) == Offset(read, 3) + 1 + |last| == 5;
    var lost := LostRows(fault, 1, read);
    OnlyLost(fault);
    assert lost[3] == LostOf(fault, 5, last);
    forall kind, k | BindsTo(ONE_BOUND, kind, k, VRF) ensures AttrRowName(kind, k) in lost[KindIndex(kind)] {
      BindingRow(kind, k);
    }
  }

  lemma Single(s: seq<string>, x: string)
    requires x in s && NoRepeats(s)
    ensures s == [x] || exists y :: y in s && y != x
  {
    if |s| > 1 {
      assert s[0] != s[1];
      assert s[if s[0] == x then 1 else 0] in s;
    }
  }

  lemma BindingRow(kind: Kind, k: Key)
    requires BindsTo(ONE_BOUND, kind, k, VRF)
    ensures kind == Kind.Loopback && IsAttrRow(kind, k) && AttrRowName(kind, k) == LOOPBACK
  {
    hide IsAttrRow;
    OnlyAttrRow(kind, k);
  }

  lemma OnlyLost(fault: nat -> Fault)
    requires fault(5) != Works
    ensures LostOf(fault, 5, [LOOPBACK]) == {LOOPBACK}
  {
    assert [LOOPBACK][..0] == [];
  }
}
