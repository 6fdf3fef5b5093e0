/** BGP rows (`src/sonic/bgp.rs`): the hierarchy of instance, neighbor and address-family
    rows that the frrcfgd-mode calls build, and the flat rows of legacy mode beside it. */
module Bgp {
  import opened Common
  import opened Text
  import opened Store
  import opened Keys

  const GLOBALS := "BGP_GLOBALS|"
  const GLOBALS_AF := "BGP_GLOBALS_AF|"
  const NEIGHBOR := "BGP_NEIGHBOR|"
  const NEIGHBOR_AF := "BGP_NEIGHBOR_AF|"

  function GlobalKey(vrf: string): Key {
    Key(CONFIG_DB, GLOBALS + vrf)
  }

  function NeighborKey(vrf: string, peer: string): Key {
    Key(CONFIG_DB, NEIGHBOR + vrf + "|" + peer)
  }

  function LegacyKey(peer: string): Key {
    Key(CONFIG_DB, NEIGHBOR + peer)
  }

  function AfPrefix(vrf: string, peer: string): string {
    NEIGHBOR_AF + vrf + "|" + peer + "|"
  }

  /** The address-family rows of one neighbor, by family. */
  function AfKeys(vrf: string, peer: string): string -> Key {
    (af: string) => Key(CONFIG_DB, AfPrefix(vrf, peer) + af)
  }

  /** The (VRF, peer) of a neighbor row of the frrcfgd schema. */
  function NeighborOf(k: Key): Option<(string, string)> {
    if k.db == CONFIG_DB then TwoParts(k.name, NEIGHBOR) else None
  }

  /** The (VRF, peer, family) of an address-family row. */
  function AfOf(k: Key): Option<(string, string, string)> {
    if k.db == CONFIG_DB then ThreeParts(k.name, NEIGHBOR_AF) else None
  }

  // ------------------------------------------------------------------ hierarchy

  /** Every address-family row belongs to a neighbor row, every per-VRF neighbor row to a
      BGP_GLOBALS row. */
  ghost predicate Nested(db: Db) {
    && (forall k :: k in db && AfOf(k).Some? ==> NeighborKey(AfOf(k).value.0, AfOf(k).value.1) in db)
    && (forall k :: k in db && NeighborOf(k).Some? ==> GlobalKey(NeighborOf(k).value.0) in db)
  }

  /** The rows frrcfgd reads: instances, per-VRF neighbors, address families. */
  predicate IsFrr(k: Key) {
    Beneath(k, "BGP_GLOBALS") || NeighborOf(k).Some? || Beneath(k, NEIGHBOR_AF)
  }

  lemma KeyTables(vrf: string, peer: string, af: string)
    ensures NeighborOf(GlobalKey(vrf)) == None && AfOf(GlobalKey(vrf)) == None
    ensures AfOf(NeighborKey(vrf, peer)) == None && AfOf(LegacyKey(peer)) == None
    ensures NeighborOf(AfKeys(vrf, peer)(af)) == None
    ensures !Beneath(GlobalKey(vrf), NEIGHBOR) && !Beneath(GlobalKey(vrf), NEIGHBOR_AF) && !Beneath(GlobalKey(vrf), GLOBALS_AF)
    ensures !Beneath(NeighborKey(vrf, peer), NEIGHBOR_AF) && !Beneath(NeighborKey(vrf, peer), "BGP_GLOBALS")
    ensures !Beneath(LegacyKey(peer), NEIGHBOR_AF) && !Beneath(LegacyKey(peer), "BGP_GLOBALS")
    ensures !Beneath(AfKeys(vrf, peer)(af), NEIGHBOR) && !Beneath(AfKeys(vrf, peer)(af), "BGP_GLOBALS")
  {
    assert "BGP_NEIGHBOR|"[12] == '|' && "BGP_NEIGHBOR_AF|"[12] == '_' && "BGP_GLOBALS|"[4] == 'G' && "BGP_GLOBALS|"[11] == '|';
    assert "BGP_NEIGHBOR|"[4] == 'N' && "BGP_NEIGHBOR_AF|"[4] == 'N' && "BGP_GLOBALS_AF|"[11] == '_' && "BGP_GLOBALS"[4] == 'G';
    assert GlobalKey(vrf).name[4] == 'G' && GlobalKey(vrf).name[11] == '|';
    assert NeighborKey(vrf, peer).name[12] == '|' && NeighborKey(vrf, peer).name[4] == 'N';
    assert LegacyKey(peer).name[12] == '|' && LegacyKey(peer).name[4] == 'N';
    assert AfKeys(vrf, peer)(af).name[12] == '_' && AfKeys(vrf, peer)(af).name[4] == 'N';
  }

  lemma NeighborParts(k: Key)
    requires NeighborOf(k).Some?
    ensures var (vrf, peer) := NeighborOf(k).value; IsPart(vrf) && peer != "" && k == NeighborKey(vrf, peer)
  {
    var (vrf, peer) := NeighborOf(k).value;
    SplitOnceInverse(k.name[|NEIGHBOR|..], '|');
    TwoPartsExactly(k.name, NEIGHBOR, vrf, peer);
  }

  lemma AfParts(k: Key)
    requires AfOf(k).Some?
    ensures var (vrf, peer, af) := AfOf(k).value;
      IsPart(vrf) && IsPart(peer) && af != "" && k == AfKeys(vrf, peer)(af) && Beneath(k, AfPrefix(vrf, peer))
  {
    var (vrf, peer, af) := AfOf(k).value;
    var rest := SplitOnce(k.name[|NEIGHBOR_AF|..], '|').value.1;
    SplitOnceInverse(k.name[|NEIGHBOR_AF|..], '|');
    SplitOnceInverse(rest, '|');
    ThreePartsExactly(k.name, NEIGHBOR_AF, vrf, peer, af);
    assert NEIGHBOR_AF + vrf + "|" + (peer + "|" + af) == AfPrefix(vrf, peer) + af;
  }

  /** A key under a neighbor's family prefix is one of its family rows. */
  lemma UnderAfPrefix(k: Key, vrf: string, peer: string)
    requires IsPart(vrf) && IsPart(peer) && Beneath(k, AfPrefix(vrf, peer))
    ensures k == AfKeys(vrf, peer)(k.name[|AfPrefix(vrf, peer)|..])
    ensures AfOf(k).Some? ==> AfOf(k).value.0 == vrf && AfOf(k).value.1 == peer
    ensures AfOf(k).Some? <==> k.name != AfPrefix(vrf, peer)
  {
    hide ThreeParts;
    var p := AfPrefix(vrf, peer);
    var af := k.name[|p|..];
    assert k.name == p + af;
    assert p + af == NEIGHBOR_AF + vrf + "|" + (peer + "|" + af);
    ThreePartsExactly(k.name, NEIGHBOR_AF, vrf, peer, af);
    if af == "" {
      assert p + af == p;
      NoFamily(vrf, peer);
    }
  }

  lemma NoFamily(vrf: string, peer: string)
    requires IsPart(vrf) && IsPart(peer)
    ensures ThreeParts(AfPrefix(vrf, peer), NEIGHBOR_AF) == None
  {
    var rest := peer + ['|'] + "";
    assert AfPrefix(vrf, peer)[|NEIGHBOR_AF|..] == vrf + ['|'] + rest;
    SplitOnceOf(vrf, '|', rest);
    SplitOnceOf(peer, '|', "");
  }

  // ---------------------------------------------------------------- transitions

  /** Setting an instance up. */
  ghost predicate GlobalStep(a: Db, b: Db) {
    exists vrf :: GlobalKey(vrf) in b && SameBut(a, b, k => k == GlobalKey(vrf) || Beneath(k, GLOBALS_AF))
  }

  /** The rows under a VRF. */
  predicate OfVrf(k: Key, vrf: string) {
    || k == GlobalKey(vrf) || Beneath(k, GLOBALS_AF + vrf + "|") || Beneath(k, NEIGHBOR + vrf + "|")
    || Beneath(k, NEIGHBOR_AF + vrf + "|")
  }

  /** Taking an instance down with everything under it. */
  ghost predicate TeardownStep(a: Db, b: Db) {
    exists vrf | IsPart(vrf) :: forall k :: RowOf(b, k) == if OfVrf(k, vrf) then map[] else RowOf(a, k)
  }

  /** Creating or changing a neighbor of an existing instance. */
  ghost predicate UpsertStep(a: Db, b: Db) {
    exists vrf, peer :: IsPart(vrf) && IsPart(peer) && UpsertOf(a, b, vrf, peer)
  }

  ghost predicate UpsertOf(a: Db, b: Db, vrf: string, peer: string) {
    && GlobalKey(vrf) in a && NeighborKey(vrf, peer) in b
    && SameBut(a, b, k => k == NeighborKey(vrf, peer) || Beneath(k, AfPrefix(vrf, peer)))
  }

  /** Deleting a neighbor, even half-way: its family rows go first. */
  ghost predicate DeleteStep(a: Db, b: Db) {
    exists vrf, peer :: IsPart(vrf) && IsPart(peer) && DeleteOf(a, b, vrf, peer)
  }

  ghost predicate DeleteOf(a: Db, b: Db, vrf: string, peer: string) {
    && (forall k :: k in b ==> k in a)
    && SameBut(a, b, k => k == NeighborKey(vrf, peer) || Beneath(k, AfPrefix(vrf, peer)))
    && (NeighborKey(vrf, peer) in b || NeighborKey(vrf, peer) !in a || forall k :: k in b ==> !Beneath(k, AfPrefix(vrf, peer)))
  }

  /** Any call of legacy mode, and of the rest of the agent: no frrcfgd row changes. */
  ghost predicate LegacyStep(a: Db, b: Db) {
    SameBut(a, b, k => !IsFrr(k))
  }

  ghost predicate Step(a: Db, b: Db) {
    GlobalStep(a, b) || TeardownStep(a, b) || UpsertStep(a, b) || DeleteStep(a, b) || LegacyStep(a, b)
  }

  lemma GlobalKeepsNested(a: Db, b: Db, vrf: string)
    requires NoEmptyRows(a) && NoEmptyRows(b) && Nested(a)
    requires GlobalKey(vrf) in b && SameBut(a, b, k => k == GlobalKey(vrf) || Beneath(k, GLOBALS_AF))
    ensures Nested(b)
  {
    hide AfOf, NeighborOf, GlobalKey, NeighborKey, AfKeys;
    KeyTables(vrf, "", "");
    var touched := k => k == GlobalKey(vrf) || Beneath(k, GLOBALS_AF);
    forall k | k in b && AfOf(k).Some? ensures NeighborKey(AfOf(k).value.0, AfOf(k).value.1) in b {
      AfParts(k);
      var (v, p, f) := AfOf(k).value;
      KeyTables(v, p, f);
      NotGlobalsAf(k, v, p, f);
      NotUnderAf(v, p, vrf, "");
      SameRow(a, b, touched, k);
      SameRow(a, b, touched, NeighborKey(v, p));
    }
    forall k | k in b && NeighborOf(k).Some? ensures GlobalKey(NeighborOf(k).value.0) in b {
      NeighborParts(k);
      var (v, p) := NeighborOf(k).value;
      KeyTables(v, p, "");
      NotGlobalsAf(k, v, p, "");
      SameRow(a, b, touched, k);
      if GlobalKey(v) != GlobalKey(vrf) {
        SameRow(a, b, touched, GlobalKey(v));
      }
    }
  }

  lemma NotGlobalsAf(k: Key, vrf: string, peer: string, af: string)
    ensures k == NeighborKey(vrf, peer) || k == AfKeys(vrf, peer)(af) ==> !Beneath(k, GLOBALS_AF)
    ensures !Beneath(NeighborKey(vrf, peer), GLOBALS_AF)
  {
    assert "BGP_GLOBALS_AF|"[4] == 'G' && "BGP_NEIGHBOR|"[4] == 'N' && "BGP_NEIGHBOR_AF|"[4] == 'N';
    assert NeighborKey(vrf, peer).name[4] == 'N' && AfKeys(vrf, peer)(af).name[4] == 'N';
  }

  lemma UpsertKeepsNested(a: Db, b: Db, vrf: string, peer: string)
    requires NoEmptyRows(a) && NoEmptyRows(b) && Nested(a) && IsPart(vrf) && IsPart(peer)
    requires UpsertOf(a, b, vrf, peer)
    ensures Nested(b)
  {
    hide AfOf, NeighborOf, GlobalKey, NeighborKey, AfKeys, AfPrefix;
    var touched := k => k == NeighborKey(vrf, peer) || Beneath(k, AfPrefix(vrf, peer));
    forall k | k in b && AfOf(k).Some? ensures NeighborKey(AfOf(k).value.0, AfOf(k).value.1) in b {
      AfParts(k);
      var (v, p, f) := AfOf(k).value;
      KeyTables(v, p, f);
      KeyTables(vrf, peer, "");
      if Beneath(k, AfPrefix(vrf, peer)) {
        UnderAfPrefix(k, vrf, peer);
      } else {
        SameRow(a, b, touched, k);
        NotUnderAf(vrf, peer, v, p);
        if NeighborKey(v, p) != NeighborKey(vrf, peer) {
          SameRow(a, b, touched, NeighborKey(v, p));
        }
      }
    }
    forall k | k in b && NeighborOf(k).Some? ensures GlobalKey(NeighborOf(k).value.0) in b {
      NeighborParts(k);
      var (v, p) := NeighborOf(k).value;
      NotUnderAf(vrf, peer, v, p);
      SameRow(a, b, touched, GlobalKey(v));
      if k == NeighborKey(vrf, peer) {
        SplitNeighbor(vrf, peer);
        SameRow(a, b, touched, GlobalKey(vrf));
      } else {
        SameRow(a, b, touched, k);
      }
    }
  }

  lemma NotUnderAf(vrf: string, peer: string, v: string, p: string)
    ensures !Beneath(NeighborKey(v, p), AfPrefix(vrf, peer)) && !Beneath(GlobalKey(v), AfPrefix(vrf, peer))
    ensures GlobalKey(v) != NeighborKey(vrf, peer)
  {
    KeyTables(v, p, "");
    assert NEIGHBOR_AF <= AfPrefix(vrf, peer);
    assert "BGP_GLOBALS|"[4] == 'G' && "BGP_NEIGHBOR|"[4] == 'N' && GlobalKey(v).name[4] == 'G' && NeighborKey(vrf, peer).name[4] == 'N';
  }

  lemma SplitNeighbor(vrf: string, peer: string)
    requires IsPart(vrf) && peer != ""
    ensures NeighborOf(NeighborKey(vrf, peer)) == Some((vrf, peer))
  {
    TwoPartsExactly(NeighborKey(vrf, peer).name, NEIGHBOR, vrf, peer);
  }

  lemma DeleteKeepsNested(a: Db, b: Db, vrf: string, peer: string)
    requires NoEmptyRows(a) && NoEmptyRows(b) && Nested(a) && IsPart(vrf) && IsPart(peer)
    requires DeleteOf(a, b, vrf, peer)
    ensures Nested(b)
  {
    hide AfOf, NeighborOf, GlobalKey, NeighborKey, AfKeys, AfPrefix;
    var touched := k => k == NeighborKey(vrf, peer) || Beneath(k, AfPrefix(vrf, peer));
    forall k | k in b && AfOf(k).Some? ensures NeighborKey(AfOf(k).value.0, AfOf(k).value.1) in b {
      AfParts(k);
      var (v, p, f) := AfOf(k).value;
      assert k in a && NeighborKey(v, p) in a;
      NotUnderAf(vrf, peer, v, p);
      if NeighborKey(v, p) == NeighborKey(vrf, peer) {
        SplitNeighbor(vrf, peer);
        SplitNeighbor(v, p);
        assert Beneath(k, AfPrefix(vrf, peer));
      } else {
        SameRow(a, b, touched, NeighborKey(v, p));
      }
    }
    forall k | k in b && NeighborOf(k).Some? ensures GlobalKey(NeighborOf(k).value.0) in b {
      NeighborParts(k);
      var (v, p) := NeighborOf(k).value;
      assert k in a && GlobalKey(v) in a;
      NotUnderAf(vrf, peer, v, p);
      SameRow(a, b, touched, GlobalKey(v));
    }
  }

  lemma TeardownKeepsNested(a: Db, b: Db, vrf: string)
    requires NoEmptyRows(a) && NoEmptyRows(b) && Nested(a) && IsPart(vrf)
    requires forall k :: RowOf(b, k) == if OfVrf(k, vrf) then map[] else RowOf(a, k)
    ensures Nested(b)
  {
    hide AfOf, NeighborOf, GlobalKey, NeighborKey, AfKeys, AfPrefix, OfVrf;
    forall k ensures k in b <==> k in a && !OfVrf(k, vrf) {
      assert RowOf(b, k) == if OfVrf(k, vrf) then map[] else RowOf(a, k);
    }
    forall k | k in b && AfOf(k).Some? ensures NeighborKey(AfOf(k).value.0, AfOf(k).value.1) in b {
      AfParts(k);
      var (v, p, f) := AfOf(k).value;
      OfOtherVrf(vrf, v, p, f);
    }
    forall k | k in b && NeighborOf(k).Some? ensures GlobalKey(NeighborOf(k).value.0) in b {
      NeighborParts(k);
      var (v, p) := NeighborOf(k).value;
      OfOtherVrf(vrf, v, p, "");
    }
  }

  /** The rows of another VRF are not rows of this one. */
  lemma OfOtherVrf(vrf: string, v: string, p: string, f: string)
    requires IsPart(vrf) && IsPart(v)
    ensures OfVrf(GlobalKey(v), vrf) <==> v == vrf
    ensures OfVrf(NeighborKey(v, p), vrf) <==> v == vrf
    ensures OfVrf(AfKeys(v, p)(f), vrf) <==> v == vrf
  {
    hide Beneath;
    KeyTables(v, p, f);
    BeneathExactly(NEIGHBOR, vrf, v, p);
    BeneathExactly(NEIGHBOR_AF, vrf, v, p + "|" + f);
    assert AfKeys(v, p)(f).name == NEIGHBOR_AF + v + "|" + (p + "|" + f);
    NotUnderTables(vrf, v, p, f);
    assert GlobalKey(v).name[|GLOBALS|..] == v && GlobalKey(vrf).name[|GLOBALS|..] == vrf;
  }

  lemma NotUnderTables(vrf: string, v: string, p: string, f: string)
    ensures !Beneath(GlobalKey(v), GLOBALS_AF + vrf + "|") && !Beneath(GlobalKey(v), NEIGHBOR + vrf + "|")
    ensures !Beneath(GlobalKey(v), NEIGHBOR_AF + vrf + "|")
    ensures !Beneath(NeighborKey(v, p), GLOBALS_AF + vrf + "|") && !Beneath(NeighborKey(v, p), NEIGHBOR_AF + vrf + "|")
    ensures !Beneath(AfKeys(v, p)(f), GLOBALS_AF + vrf + "|") && !Beneath(AfKeys(v, p)(f), NEIGHBOR + vrf + "|")
    ensures NeighborKey(v, p) != GlobalKey(vrf) && AfKeys(v, p)(f) != GlobalKey(vrf)
  {
    assert "BGP_NEIGHBOR|"[12] == '|' && "BGP_NEIGHBOR_AF|"[12] == '_' && "BGP_GLOBALS|"[4] == 'G' && "BGP_GLOBALS|"[11] == '|';
    assert "BGP_NEIGHBOR|"[4] == 'N' && "BGP_NEIGHBOR_AF|"[4] == 'N' && "BGP_GLOBALS_AF|"[11] == '_' && "BGP_GLOBALS_AF|"[4] == 'G';
    assert GlobalKey(v).name[4] == 'G' && GlobalKey(v).name[11] == '|' && GlobalKey(vrf).name[4] == 'G';
    assert NeighborKey(v, p).name[12] == '|' && NeighborKey(v, p).name[4] == 'N';
    assert AfKeys(v, p)(f).name[12] == '_' && AfKeys(v, p)(f).name[4] == 'N';
    assert (GLOBALS_AF + vrf + "|")[11] == '_' && (GLOBALS_AF + vrf + "|")[4] == 'G';
    assert (NEIGHBOR + vrf + "|")[12] == '|' && (NEIGHBOR + vrf + "|")[4] == 'N';
    assert (NEIGHBOR_AF + vrf + "|")[12] == '_' && (NEIGHBOR_AF + vrf + "|")[4] == 'N';
  }

  lemma LegacyKeepsNested(a: Db, b: Db)
    requires NoEmptyRows(a) && NoEmptyRows(b) && Nested(a) && LegacyStep(a, b)
    ensures Nested(b)
  {
    hide AfOf, NeighborOf, GlobalKey, NeighborKey, AfKeys, AfPrefix, Beneath;
    var touched := k => !IsFrr(k);
    forall k | k in b && AfOf(k).Some? ensures NeighborKey(AfOf(k).value.0, AfOf(k).value.1) in b {
      AfParts(k);
      var (v, p, f) := AfOf(k).value;
      FrrKeys(v, p, f);
      SplitNeighbor(v, p);
      SameRow(a, b, touched, k);
      SameRow(a, b, touched, NeighborKey(v, p));
    }
    forall k | k in b && NeighborOf(k).Some? ensures GlobalKey(NeighborOf(k).value.0) in b {
      NeighborParts(k);
      var (v, p) := NeighborOf(k).value;
      FrrKeys(v, p, "");
      SameRow(a, b, touched, k);
      SameRow(a, b, touched, GlobalKey(v));
    }
  }

  lemma FrrKeys(vrf: string, peer: string, af: string)
    ensures Beneath(GlobalKey(vrf), "BGP_GLOBALS") && Beneath(AfKeys(vrf, peer)(af), NEIGHBOR_AF)
  {
    assert "BGP_GLOBALS" <= GLOBALS <= GLOBALS + vrf;
    assert NEIGHBOR_AF <= AfPrefix(vrf, peer) + af;
  }

  lemma StepKeepsNested(a: Db, b: Db)
    requires NoEmptyRows(a) && NoEmptyRows(b) && Nested(a) && Step(a, b)
    ensures Nested(b)
  {
    hide Nested, OfVrf, UpsertOf, DeleteOf, SameBut, GlobalKey;
    if GlobalStep(a, b) {
      var vrf :| GlobalKey(vrf) in b && SameBut(a, b, k => k == GlobalKey(vrf) || Beneath(k, GLOBALS_AF));
      GlobalKeepsNested(a, b, vrf);
    } else if TeardownStep(a, b) {
      var vrf :| IsPart(vrf) && forall k :: RowOf(b, k) == if OfVrf(k, vrf) then map[] else RowOf(a, k);
      TeardownKeepsNested(a, b, vrf);
    } else if UpsertStep(a, b) {
      var vrf, peer :| IsPart(vrf) && IsPart(peer) && UpsertOf(a, b, vrf, peer);
      UpsertKeepsNested(a, b, vrf, peer);
    } else if DeleteStep(a, b) {
      var vrf, peer :| IsPart(vrf) && IsPart(peer) && DeleteOf(a, b, vrf, peer);
      DeleteKeepsNested(a, b, vrf, peer);
    } else {
      LegacyKeepsNested(a, b);
    }
  }

  /** Over every run, in any mix of the two modes, every store is properly nested. */
  lemma {:induction false} EveryRunStaysNested(states: seq<Db>, n: nat)
    requires n < |states| && Nested(states[0])
    requires forall i :: 0 <= i < |states| ==> NoEmptyRows(states[i])
    requires forall i :: 0 <= i < |states| - 1 ==> Step(states[i], states[i + 1])
    ensures Nested(states[n])
    decreases n
  {
    hide Nested, Step;
    if n > 0 {
      EveryRunStaysNested(states, n - 1);
      assert Step(states[n - 1], states[n]);
      StepKeepsNested(states[n - 1], states[n]);
    }
  }
}
