/** What `l3_rows` (`src/sonic/l3.rs`) reads of the four interface tables, and what a
    failed row read hides from it. */
module VrfReads {
  import opened Common
  import opened Store
  import opened Keys
  import opened L3
  import opened L3Calls
  import opened Vrfs

  function Prefix(kind: Kind): string {
    TableOfKind(kind) + "|"
  }

  /** The attribute row of interface `n` in the table with this key prefix. */
  ghost predicate HasAttrRow(db: Db, prefix: string, n: string) {
    Key(CONFIG_DB, prefix + n) in db && n != "" && TwoParts(prefix + n, prefix) == None
  }

  /** What reading one table found: its attribute rows by interface name, those whose
      read was lost as empty rows. */
  ghost predicate Found(db: Db, prefix: string, rows: map<string, Row>, lost: set<string>) {
    && (forall n :: n in rows <==> HasAttrRow(db, prefix, n))
    && (forall n :: n in rows ==> rows[n] == if n in lost then map[] else RowOf(db, Key(CONFIG_DB, prefix + n)))
  }

  predicate IsAttrName(prefix: string, s: string) {
    TwoParts(s, prefix).None? && KeySuffix(s, prefix).Some?
  }

  // -------------------------------------------------------------------- one table

  /** The interfaces whose attribute rows are read, in the order of the scanned keys. */
  function AttrNames(keys: seq<string>, prefix: string): seq<string>
    decreases |keys|
  {
    if keys == [] then []
    else
      var last := keys[|keys| - 1];
      AttrNames(keys[..|keys| - 1], prefix) + if IsAttrName(prefix, last) then [KeySuffix(last, prefix).value] else []
  }

  lemma {:induction false} AttrNamesExactly(keys: seq<string>, prefix: string, n: string)
    ensures n in AttrNames(keys, prefix) <==> IsAttrName(prefix, prefix + n) && prefix + n in keys
    decreases |keys|
  {
    hide TwoParts;
    if keys != [] {
      var front, last := keys[..|keys| - 1], keys[|keys| - 1];
      AttrNamesExactly(front, prefix, n);
      SuffixFacts(prefix, last);
      assert prefix + n in keys <==> prefix + n in front || prefix + n == last;
    }
  }

  lemma {:induction false} AttrNamesOnce(keys: seq<string>, prefix: string)
    requires NoRepeats(keys)
    ensures NoRepeats(AttrNames(keys, prefix))
    decreases |keys|
  {
    hide IsAttrName;
    if keys != [] {
      var front, last := keys[..|keys| - 1], keys[|keys| - 1];
      AttrNamesOnce(front, prefix);
      if IsAttrName(prefix, last) {
        var n := SuffixOf(prefix, last);
        AttrNamesExactly(front, prefix, n);
        assert last !in front;
      }
    }
  }

  lemma SuffixOf(prefix: string, s: string) returns (n: string)
    requires IsAttrName(prefix, s)
    ensures KeySuffix(s, prefix) == Some(n) && prefix + n == s
  {
    n := KeySuffix(s, prefix).value;
  }

  /** The rows lost when these are read one after the other from call `at` on: those
      whose last read fails. */
  ghost function LostOf(fault: nat -> Fault, at: nat, ns: seq<string>): set<string>
    decreases |ns|
  {
    if ns == [] then {}
    else
      var before := LostOf(fault, at, ns[..|ns| - 1]);
      if fault(at + |ns| - 1) == Works then before - {ns[|ns| - 1]} else before + {ns[|ns| - 1]}
  }

  lemma {:induction false} NoneLost(fault: nat -> Fault, at: nat, ns: seq<string>)
    requires AllWork(fault, at, at + |ns|)
    ensures LostOf(fault, at, ns) == {}
    decreases |ns|
  {
    if ns != [] {
      NoneLost(fault, at, ns[..|ns| - 1]);
    }
  }

  /** What the reads so far have gathered. */
  ghost predicate Gathered(db: Db, prefix: string, rows: map<string, Row>, fault: nat -> Fault, at: nat, ns: seq<string>) {
    && (forall n :: n in rows <==> n in ns)
    && (forall n :: n in rows ==> rows[n] == if n in LostOf(fault, at, ns) then map[] else RowOf(db, Key(CONFIG_DB, prefix + n)))
  }

  lemma GatherOne(db: Db, prefix: string, rows: map<string, Row>, fault: nat -> Fault, at: nat, ns: seq<string>, n: string, row: Row)
    requires Gathered(db, prefix, rows, fault, at, ns)
    requires row == if fault(at + |ns|) == Works then RowOf(db, Key(CONFIG_DB, prefix + n)) else map[]
    ensures Gathered(db, prefix, rows[n := row], fault, at, ns + [n])
  {
    assert (ns + [n])[..|ns|] == ns;
  }

  /** One table's turn in `l3_rows`; `row` degrades to empty on a failed read.  The scan
      is its first call, `read` lists the rows read by the calls after it. */
  method ReadTable(plat: Platform, prefix: string) returns (ok: bool, rows: map<string, Row>, ghost read: seq<string>)
    requires plat.Valid()
    modifies plat`calls
    ensures plat.calls == old(plat.calls) + 1 + |read|
    ensures ok == (plat.fault(old(plat.calls)) == Works) && (!ok ==> read == [])
    ensures ok ==> Found(plat.rows, prefix, rows, LostOf(plat.fault, old(plat.calls) + 1, read))
    ensures ok ==> forall n :: n in read <==> HasAttrRow(plat.rows, prefix, n)
    ensures plat.steady ==> NoRepeats(read)
  {
    hide TwoParts, KeySuffix, IsAttrName, Gathered;
    rows, read := map[], [];
    var names;
    ok, names := plat.Scan(CONFIG_DB, prefix);
    if !ok { return; }
    ghost var db, at := plat.rows, plat.calls;
    GatherNone(db, prefix, plat.fault, at);
    for i := 0 to |names|
      invariant plat.calls == at + |read| && read == AttrNames(names[..i], prefix)
      invariant Gathered(db, prefix, rows, plat.fault, at, read)
    {
      assert names[..i + 1][..i] == names[..i];
      if IsAttrName(prefix, names[i]) {
        var suffix := Suffix(names[i], prefix);
        var _, row := plat.HGetAll(Key(CONFIG_DB, names[i]));
        GatherOne(db, prefix, rows, plat.fault, at, read, suffix, row);
        rows := rows[suffix := row];
        read := read + [suffix];
      }
    }
    assert names[..|names|] == names;
    GatheredAll(db, prefix, names, rows, plat.fault, at);
    if plat.steady {
      AttrNamesOnce(names, prefix);
    }
  }

  function Suffix(s: string, prefix: string): (n: string)
    requires IsAttrName(prefix, s)
    ensures KeySuffix(s, prefix) == Some(n) && prefix + n == s
  {
    KeySuffix(s, prefix).value
  }

  lemma GatherNone(db: Db, prefix: string, fault: nat -> Fault, at: nat)
    ensures Gathered(db, prefix, map[], fault, at, []) && AttrNames([], prefix) == []
  {
  }

  lemma GatheredAll(db: Db, prefix: string, names: seq<string>, rows: map<string, Row>, fault: nat -> Fault, at: nat)
    requires forall n :: n in names <==> Key(CONFIG_DB, n) in db && prefix <= n
    requires Gathered(db, prefix, rows, fault, at, AttrNames(names, prefix))
    ensures Found(db, prefix, rows, LostOf(fault, at, AttrNames(names, prefix)))
    ensures forall n :: n in AttrNames(names, prefix) <==> HasAttrRow(db, prefix, n)
  {
    hide TwoParts, AttrNames, LostOf;
    forall n ensures n in AttrNames(names, prefix) <==> HasAttrRow(db, prefix, n) {
      AttrNamesExactly(names, prefix, n);
      assert prefix <= prefix + n && (prefix + n)[|prefix|..] == n;
    }
  }

  // -------------------------------------------------------------- the four tables

  function BoundNames(rows: map<string, Row>, vrf: string): set<string> {
    set n | n in rows && Field(rows[n], "vrf_name") == Some(vrf)
  }

  lemma BindingByName(db: Db, kind: Kind, key: Key, vrf: string)
    requires BindsTo(db, kind, key, vrf)
    ensures HasAttrRow(db, Prefix(kind), AttrRowName(kind, key)) && key == Key(CONFIG_DB, Prefix(kind) + AttrRowName(kind, key))
  {
    assert key.name == Prefix(kind) + AttrRowName(kind, key);
  }

  const ALL_KINDS: seq<Kind> := [Port, PortChannel, Vlan, Kind.Loopback]

  ghost predicate AllFound(db: Db, found: seq<map<string, Row>>, lost: seq<set<string>>) {
    && |found| == |lost| <= |ALL_KINDS|
    && forall j :: 0 <= j < |found| ==> Found(db, Prefix(ALL_KINDS[j]), found[j], lost[j])
  }

  /** How many calls the tables before table `j` took. */
  function Offset(read: seq<seq<string>>, j: nat): nat
    requires j <= |read|
  {
    if j == 0 then 0 else Offset(read, j - 1) + 1 + |read[j - 1]|
  }

  /** The rows lost in each table, the first scan being call `lo`. */
  ghost function LostRows(fault: nat -> Fault, lo: nat, read: seq<seq<string>>): (lost: seq<set<string>>)
    ensures |lost| == |read|
  {
    seq(|read|, j requires 0 <= j < |read| => LostOf(fault, lo + Offset(read, j) + 1, read[j]))
  }

  ghost predicate ScansWork(fault: nat -> Fault, lo: nat, read: seq<seq<string>>) {
    forall j: nat :: j < |read| ==> fault(lo + Offset(read, j)) == Works
  }

  lemma {:induction false} OffsetStays(read: seq<seq<string>>, ns: seq<string>, j: nat)
    requires j <= |read|
    ensures Offset(read + [ns], j) == Offset(read, j)
  {
    if j > 0 {
      OffsetStays(read, ns, j - 1);
    }
  }

  lemma OffsetsStay(read: seq<seq<string>>, ns: seq<string>)
    ensures forall j: nat :: j <= |read| ==> Offset(read + [ns], j) == Offset(read, j)
    ensures Offset(read + [ns], |read| + 1) == Offset(read, |read|) + 1 + |ns|
  {
    forall j: nat | j <= |read| ensures Offset(read + [ns], j) == Offset(read, j) {
      OffsetStays(read, ns, j);
    }
  }

  lemma LostMore(fault: nat -> Fault, lo: nat, read: seq<seq<string>>, ns: seq<string>)
    ensures LostRows(fault, lo, read + [ns]) == LostRows(fault, lo, read) + [LostOf(fault, lo + Offset(read, |read|) + 1, ns)]
  {
    OffsetsStay(read, ns);
    hide LostOf, Offset;
    var more := LostRows(fault, lo, read + [ns]);
    forall j | 0 <= j < |read| ensures more[j] == LostRows(fault, lo, read)[j] {
      assert (read + [ns])[j] == read[j];
    }
    assert (read + [ns])[|read|] == ns;
  }

  /** One more table read. */
  lemma ReadMore(fault: nat -> Fault, lo: nat, read: seq<seq<string>>, ns: seq<string>)
    ensures Offset(read + [ns], |read|) == Offset(read, |read|)
    ensures Offset(read + [ns], |read| + 1) == Offset(read, |read|) + 1 + |ns|
    ensures LostRows(fault, lo, read + [ns]) == LostRows(fault, lo, read) + [LostOf(fault, lo + Offset(read, |read|) + 1, ns)]
    ensures ScansWork(fault, lo, read + [ns]) <==> ScansWork(fault, lo, read) && fault(lo + Offset(read, |read|)) == Works
  {
    OffsetsStay(read, ns);
    hide LostOf, Offset;
    LostMore(fault, lo, read, ns);
    if ScansWork(fault, lo, read + [ns]) {
      forall j: nat | j < |read| ensures fault(lo + Offset(read, j)) == Works {
        assert fault(lo + Offset(read + [ns], j)) == Works;
      }
      assert fault(lo + Offset(read + [ns], |read|)) == Works;
    }
  }

  /** The rows read of each table are its attribute rows. */
  ghost predicate ReadsAll(db: Db, read: seq<seq<string>>) {
    && |read| <= |ALL_KINDS|
    && forall j, n :: 0 <= j < |read| ==> (n in read[j] <==> HasAttrRow(db, Prefix(ALL_KINDS[j]), n))
  }

  /** Nothing else is read, whatever fails. */
  ghost predicate ReadsOnly(db: Db, read: seq<seq<string>>) {
    && |read| <= |ALL_KINDS|
    && forall j, n :: 0 <= j < |read| && n in read[j] ==> HasAttrRow(db, Prefix(ALL_KINDS[j]), n)
  }

  /** `l3_rows`: the four tables into one map by interface name. */
  method L3Rows(plat: Platform)
    returns (ok: bool, attrs: map<string, Row>, ghost found: seq<map<string, Row>>, ghost read: seq<seq<string>>)
    requires plat.Valid()
    modifies plat`calls
    ensures 1 <= |read| <= 4 && plat.calls == old(plat.calls) + Offset(read, |read|) > old(plat.calls)
    ensures ok <==> |read| == 4 && ScansWork(plat.fault, old(plat.calls), read)
    ensures ScansWork(plat.fault, old(plat.calls), read) ==> |read| == 4
    ensures ok ==> |found| == 4 && AllFound(plat.rows, found, LostRows(plat.fault, old(plat.calls), read)) && attrs == Merge(found)
    ensures ReadsOnly(plat.rows, read) && (ok ==> ReadsAll(plat.rows, read))
    ensures plat.steady ==> forall j :: 0 <= j < |read| ==> NoRepeats(read[j])
  {
    hide Found, HasAttrRow, LostOf, LostRows, ScansWork, Prefix;
    attrs, found, read := map[], [], [];
    ghost var db, lo := plat.rows, plat.calls;
    NothingRead(db, plat.fault, lo);
    for i := 0 to |ALL_KINDS|
      invariant |found| == |read| == i && plat.calls == lo + Offset(read, i)
      invariant ScansWork(plat.fault, lo, read)
      invariant AllFound(db, found, LostRows(plat.fault, lo, read)) && attrs == Merge(found)
      invariant ReadsAll(db, read)
      invariant plat.steady ==> forall j :: 0 <= j < i ==> NoRepeats(read[j])
    {
      var rows;
      ghost var ns;
      ok, rows, ns := ReadTable(plat, Prefix(ALL_KINDS[i]));
      ReadMore(plat.fault, lo, read, ns);
      ghost var before := read;
      read := read + [ns];
      if !ok { return; }
      assert (found + [rows])[..i] == found;
      OneMoreFound(db, found, LostRows(plat.fault, lo, before), rows, LostRows(plat.fault, lo, read)[i]);
      attrs, found := attrs + rows, found + [rows];
    }
    ok := true;
  }

  lemma NothingRead(db: Db, fault: nat -> Fault, lo: nat)
    ensures ScansWork(fault, lo, []) && AllFound(db, [], LostRows(fault, lo, [])) && ReadsAll(db, [])
  {
  }

  lemma OneMoreFound(db: Db, found: seq<map<string, Row>>, lost: seq<set<string>>, rows: map<string, Row>, gone: set<string>)
    requires AllFound(db, found, lost) && |found| < |ALL_KINDS| && Found(db, Prefix(ALL_KINDS[|found|]), rows, gone)
    ensures AllFound(db, found + [rows], lost + [gone])
  {
  }

  lemma {:induction false} NoneLostAnywhere(fault: nat -> Fault, lo: nat, read: seq<seq<string>>)
    requires AllWork(fault, lo, lo + Offset(read, |read|))
    ensures ScansWork(fault, lo, read) && forall j :: 0 <= j < |read| ==> LostRows(fault, lo, read)[j] == {}
    decreases |read|
  {
    NothingRead(map[], fault, lo);
    hide LostOf, LostRows, ScansWork, Offset, AllWork;
    if read != [] {
      var front, ns := read[..|read| - 1], read[|read| - 1];
      assert read == front + [ns];
      ReadMore(fault, lo, front, ns);
      var at := lo + Offset(front, |front|);
      WorkParts(fault, lo, at, at + 1 + |ns|);
      NoneLostAnywhere(fault, lo, front);
      NoneLost(fault, at + 1, ns);
      LastIsEmpty(LostRows(fault, lo, front), LostRows(fault, lo, read));
    }
  }

  lemma WorkParts(fault: nat -> Fault, lo: nat, at: nat, hi: nat)
    requires AllWork(fault, lo, hi) && lo <= at < hi
    ensures AllWork(fault, lo, at) && fault(at) == Works && AllWork(fault, at + 1, hi)
  {
  }

  lemma LastIsEmpty(front: seq<set<string>>, all: seq<set<string>>)
    requires all == front + [{}] && forall j :: 0 <= j < |front| ==> front[j] == {}
    ensures forall j :: 0 <= j < |all| ==> all[j] == {}
  {
  }

  lemma {:induction false} MergedHolds(found: seq<map<string, Row>>, j: nat, n: string)
    requires forall a, b :: 0 <= a < b < |found| ==> found[a].Keys !! found[b].Keys
    requires j < |found| && n in found[j]
    ensures n in Merge(found) && Merge(found)[n] == found[j][n]
    decreases |found|
  {
    var last := |found| - 1;
    if j < last {
      MergedHolds(found[..last], j, n);
      assert found[j].Keys !! found[last].Keys;
    }
  }

  lemma TablesDisjoint(db: Db, found: seq<map<string, Row>>, lost: seq<set<string>>)
    requires InOwnTables(db) && AllFound(db, found, lost)
    ensures forall a, b :: 0 <= a < b < |found| ==> found[a].Keys !! found[b].Keys
  {
    hide InOwnTables, HasAttrRow, TwoParts, KindOf;
    forall a, b | 0 <= a < b < |found| ensures found[a].Keys !! found[b].Keys {
      assert ALL_KINDS[a] != ALL_KINDS[b];
      assert Found(db, Prefix(ALL_KINDS[a]), found[a], lost[a]) && Found(db, Prefix(ALL_KINDS[b]), found[b], lost[b]);
      forall n | n in found[a] ensures n !in found[b] {
        OwnTable(db, ALL_KINDS[a], n);
        if n in found[b] {
          OwnTable(db, ALL_KINDS[b], n);
        }
      }
    }
  }

  function KindIndex(kind: Kind): (j: nat)
    ensures j < 4 && ALL_KINDS[j] == kind
  {
    match kind case Port => 0 case PortChannel => 1 case Vlan => 2 case Loopback => 3
  }

  ghost predicate Bound(db: Db, vrf: string) {
    exists kind, k :: BindsTo(db, kind, k, vrf)
  }

  /** With every attribute row in its own kind's table, the merged map shows each
      binding unless the read of its row was lost. */
  lemma MergedSeesBinding(db: Db, found: seq<map<string, Row>>, lost: seq<set<string>>, kind: Kind, key: Key, vrf: string)
    requires InOwnTables(db) && AllFound(db, found, lost) && |found| == 4
    requires BindsTo(db, kind, key, vrf)
    ensures AttrRowName(kind, key) in BoundNames(Merge(found), vrf) || AttrRowName(kind, key) in lost[KindIndex(kind)]
  {
    hide TwoParts, TableOfKind, KindOf, InOwnTables, HasAttrRow;
    var j, n := KindIndex(kind), AttrRowName(kind, key);
    BindingByName(db, kind, key, vrf);
    assert Found(db, Prefix(ALL_KINDS[j]), found[j], lost[j]);
    TablesDisjoint(db, found, lost);
    MergedHolds(found, j, n);
    assert n in lost[j] || Field(Merge(found)[n], "vrf_name") == Some(vrf);
  }

  /** A binding row that was read. */
  ghost predicate SeenBinding(db: Db, lost: seq<set<string>>, vrf: string, j: nat, n: string) {
    && j < |lost| <= |ALL_KINDS| && n !in lost[j]
    && BindsTo(db, ALL_KINDS[j], Key(CONFIG_DB, Prefix(ALL_KINDS[j]) + n), vrf)
  }

  /** And nothing shown as bound is free, or lost. */
  lemma {:induction false} MergedShowsOnlyBindings(db: Db, found: seq<map<string, Row>>, lost: seq<set<string>>, vrf: string, n: string)
    returns (j: nat)
    requires AllFound(db, found, lost) && n in BoundNames(Merge(found), vrf)
    ensures SeenBinding(db, lost, vrf, j, n)
    decreases |found|
  {
    var last := |found| - 1;
    if n in found[last] {
      j := last;
      assert Found(db, Prefix(ALL_KINDS[last]), found[last], lost[last]);
      FoundBinds(db, ALL_KINDS[last], found[last], lost[last], n, vrf);
    } else {
      hide BindsTo, Found;
      j := MergedShowsOnlyBindings(db, found[..last], lost[..last], vrf, n);
    }
  }

  lemma FoundBinds(db: Db, kind: Kind, rows: map<string, Row>, lost: set<string>, n: string, vrf: string)
    requires Found(db, Prefix(kind), rows, lost) && n in rows && Field(rows[n], "vrf_name") == Some(vrf)
    ensures n !in lost && BindsTo(db, kind, Key(CONFIG_DB, Prefix(kind) + n), vrf)
  {
    hide TwoParts;
    SuffixFacts(Prefix(kind), Prefix(kind) + n);
  }

  /** Every row that binds the VRF was lost. */
  ghost predicate AllLost(db: Db, lost: seq<set<string>>, vrf: string) {
    |lost| == 4 && forall kind, k :: BindsTo(db, kind, k, vrf) ==> AttrRowName(kind, k) in lost[KindIndex(kind)]
  }

  /** The merged map shows nothing bound exactly when every binding row was lost. */
  lemma ShownExactly(db: Db, found: seq<map<string, Row>>, lost: seq<set<string>>, vrf: string)
    requires InOwnTables(db) && AllFound(db, found, lost) && |found| == |lost| == 4
    ensures BoundNames(Merge(found), vrf) == {} <==> AllLost(db, lost, vrf)
  {
    hide AllFound, BoundNames, Merge, InOwnTables, IsAttrRow;
    if AllLost(db, lost, vrf) {
      forall n ensures n !in BoundNames(Merge(found), vrf) {
        if n in BoundNames(Merge(found), vrf) {
          var j := MergedShowsOnlyBindings(db, found, lost, vrf, n);
          NameOfAttrRow(db, ALL_KINDS[j], n, vrf);
          IndexOfKind(j);
          assert false;
        }
      }
    } else {
      var kind, k :| BindsTo(db, kind, k, vrf) && AttrRowName(kind, k) !in lost[KindIndex(kind)];
      MergedSeesBinding(db, found, lost, kind, k, vrf);
    }
  }

  lemma IndexOfKind(j: nat)
    requires j < 4
    ensures KindIndex(ALL_KINDS[j]) == j
  {
  }

  lemma NameOfAttrRow(db: Db, kind: Kind, n: string, vrf: string)
    requires BindsTo(db, kind, Key(CONFIG_DB, Prefix(kind) + n), vrf)
    ensures IsAttrRow(kind, Key(CONFIG_DB, Prefix(kind) + n)) && AttrRowName(kind, Key(CONFIG_DB, Prefix(kind) + n)) == n
  {
    hide TwoParts;
    SuffixFacts(Prefix(kind), Prefix(kind) + n);
  }

  lemma HasRowNamed(db: Db, kind: Kind, n: string)
    ensures var key := Key(CONFIG_DB, Prefix(kind) + n);
      HasAttrRow(db, Prefix(kind), n) <==> key in db && IsAttrRow(kind, key) && AttrRowName(kind, key) == n
  {
    hide TwoParts;
    assert (Prefix(kind) + n)[|Prefix(kind)|..] == n;
  }

  lemma OwnTable(db: Db, kind: Kind, n: string)
    requires InOwnTables(db) && HasAttrRow(db, Prefix(kind), n)
    ensures KindOf(n) == kind
  {
    var key := Key(CONFIG_DB, Prefix(kind) + n);
    assert key.name[|Prefix(kind)|..] == n;
    assert IsAttrRow(kind, key) && AttrRowName(kind, key) == n;
  }
}
