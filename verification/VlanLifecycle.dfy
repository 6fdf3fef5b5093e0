/** Creating and deleting VLANs (`src/sonic/switching.rs`), unbatched, against a
    failing store. */
module VlanLifecycle {
  import opened Common
  import opened Text
  import opened Store
  import opened Keys
  import opened Diffs
  import opened Vlans
  import opened VlanWrites

  const INTERFACE := "VLAN_INTERFACE|"

  /** The rows of a table that hang off one VLAN, by their last part. */
  function Under(table: string, vlan: string): string -> Key {
    (x: string) => Key(CONFIG_DB, table + vlan + "|" + x)
  }

  lemma UnderInjective(table: string, vlan: string, on: set<string>)
    ensures Injective(Under(table, vlan), on)
  {
    forall x, y | x in on && y in on && Under(table, vlan)(x) == Under(table, vlan)(y) ensures x == y {
      var p := table + vlan + "|";
      assert (p + x)[|p|..] == x && (p + y)[|p|..] == y;
    }
  }

  lemma UnderParts(table: string, vlan: string, name: string)
    requires IsVlanName(vlan)
    ensures table + vlan + "|" <= name ==>
              var x := name[|table + vlan + "|"|..];
              Key(CONFIG_DB, name) == Under(table, vlan)(x)
              && TwoParts(name, table) == if x != "" then Some((vlan, x)) else None
  {
    var p := table + vlan + "|";
    if p <= name {
      var x := name[|p|..];
      assert name == p + x;
      assert name[|table|..] == vlan + ['|'] + x;
      SplitOnceOf(vlan, '|', x);
    }
  }

  /** `member_parts` over the scanned keys of one VLAN: the second parts. */
  method ScanUnder(plat: Platform, table: string, vlan: string) returns (ok: bool, found: set<string>)
    requires plat.Valid() && IsVlanName(vlan)
    modifies plat`calls
    ensures old(plat.calls) < plat.calls
    ensures AllWork(plat.fault, old(plat.calls), plat.calls) ==> ok
    ensures ok ==> forall x :: x in found <==> x != "" && Under(table, vlan)(x) in plat.rows
  {
    hide TwoParts;
    var names;
    ok, names := plat.Scan(CONFIG_DB, table + vlan + "|");
    found := {};
    if !ok { return; }
    var p := table + vlan + "|";
    for i := 0 to |names|
      invariant plat.calls == old(plat.calls) + 1
      invariant forall x :: x in found <==> x != "" && p + x in names[..i]
    {
      assert names[..i + 1] == names[..i] + [names[i]];
      assert names[i] in names;
      UnderParts(table, vlan, names[i]);
      var x := names[i][|p|..];
      assert p + x == names[i];
      forall y | p + y == names[i] ensures y == x {
        assert (p + y)[|p|..] == y;
      }
      match TwoParts(names[i], table) {
        case None =>
        case Some((_, member)) => found := found + {member};
      }
    }
    assert names[..|names|] == names;
    forall x | x != "" ensures p + x in names <==> Under(table, vlan)(x) in plat.rows {
      assert p <= p + x;
    }
  }

  lemma UnderIsNoVlanRow(table: string, vlan: string, x: string)
    requires table in {MEMBER, INTERFACE}
    ensures !IsVlanRow(Under(table, vlan)(x))
    ensures IsVlanName(vlan) && MemberOf(Under(table, vlan)(x)).Some? ==> MemberOf(Under(table, vlan)(x)).value.0 == vlan
  {
    var k := Under(table, vlan)(x);
    assert "VLAN|"[4] == '|' && "VLAN_MEMBER|"[4] == '_' && "VLAN_INTERFACE|"[4] == '_';
    assert k.name[4] == '_';
    if IsVlanName(vlan) {
      if table == MEMBER {
        UnderParts(MEMBER, vlan, k.name);
      } else {
        assert "VLAN_MEMBER|"[5] == 'M' && "VLAN_INTERFACE|"[5] == 'I' && k.name[5] == 'I';
      }
    }
  }

  /** A write of a call about this VLAN beside the VLAN's own row: a member or address row
      comes or goes. */
  predicate Mild(op: Op, vlan: string) {
    && !IsVlanRow(op.key) && !op.HDel? && Reaches(op)
    && (MemberOf(op.key).Some? ==> MemberOf(op.key).value.0 == vlan)
  }

  predicate AddsMember(op: Op) {
    op.HSet? && MemberOf(op.key).Some?
  }

  /** The run goes on with mild writes. */
  ghost predicate GoesOn(run: seq<Op>, run': seq<Op>, vlan: string) {
    run <= run' && forall i :: |run| <= i < |run'| ==> Mild(run'[i], vlan)
  }

  ghost predicate AddsNone(run: seq<Op>, run': seq<Op>) {
    forall i :: |run| <= i < |run'| ==> !AddsMember(run'[i])
  }

  lemma GoesOnFurther(run: seq<Op>, mid: seq<Op>, run': seq<Op>, vlan: string)
    requires GoesOn(run, mid, vlan) && GoesOn(mid, run', vlan)
    ensures GoesOn(run, run', vlan)
    ensures AddsNone(run, mid) && AddsNone(mid, run') ==> AddsNone(run, run')
  {
    hide Mild, AddsMember;
    forall i | |run| <= i < |run'| ensures Mild(run'[i], vlan) && (AddsNone(run, mid) && AddsNone(mid, run') ==> !AddsMember(run'[i])) {
      if i < |mid| {
        assert run'[i] == mid[i];
      }
    }
  }

  /** The writes of a diff under the VLAN are mild, and add a member only where the diff
      sets a named one. */
  lemma UnderIsMild(ops: seq<Op>, table: string, vlan: string, dels: set<string>, sets: map<string, Row>)
    requires table in {MEMBER, INTERFACE} && IsVlanName(vlan)
    requires CarriesOut(ops, Under(table, vlan), dels, sets) && forall x :: x in sets ==> sets[x] != map[]
    ensures forall i :: 0 <= i < |ops| ==> Mild(ops[i], vlan)
    ensures table == INTERFACE || sets.Keys <= {""} ==> forall i :: 0 <= i < |ops| ==> !AddsMember(ops[i])
  {
    hide MemberOf, IsVlanRow, Under;
    forall i | 0 <= i < |ops|
      ensures Mild(ops[i], vlan) && (table == INTERFACE || sets.Keys <= {""} ==> !AddsMember(ops[i])) {
      assert IsOneOf(ops[i], Under(table, vlan), dels, sets);
      var x :| (x in dels && ops[i] == Del(Under(table, vlan)(x))) || (x in sets && ops[i] == HSet(Under(table, vlan)(x), sets[x]));
      UnderIsNoVlanRow(table, vlan, x);
      NoMemberUnder(table, vlan, x);
    }
  }

  lemma NoMemberUnder(table: string, vlan: string, x: string)
    requires table == INTERFACE || (table == MEMBER && IsVlanName(vlan))
    ensures table == INTERFACE || x == "" ==> MemberOf(Under(table, vlan)(x)) == None
  {
    var k := Under(table, vlan)(x);
    if table == INTERFACE {
      assert "VLAN_MEMBER|"[5] == 'M' && "VLAN_INTERFACE|"[5] == 'I' && k.name[5] == 'I';
    } else if x == "" {
      UnderParts(MEMBER, vlan, k.name);
    }
  }

  /** However far a program under one VLAN got, rows elsewhere are as they were. */
  lemma PartialUnder(db: Db, run: seq<Op>, run': seq<Op>, ops: seq<Op>, table: string, vlan: string, dels: set<string>,
                     sets: map<string, Row>, k: Key)
    requires run <= run' <= run + ops && CarriesOut(ops, Under(table, vlan), dels, sets)
    requires forall x :: k != Under(table, vlan)(x)
    ensures RowOf(ExecAll(db, run'), k) == RowOf(ExecAll(db, run), k)
  {
    hide Under;
    var done := run'[|run|..];
    assert run' == run + done;
    assert forall i :: 0 <= i < |done| ==> done[i] == run'[|run| + i] == (run + ops)[|run| + i] == ops[i];
    ExecAllAppend(db, run, done);
    WrittenOnce(ExecAll(db, run), done, k);
    forall i | 0 <= i < |done| ensures done[i].key != k {
      assert IsOneOf(ops[i], Under(table, vlan), dels, sets);
    }
  }

  /** A row after a diff, by what the diff says of its element. */
  function Diffed(row: Row, dels: set<string>, sets: map<string, Row>, x: string): Row {
    if x in dels then map[] else if x in sets then row + sets[x] else row
  }

  /** Carry a diff out under one VLAN. */
  method RunUnder(plat: Platform, table: string, vlan: string, dels: set<string>, sets: map<string, Row>,
                  ghost db: Db, ghost log: seq<Op>, ghost run: seq<Op>)
    returns (ok: bool, ghost run': seq<Op>)
    requires Wrote(plat, db, log, run) && table in {MEMBER, INTERFACE} && IsVlanName(vlan)
    requires dels !! sets.Keys && forall x :: x in sets ==> sets[x] != map[]
    modifies plat
    ensures Wrote(plat, db, log, run') && GoesOn(run, run', vlan) && old(plat.calls) <= plat.calls
    ensures table == INTERFACE || sets.Keys <= {""} ==> AddsNone(run, run')
    ensures ok <==> AllWork(plat.fault, old(plat.calls), plat.calls)
    ensures forall k :: (forall x :: k != Under(table, vlan)(x)) ==> RowOf(plat.rows, k) == RowOf(old(plat.rows), k)
    ensures ok ==> forall x ::
              RowOf(plat.rows, Under(table, vlan)(x)) == Diffed(RowOf(old(plat.rows), Under(table, vlan)(x)), dels, sets, x)
  {
    hide CarriesOut, Injective, Under, Mild, AddsMember;
    ghost var before := plat.rows;
    UnderInjective(table, vlan, dels + sets.Keys);
    var ops := CarryOut(Under(table, vlan), dels, sets);
    UnderIsMild(ops, table, vlan, dels, sets);
    ok, run' := WriteMore(plat, ops, db, log, run);
    forall i | |run| <= i < |run'| ensures run'[i] == ops[i - |run|] {
      assert run'[i] == (run + ops)[i];
    }
    forall k | forall x :: k != Under(table, vlan)(x) ensures RowOf(plat.rows, k) == RowOf(before, k) {
      PartialUnder(db, run, run', ops, table, vlan, dels, sets, k);
    }
    if ok {
      forall x ensures RowOf(plat.rows, Under(table, vlan)(x)) ==
          if x in dels then map[] else if x in sets then RowOf(before, Under(table, vlan)(x)) + sets[x]
          else RowOf(before, Under(table, vlan)(x)) {
        UnderInjective(table, vlan, dels + sets.Keys + {x});
        CarriedOut(before, ops, Under(table, vlan), dels, sets, x);
      }
    }
  }

  // -------------------------------------------------------------------- members

  /** The members of the VLAN are the wanted ones, each with its mode. */
  ghost predicate MembersAre(db: Db, vlan: string, want: map<string, string>) {
    forall m | m != "" :: MemberMode(db, vlan, m) == if m in want then Some(want[m]) else None
  }

  method ReadMembers(plat: Platform, vlan: string) returns (ok: bool, current: map<string, string>)
    requires plat.Valid() && IsVlanName(vlan)
    modifies plat`calls
    ensures old(plat.calls) < plat.calls
    ensures AllWork(plat.fault, old(plat.calls), plat.calls) ==> ok && MembersAre(plat.rows, vlan, current)
  {
    hide ModeOfRow;
    var found;
    ok, found := ScanUnder(plat, MEMBER, vlan);
    current := map[];
    if !ok { return; }
    var members := Listed(found);
    for i := 0 to |members|
      invariant old(plat.calls) < plat.calls
      invariant forall m :: m in current <==> m in members[..i]
      invariant AllWork(plat.fault, old(plat.calls), plat.calls) ==>
                  forall m :: m in current ==> current[m] == ModeOfRow(RowOf(plat.rows, MemberKey(vlan, m)))
    {
      assert members[..i + 1] == members[..i] + [members[i]];
      var _, row := plat.HGetAll(MemberKey(vlan, members[i]));
      current := current[members[i] := ModeOfRow(row)];
    }
    assert members[..|members|] == members;
    forall m ensures MemberKey(vlan, m) == Under(MEMBER, vlan)(m) {
    }
  }

  /** The member rows after the diff, one by one. */
  lemma MembersConverged(before: Db, after: Db, vlan: string, current: map<string, string>, want: map<string, string>)
    requires NoEmptyRows(before) && NoEmptyRows(after) && MembersAre(before, vlan, current)
    requires forall m :: m in want ==> want[m] in {TAGGED, UNTAGGED}
    requires var dels, sets := Dels(current, want), ModeRows(Sets(current, want));
      forall x :: RowOf(after, Under(MEMBER, vlan)(x)) == Diffed(RowOf(before, Under(MEMBER, vlan)(x)), dels, sets, x)
    ensures MembersAre(after, vlan, want)
  {
    hide ModeOfRow;
    forall m | m != "" ensures MemberMode(after, vlan, m) == if m in want then Some(want[m]) else None {
      var k := MemberKey(vlan, m);
      assert k == Under(MEMBER, vlan)(m);
      assert MemberMode(before, vlan, m) == if m in current then Some(current[m]) else None;
      if m in Sets(current, want) {
        assert ModeRows(Sets(current, want))[m] == map["tagging_mode" := want[m]];
        WrittenMode(RowOf(before, k), want[m]);
        assert "tagging_mode" in RowOf(after, k);
      } else if m in Dels(current, want) {
        assert RowOf(after, k) == map[];
      } else {
        assert RowOf(after, k) == RowOf(before, k);
      }
    }
  }

  method ConvergeMembers(plat: Platform, vlan: string, want: map<string, string>, ghost db: Db, ghost log: seq<Op>, ghost run: seq<Op>)
    returns (ok: bool, ghost run': seq<Op>)
    requires Wrote(plat, db, log, run) && IsVlanName(vlan)
    requires forall m :: m in want ==> want[m] in {TAGGED, UNTAGGED}
    modifies plat
    ensures Wrote(plat, db, log, run') && GoesOn(run, run', vlan) && old(plat.calls) <= plat.calls
    ensures want.Keys <= {""} ==> AddsNone(run, run')
    ensures AllWork(plat.fault, old(plat.calls), plat.calls) ==> ok && MembersAre(plat.rows, vlan, want)
    ensures forall k :: (forall x :: k != Under(MEMBER, vlan)(x)) ==> RowOf(plat.rows, k) == RowOf(old(plat.rows), k)
  {
    hide MembersAre, Under, Mild, AddsMember;
    run' := run;
    ghost var before := plat.rows;
    var current;
    ok, current := ReadMembers(plat, vlan);
    if !ok { return; }
    var sets := ModeRows(Sets(current, want));
    forall x | x in sets ensures sets[x] != map[] {
      assert "tagging_mode" in sets[x];
    }
    ok, run' := RunUnder(plat, MEMBER, vlan, Dels(current, want), sets, db, log, run);
    if AllWork(plat.fault, old(plat.calls), plat.calls) {
      MembersConverged(before, plat.rows, vlan, current, want);
    }
  }

  // ------------------------------------------------------------------ addresses

  /** The VLAN's addresses are the wanted ones. */
  ghost predicate AddressesAre(db: Db, vlan: string, want: set<string>) {
    forall c | c != "" :: Under(INTERFACE, vlan)(c) in db <==> c in want
  }

  function ParentKey(vlan: string): Key {
    Key(CONFIG_DB, INTERFACE + vlan)
  }

  function Placeholders(names: set<string>): map<string, Row> {
    map c | c in names :: PLACEHOLDER
  }

  lemma PlainKeys(vlan: string, x: string, table: string)
    requires table in {MEMBER, INTERFACE}
    ensures !IsVlanRow(ParentKey(vlan)) && MemberOf(ParentKey(vlan)) == None
    ensures ParentKey(vlan) != VlanKey(vlan) && Under(table, vlan)(x) != VlanKey(vlan) && Under(table, vlan)(x) != ParentKey(vlan)
    ensures forall y :: Under(MEMBER, vlan)(x) != Under(INTERFACE, vlan)(y)
  {
    assert "VLAN|"[4] == '|' && "VLAN_MEMBER|"[4] == '_' && "VLAN_INTERFACE|"[4] == '_';
    assert "VLAN_MEMBER|"[5] == 'M' && "VLAN_INTERFACE|"[5] == 'I';
    assert VlanKey(vlan).name[4] == '|' && ParentKey(vlan).name[4] == '_' && ParentKey(vlan).name[5] == 'I';
    assert Under(table, vlan)(x).name[4] == '_';
    assert |Under(INTERFACE, vlan)(x).name| > |ParentKey(vlan).name|;
    assert Under(MEMBER, vlan)(x).name[5] == 'M';
    forall y ensures Under(MEMBER, vlan)(x) != Under(INTERFACE, vlan)(y) {
      assert Under(INTERFACE, vlan)(y).name[5] == 'I';
    }
  }

  lemma OnlyOne(db: Db, run: seq<Op>, run': seq<Op>, op: Op)
    requires run <= run' <= run + [op]
    ensures forall k :: k != op.key ==> RowOf(ExecAll(db, run'), k) == RowOf(ExecAll(db, run), k)
    ensures run' == run + [op] ==> ExecAll(db, run') == Exec(ExecAll(db, run), op)
  {
    if |run'| > |run| {
      assert run' == run + [op];
      assert run'[..|run'| - 1] == run;
    } else {
      assert run' == run;
    }
  }

  /** One write. */
  method RunOne(plat: Platform, op: Op, ghost db: Db, ghost log: seq<Op>, ghost run: seq<Op>) returns (ok: bool, ghost run': seq<Op>)
    requires Wrote(plat, db, log, run) && Reaches(op)
    modifies plat
    ensures Wrote(plat, db, log, run') && run <= run' <= run + [op] && old(plat.calls) <= plat.calls
    ensures ok <==> AllWork(plat.fault, old(plat.calls), plat.calls)
    ensures ok ==> run' == run + [op] && plat.rows == Exec(old(plat.rows), op)
    ensures forall k :: k != op.key ==> RowOf(plat.rows, k) == RowOf(old(plat.rows), k)
  {
    ok, run' := WriteMore(plat, [op], db, log, run);
    OnlyOne(db, run, run', op);
  }

  method RunParent(plat: Platform, op: Op, vlan: string, ghost db: Db, ghost log: seq<Op>, ghost run: seq<Op>)
    returns (ok: bool, ghost run': seq<Op>)
    requires Wrote(plat, db, log, run) && op.key == ParentKey(vlan) && Reaches(op) && !op.HDel?
    modifies plat
    ensures Wrote(plat, db, log, run') && GoesOn(run, run', vlan) && AddsNone(run, run') && old(plat.calls) <= plat.calls
    ensures ok <==> AllWork(plat.fault, old(plat.calls), plat.calls)
    ensures ok ==> plat.rows == Exec(old(plat.rows), op)
    ensures forall k :: k != ParentKey(vlan) ==> RowOf(plat.rows, k) == RowOf(old(plat.rows), k)
  {
    ParentIsMild(op, vlan);
    hide ParentKey, Wrote, Mild, AddsMember;
    ok, run' := RunOne(plat, op, db, log, run);
    forall i | |run| <= i < |run'| ensures run'[i] == op {
      assert run'[i] == (run + [op])[i];
    }
  }

  lemma ParentIsMild(op: Op, vlan: string)
    requires op.key == ParentKey(vlan) && Reaches(op) && !op.HDel?
    ensures Mild(op, vlan) && !AddsMember(op)
  {
    PlainKeys(vlan, "", MEMBER);
  }

  lemma AddressKeysDiffer(vlan: string)
    ensures ParentKey(vlan) != VlanKey(vlan)
    ensures forall x :: Under(INTERFACE, vlan)(x) != ParentKey(vlan) && Under(INTERFACE, vlan)(x) != VlanKey(vlan)
  {
    hide Under, ParentKey, VlanKey;
    PlainKeys(vlan, "", INTERFACE);
    forall x ensures Under(INTERFACE, vlan)(x) != ParentKey(vlan) && Under(INTERFACE, vlan)(x) != VlanKey(vlan) {
      PlainKeys(vlan, x, INTERFACE);
    }
  }

  lemma PlaceholdersWritten(names: set<string>)
    ensures Placeholders(names).Keys == names
    ensures forall x :: x in names ==> Placeholders(names)[x] == PLACEHOLDER != map[]
  {
    assert "NULL" in PLACEHOLDER;
  }

  /** Not a row of the VLAN's addresses. */
  ghost predicate OffAddresses(k: Key, vlan: string) {
    k != ParentKey(vlan) && forall x :: k != Under(INTERFACE, vlan)(x)
  }

  /** The attribute row of the VLAN interface, then the missing addresses. */
  method AddAddresses(plat: Platform, vlan: string, ips: set<string>, missing: set<string>,
                      ghost db: Db, ghost log: seq<Op>, ghost run: seq<Op>)
    returns (ok: bool, ghost run': seq<Op>)
    requires Wrote(plat, db, log, run) && IsVlanName(vlan)
    modifies plat
    ensures Wrote(plat, db, log, run') && GoesOn(run, run', vlan) && AddsNone(run, run') && old(plat.calls) <= plat.calls
    ensures AllWork(plat.fault, old(plat.calls), plat.calls) ==> ok
    ensures ok ==> (ParentKey(vlan) in plat.rows <==> ips != {})
    ensures ok ==> (forall x ::
              RowOf(plat.rows, Under(INTERFACE, vlan)(x))
              == Diffed(RowOf(old(plat.rows), Under(INTERFACE, vlan)(x)), {}, Placeholders(missing), x))
    ensures forall k :: OffAddresses(k, vlan) ==> RowOf(plat.rows, k) == RowOf(old(plat.rows), k)
  {
    hide Under, ParentKey, VlanKey, Placeholders, Diffed, Mild, AddsMember, GoesOn, AddsNone;
    AddressKeysDiffer(vlan);
    PlaceholdersWritten(missing);
    assert PLACEHOLDER != map[] by { assert "NULL" in PLACEHOLDER; }
    var op := if ips == {} then Del(ParentKey(vlan)) else HSet(ParentKey(vlan), PLACEHOLDER);
    ok, run' := RunParent(plat, op, vlan, db, log, run);
    if !ok { return; }
    ghost var parented := plat.rows;
    assert ParentKey(vlan) in parented <==> ips != {};
    ghost var mid := run';
    ok, run' := RunUnder(plat, INTERFACE, vlan, {}, Placeholders(missing), db, log, run');
    GoesOnFurther(run, mid, run', vlan);
    assert RowOf(plat.rows, ParentKey(vlan)) == RowOf(parented, ParentKey(vlan));
  }

  /** The addresses and the attribute row they need. */
  method ConvergeAddresses(plat: Platform, vlan: string, ips: set<string>, ghost db: Db, ghost log: seq<Op>, ghost run: seq<Op>)
    returns (ok: bool, ghost run': seq<Op>)
    requires Wrote(plat, db, log, run) && IsVlanName(vlan) && "" !in ips
    modifies plat
    ensures Wrote(plat, db, log, run') && GoesOn(run, run', vlan) && AddsNone(run, run') && old(plat.calls) <= plat.calls
    ensures AllWork(plat.fault, old(plat.calls), plat.calls) ==> ok
    ensures ok ==> AddressesAre(plat.rows, vlan, ips) && (ParentKey(vlan) in plat.rows <==> ips != {})
    ensures forall k :: OffAddresses(k, vlan) ==> RowOf(plat.rows, k) == RowOf(old(plat.rows), k)
  {
    hide AddressesAre, Under, ParentKey, VlanKey, Placeholders, Diffed, Mild, AddsMember;
    run' := run;
    ghost var before := plat.rows;
    AddressKeysDiffer(vlan);
    var current;
    ok, current := ScanUnder(plat, INTERFACE, vlan);
    if !ok { return; }
    ok, run' := RunUnder(plat, INTERFACE, vlan, current - ips, map[], db, log, run);
    if !ok { return; }
    ghost var cleared, mid := plat.rows, run';
    ok, run' := AddAddresses(plat, vlan, ips, ips - current, db, log, run');
    GoesOnFurther(run, mid, run', vlan);
    if ok {
      AddressesConverged(before, cleared, plat.rows, vlan, current, ips);
    }
  }

  lemma AddressesConverged(before: Db, cleared: Db, after: Db, vlan: string, current: set<string>, ips: set<string>)
    requires NoEmptyRows(before) && NoEmptyRows(after)
    requires forall x :: x in current <==> x != "" && Under(INTERFACE, vlan)(x) in before
    requires forall x ::
      RowOf(cleared, Under(INTERFACE, vlan)(x)) == Diffed(RowOf(before, Under(INTERFACE, vlan)(x)), current - ips, map[], x)
    requires forall x ::
      RowOf(after, Under(INTERFACE, vlan)(x))
      == Diffed(RowOf(cleared, Under(INTERFACE, vlan)(x)), {}, Placeholders(ips - current), x)
    ensures AddressesAre(after, vlan, ips)
  {
    hide Under;
    forall c | c != "" ensures Under(INTERFACE, vlan)(c) in after <==> c in ips {
      var k := Under(INTERFACE, vlan)(c);
      assert RowOf(after, k) == Diffed(RowOf(cleared, k), {}, Placeholders(ips - current), c);
      assert RowOf(cleared, k) == Diffed(RowOf(before, k), current - ips, map[], c);
      assert "NULL" in RowOf(cleared, k) + PLACEHOLDER;
    }
  }

  // ---------------------------------------------------------------------- input

  datatype Input = Input(
    description: Option<string>,
    ips: seq<string>,
    helpers: seq<string>,
    members: seq<(string, bool)>)

  function Tag(tagged: bool): string {
    if tagged then TAGGED else UNTAGGED
  }

  ghost predicate DistinctMembers(members: seq<(string, bool)>) {
    forall i, j :: 0 <= i < j < |members| ==> members[i].0 != members[j].0
  }

  /** The map lists the members, each with its tagging mode. */
  ghost predicate MapsMembers(want: map<string, string>, members: seq<(string, bool)>) {
    && (forall i :: 0 <= i < |members| ==> members[i].0 in want && want[members[i].0] == Tag(members[i].1))
    && (forall m :: m in want ==> exists i :: 0 <= i < |members| && members[i].0 == m)
  }

  /** `vlan_member_map`: duplicates are refused. */
  method MemberMap(members: seq<(string, bool)>) returns (r: Option<map<string, string>>)
    ensures r.Some? <==> DistinctMembers(members)
    ensures r.Some? ==> MapsMembers(r.value, members)
  {
    hide Tag;
    var want: map<string, string> := map[];
    for i := 0 to |members|
      invariant forall j, k :: 0 <= j < k < i ==> members[j].0 != members[k].0
      invariant forall j :: 0 <= j < i ==> members[j].0 in want && want[members[j].0] == Tag(members[j].1)
      invariant forall m :: m in want ==> exists j :: 0 <= j < i && members[j].0 == m
    {
      if members[i].0 in want {
        return None;
      }
      want := want[members[i].0 := Tag(members[i].1)];
    }
    r := Some(want);
  }

  /** The members read back as asked for: each with its tagging mode, and no other. */
  ghost predicate MembersSay(db: Db, vlan: string, members: seq<(string, bool)>) {
    forall m | m != "" ::
      MemberMode(db, vlan, m)
      == if (m, true) in members then Some("tagged") else if (m, false) in members then Some("untagged") else None
  }

  lemma MembersAreSay(db: Db, vlan: string, want: map<string, string>, members: seq<(string, bool)>)
    requires MembersAre(db, vlan, want) && MapsMembers(want, members)
    ensures MembersSay(db, vlan, members)
  {
    hide MemberMode;
    forall m | m != ""
      ensures MemberMode(db, vlan, m)
           == if (m, true) in members then Some("tagged") else if (m, false) in members then Some("untagged") else None {
      assert MemberMode(db, vlan, m) == if m in want then Some(want[m]) else None;
      if m in want {
        var i :| 0 <= i < |members| && members[i].0 == m;
        assert members[i] == (m, members[i].1) && members[i] in members;
        assert Tag(true) != Tag(false) by { assert |TAGGED| == 6 && |UNTAGGED| == 8; }
      }
    }
  }

  lemma MappedTags(want: map<string, string>, members: seq<(string, bool)>)
    requires MapsMembers(want, members)
    ensures forall m :: m in want ==> want[m] in {TAGGED, UNTAGGED}
  {
    forall m | m in want ensures want[m] in {TAGGED, UNTAGGED} {
      var i :| 0 <= i < |members| && members[i].0 == m;
      assert want[m] == Tag(members[i].1);
    }
  }

  predicate AllCidrs(ips: seq<string>) {
    forall i :: 0 <= i < |ips| ==> ValidCidr(ips[i])
  }

  function IpSet(ips: seq<string>): set<string> {
    set c | c in ips
  }

  lemma CidrsAreNames(ips: seq<string>)
    requires AllCidrs(ips)
    ensures "" !in IpSet(ips)
    ensures IpSet(ips) == {} <==> ips == []
  {
    if ips != [] {
      assert ips[0] in IpSet(ips);
    }
  }

  predicate IsInterface(db: Db, name: string) {
    PortKey(name) in db || Key(CONFIG_DB, "PORTCHANNEL|" + name) in db
  }

  ghost predicate MembersExist(db: Db, members: seq<(string, bool)>) {
    forall i :: 0 <= i < |members| ==> IsInterface(db, members[i].0)
  }

  /** What creating (a VLAN that must not exist) and updating (one that must) answer when
      no call fails. */
  ghost function RequestVerdict(db: Db, vlan: string, mustExist: bool, input: Input): WriteResult {
    if !DistinctMembers(input.members) || !AllCidrs(input.ips) then BadRequest
    else if mustExist && VlanKey(vlan) !in db then NotFound
    else if !mustExist && VlanKey(vlan) in db then BadRequest
    else if MembersExist(db, input.members) then Done
    else BadRequest
  }

  method CheckMembers(plat: Platform, want: map<string, string>) returns (r: WriteResult)
    requires plat.Valid()
    modifies plat`calls
    ensures old(plat.calls) <= plat.calls && r in {Done, BadRequest, Redis}
    ensures r.Done? ==> forall m :: m in want ==> IsInterface(plat.rows, m)
    ensures AllWork(plat.fault, old(plat.calls), plat.calls) ==>
              r == if forall m :: m in want ==> IsInterface(plat.rows, m) then Done else BadRequest
  {
    var names := Listed(want.Keys);
    for i := 0 to |names|
      invariant old(plat.calls) <= plat.calls
      invariant forall j :: 0 <= j < i ==> IsInterface(plat.rows, names[j])
    {
      var ok, found := plat.Exists(PortKey(names[i]));
      if !ok { return Redis; }
      if !found {
        ok, found := plat.Exists(Key(CONFIG_DB, "PORTCHANNEL|" + names[i]));
        if !ok { return Redis; }
        if !found {
          assert names[i] in want && !IsInterface(plat.rows, names[i]);
          return BadRequest;
        }
      }
    }
    r := Done;
  }

  // ---------------------------------------------------------------- the VLAN row

  function JoinedHelpers(helpers: seq<string>): Option<Option<string>> {
    Some(if helpers == [] then None else Some(Join(helpers, ',')))
  }

  /** The writes of `create_vlan` after the first. */
  function CreateRowOps(key: Key, input: Input): (ops: seq<Op>)
    ensures forall i :: 0 <= i < |ops| ==> ops[i].key == key && !ops[i].Del? && Reaches(ops[i])
  {
    PatchField(key, "description", if input.description.Some? then Some(input.description) else None)
    + PatchField(key, "dhcp_servers@", if input.helpers == [] then None else JoinedHelpers(input.helpers))
  }

  function CreatedRow(row: Row, input: Input): Row {
    var described := PatchedField(row, "description", if input.description.Some? then Some(input.description) else None);
    PatchedField(described, "dhcp_servers@", if input.helpers == [] then None else JoinedHelpers(input.helpers))
  }

  lemma CreateRowEffect(db: Db, key: Key, input: Input)
    ensures RowOf(ExecAll(db, CreateRowOps(key, input)), key) == CreatedRow(RowOf(db, key), input)
  {
    hide PatchField, PatchedField, RowOf, JoinedHelpers;
    var a := PatchField(key, "description", if input.description.Some? then Some(input.description) else None);
    PatchFieldEffect(db, key, "description", if input.description.Some? then Some(input.description) else None, []);
    assert [] + a == a;
    PatchFieldEffect(db, key, "dhcp_servers@", if input.helpers == [] then None else JoinedHelpers(input.helpers), a);
  }

  /** What the row of a VLAN just created says. */
  ghost predicate CreatedSays(after: Row, id: nat, input: Input) {
    && SaysNumber(after, "vlanid", Some(id))
    && Raw(after, "description") == input.description
    && Raw(after, "dhcp_servers@") == (if input.helpers == [] then None else Some(Join(input.helpers, ',')))
    && KeepsOthers(map[], after, {"vlanid", "description", "dhcp_servers@"})
  }

  lemma CreatedRowSays(id: nat, input: Input)
    ensures CreatedSays(CreatedRow(map["vlanid" := Render(id)], input), id, input)
  {
    assert "vlanid"[0] == 'v' && "description"[1] == 'e' && "dhcp_servers@"[1] == 'h' && "description"[0] == 'd';
    hide PatchedField, Render, Join;
    var born: Row := map["vlanid" := Render(id)];
    assert Raw(born, "vlanid") == Some(Render(id)) && forall f :: f != "vlanid" ==> Raw(born, f) == None;
    TwoPatched(born, "description", if input.description.Some? then Some(input.description) else None,
               "dhcp_servers@", if input.helpers == [] then None else JoinedHelpers(input.helpers));
    hide Raw;
    RenderedSays(CreatedRow(born, input), "vlanid", Some(id));
  }

  /** Run writes to the VLAN's own row. */
  method RunRow(plat: Platform, ops: seq<Op>, vlan: string, ghost db: Db, ghost log: seq<Op>, ghost run: seq<Op>)
    returns (ok: bool, ghost run': seq<Op>)
    requires Wrote(plat, db, log, run)
    requires forall i :: 0 <= i < |ops| ==> ops[i].key == VlanKey(vlan) && Reaches(ops[i])
    modifies plat
    ensures Wrote(plat, db, log, run') && run <= run' <= run + ops && old(plat.calls) <= plat.calls
    ensures ok <==> AllWork(plat.fault, old(plat.calls), plat.calls)
    ensures ok ==> run' == run + ops && plat.rows == ExecAll(old(plat.rows), ops)
    ensures forall k :: k != VlanKey(vlan) ==> RowOf(plat.rows, k) == RowOf(old(plat.rows), k)
  {
    hide VlanKey;
    ok, run' := WriteMore(plat, ops, db, log, run);
    OneRowOnly(db, run, run', ops, VlanKey(vlan));
  }

  lemma OneRowOnly(db: Db, run: seq<Op>, run': seq<Op>, ops: seq<Op>, key: Key)
    requires run <= run' <= run + ops && forall i :: 0 <= i < |ops| ==> ops[i].key == key
    ensures forall k :: k != key ==> RowOf(ExecAll(db, run'), k) == RowOf(ExecAll(db, run), k)
  {
    var done := run'[|run|..];
    assert run' == run + done;
    assert forall i :: 0 <= i < |done| ==> done[i] == run'[|run| + i] == (run + ops)[|run| + i] == ops[i];
    ExecAllAppend(db, run, done);
    forall k | k != key ensures RowOf(ExecAll(db, run'), k) == RowOf(ExecAll(db, run), k) {
      OneRowWrites(ExecAll(db, run), done, key, k);
    }
  }

  // ---------------------------------------------------------------------- calls

  /** Rows that no call about this VLAN may write. */
  ghost predicate OffVlan(k: Key, vlan: string) {
    k != VlanKey(vlan) && OffAddresses(k, vlan) && forall x :: k != Under(MEMBER, vlan)(x)
  }

  lemma VlanKeysDiffer(vlan: string)
    ensures OffAddresses(VlanKey(vlan), vlan)
    ensures forall x :: Under(MEMBER, vlan)(x) != VlanKey(vlan) && OffAddresses(Under(MEMBER, vlan)(x), vlan)
  {
    hide Under, ParentKey, VlanKey;
    AddressKeysDiffer(vlan);
    forall x ensures Under(MEMBER, vlan)(x) != VlanKey(vlan) && OffAddresses(Under(MEMBER, vlan)(x), vlan) {
      PlainKeys(vlan, x, MEMBER);
    }
  }

  lemma MembersStay(a: Db, b: Db, vlan: string, want: map<string, string>)
    requires NoEmptyRows(a) && NoEmptyRows(b) && MembersAre(a, vlan, want)
    requires forall x :: RowOf(b, Under(MEMBER, vlan)(x)) == RowOf(a, Under(MEMBER, vlan)(x))
    ensures MembersAre(b, vlan, want)
  {
    hide ModeOfRow;
    forall m | m != "" ensures MemberMode(b, vlan, m) == if m in want then Some(want[m]) else None {
      assert MemberKey(vlan, m) == Under(MEMBER, vlan)(m);
      assert RowOf(b, MemberKey(vlan, m)) == RowOf(a, MemberKey(vlan, m));
      assert MemberMode(a, vlan, m) == if m in want then Some(want[m]) else None;
    }
  }

  lemma MappedMembersExist(db: Db, want: map<string, string>, members: seq<(string, bool)>)
    requires MapsMembers(want, members)
    ensures (forall m :: m in want ==> IsInterface(db, m)) <==> MembersExist(db, members)
  {
  }

  /** The checks shared by create and update that need the store. */
  method CheckInput(plat: Platform, vlan: string, mustExist: bool, input: Input) returns (r: WriteResult, want: map<string, string>)
    requires plat.Valid()
    modifies plat`calls
    ensures old(plat.calls) <= plat.calls && r in {Done, BadRequest, NotFound, Redis}
    ensures r.NotFound? ==> mustExist
    ensures r.Done? ==> MapsMembers(want, input.members) && AllCidrs(input.ips) && (mustExist <==> VlanKey(vlan) in plat.rows)
    ensures AllWork(plat.fault, old(plat.calls), plat.calls) ==> r == RequestVerdict(plat.rows, vlan, mustExist, input)
  {
    hide MapsMembers, VlanKey, ValidCidr;
    want := map[];
    var mapped := MemberMap(input.members);
    if mapped == None || !AllCidrs(input.ips) {
      r := BadRequest;
      return;
    }
    want := mapped.value;
    var ok, found := plat.Exists(VlanKey(vlan));
    if !ok || found != mustExist {
      r := if !ok then Redis else if mustExist then NotFound else BadRequest;
      return;
    }
    r := CheckMembers(plat, want);
    MappedMembersExist(plat.rows, want, input.members);
  }

  /** The first write of `create_vlan`, which brings the row into being. */
  method RunFirst(plat: Platform, id: nat) returns (ok: bool, ghost run: seq<Op>)
    requires plat.Valid() && VlanKey(VlanName(id)) !in plat.rows
    modifies plat
    ensures Wrote(plat, old(plat.rows), old(plat.log), run) && old(plat.calls) <= plat.calls
    ensures run <= [FirstWrite(id)] && (ok ==> run == [FirstWrite(id)])
    ensures ok <==> AllWork(plat.fault, old(plat.calls), plat.calls)
    ensures ok ==> RowOf(plat.rows, VlanKey(VlanName(id))) == map["vlanid" := Render(id)] && VlanKey(VlanName(id)) in plat.rows
    ensures forall k :: k != VlanKey(VlanName(id)) ==> RowOf(plat.rows, k) == RowOf(old(plat.rows), k)
  {
    hide VlanKey, VlanName, Render;
    var fields: Row := map["vlanid" := Render(id)];
    assert "vlanid" in fields && map[] + fields == fields;
    assert plat.log + [] == plat.log && [] + [FirstWrite(id)] == [FirstWrite(id)];
    ok, run := RunOne(plat, FirstWrite(id), plat.rows, plat.log, []);
  }

  function FirstWrite(id: nat): Op {
    HSet(VlanKey(VlanName(id)), map["vlanid" := Render(id)])
  }

  /** The writes of `create_vlan` to the VLAN's own row. */
  function NewRowOps(id: nat, input: Input): seq<Op> {
    [FirstWrite(id)] + CreateRowOps(VlanKey(VlanName(id)), input)
  }

  /** What `create_vlan`, stopped anywhere, has written: the row of a VLAN that was not
      there, then members and addresses of that VLAN. */
  ghost predicate CreateStep(db: Db, id: nat, input: Input, run: seq<Op>) {
    || run == []
    || (VlanKey(VlanName(id)) !in db && (run <= NewRowOps(id, input) || GoesOn(NewRowOps(id, input), run, VlanName(id))))
  }

  /** After the first write the row only gains fields. */
  lemma AfterFirstWrite(db: Db, id: nat, input: Input, run: seq<Op>)
    requires CreateStep(db, id, input, run) && run != []
    ensures run == [FirstWrite(id)] + run[1..]
    ensures var rest := run[1..];
      forall i :: 0 <= i < |rest| ==> Mild(rest[i], VlanName(id)) || (rest[i].HSet? && rest[i].key == VlanKey(VlanName(id)))
  {
    hide VlanKey, VlanName, Render, CreateRowOps, Mild;
    var ops := NewRowOps(id, input);
    CreateOnlySets(VlanKey(VlanName(id)), input);
    assert run[0] == ops[0];
    var rest := run[1..];
    forall i | 0 <= i < |rest| ensures Mild(rest[i], VlanName(id)) || (rest[i].HSet? && rest[i].key == VlanKey(VlanName(id))) {
      if i + 1 < |ops| {
        assert rest[i] == run[i + 1] == ops[i + 1] == CreateRowOps(VlanKey(VlanName(id)), input)[i];
      } else {
        assert Mild(run[i + 1], VlanName(id));
      }
    }
  }

  /** Whatever is written to the row of a VLAN once it is there, short of clearing fields,
      and however far the mild writes after that got: a creation follows the rule. */
  lemma CreateFollows(db: Db, id: nat, input: Input, run: seq<Op>)
    requires NoEmptyRows(db) && CreateStep(db, id, input, run)
    ensures Follows(db, run)
  {
    hide MemberOf, IsVlanRow, VlanKey, VlanName, Render, CreateStep;
    var first := FirstWrite(id);
    NotBothTables(first.key);
    FollowsNothing(db);
    if run != [] {
      AfterFirstWrite(db, id, input, run);
      var rest := run[1..];
      ExecOne(db, first);
      var born := Exec(db, first);
      ExecNoEmptyRows(db, first);
      assert "vlanid" in RowOf(db, first.key) + first.fields && first.key in born;
      assert [first][..0] == [];
      forall i | 0 <= i < |rest| ensures Gentle(born, rest[i]) {
        assert Mild(rest[i], VlanName(id)) || (rest[i].HSet? && rest[i].key == first.key);
      }
      GentleFollows(born, rest);
      FollowsAppend(db, [first], rest);
    }
  }

  lemma NoMembersYet(db: Db, vlan: string)
    requires MembersHaveVlans(db) && VlanKey(vlan) !in db && IsVlanName(vlan)
    ensures MembersAre(db, vlan, map[])
  {
    hide MemberKey, VlanKey;
    forall m | m != "" ensures MemberKey(vlan, m) !in db {
      MemberKeyExactly(MemberKey(vlan, m), vlan, m);
    }
  }

  /** Members, then addresses, of a VLAN just created. */
  method RunCreate(plat: Platform, vlan: string, want: map<string, string>, ips: set<string>, ghost db: Db, ghost log: seq<Op>, ghost run: seq<Op>)
    returns (ok: bool, ghost run': seq<Op>)
    requires Wrote(plat, db, log, run) && IsVlanName(vlan)
    requires MembersHaveVlans(db) ==> MembersAre(plat.rows, vlan, map[])
    requires forall m :: m in want ==> want[m] in {TAGGED, UNTAGGED}
    modifies plat
    ensures Wrote(plat, db, log, run') && GoesOn(run, run', vlan) && old(plat.calls) <= plat.calls
    ensures AllWork(plat.fault, old(plat.calls), plat.calls) ==> ok
    ensures ok && MembersHaveVlans(db) ==> MembersAre(plat.rows, vlan, want)
    ensures ok ==> forall c :: c != "" ==> (Under(INTERFACE, vlan)(c) in plat.rows <==> Under(INTERFACE, vlan)(c) in old(plat.rows) || c in ips)
    ensures ok && ips != {} ==> ParentKey(vlan) in plat.rows
    ensures RowOf(plat.rows, VlanKey(vlan)) == RowOf(old(plat.rows), VlanKey(vlan))
    ensures forall k :: OffVlan(k, vlan) ==> RowOf(plat.rows, k) == RowOf(old(plat.rows), k)
  {
    hide MembersHaveVlans, VlanKey, ParentKey, Under, MembersAre, OffAddresses, Diffed, Placeholders, Mild, AddsMember;
    ghost var before := plat.rows;
    VlanKeysDiffer(vlan);
    var sets := ModeRows(want);
    forall x | x in sets ensures sets[x] != map[] {
      assert "tagging_mode" in sets[x];
    }
    ok, run' := RunUnder(plat, MEMBER, vlan, {}, sets, db, log, run);
    ghost var joined := plat.rows;
    assert RowOf(joined, VlanKey(vlan)) == RowOf(before, VlanKey(vlan));
    if !ok { return; }
    if MembersHaveVlans(db) {
      assert Dels(map[], want) == {} && Sets(map[], want) == want;
      MembersConverged(before, joined, vlan, map[], want);
    }
    forall x ensures RowOf(joined, Under(INTERFACE, vlan)(x)) == RowOf(before, Under(INTERFACE, vlan)(x)) {
      assert forall y :: Under(MEMBER, vlan)(y) != Under(INTERFACE, vlan)(x) by {
        forall y ensures Under(MEMBER, vlan)(y) != Under(INTERFACE, vlan)(x) {
          PlainKeys(vlan, y, MEMBER);
        }
      }
    }
    if ips != {} {
      ghost var mid := run';
      ok, run' := AddAddresses(plat, vlan, ips, ips, db, log, run');
      GoesOnFurther(run, mid, run', vlan);
      if MembersHaveVlans(db) {
        MembersStay(joined, plat.rows, vlan, want);
      }
    }
    if ok {
      AddressesAdded(before, joined, plat.rows, vlan, ips);
    }
  }

  lemma AddressesAdded(before: Db, joined: Db, after: Db, vlan: string, ips: set<string>)
    requires NoEmptyRows(before) && NoEmptyRows(joined) && NoEmptyRows(after)
    requires forall x :: RowOf(joined, Under(INTERFACE, vlan)(x)) == RowOf(before, Under(INTERFACE, vlan)(x))
    requires if ips == {} then after == joined
             else forall x ::
               RowOf(after, Under(INTERFACE, vlan)(x)) == Diffed(RowOf(joined, Under(INTERFACE, vlan)(x)), {}, Placeholders(ips), x)
    ensures forall c :: c != "" ==> (Under(INTERFACE, vlan)(c) in after <==> Under(INTERFACE, vlan)(c) in before || c in ips)
  {
    hide Under;
    forall c | c != "" ensures Under(INTERFACE, vlan)(c) in after <==> Under(INTERFACE, vlan)(c) in before || c in ips {
      var k := Under(INTERFACE, vlan)(c);
      assert RowOf(joined, k) == RowOf(before, k);
      assert "NULL" in RowOf(joined, k) + PLACEHOLDER;
      if ips != {} {
        assert RowOf(after, k) == Diffed(RowOf(joined, k), {}, Placeholders(ips), c);
      }
    }
  }

  lemma CreateOnlySets(key: Key, input: Input)
    ensures forall i :: 0 <= i < |CreateRowOps(key, input)| ==> CreateRowOps(key, input)[i].HSet? && CreateRowOps(key, input)[i].key == key
  {
  }

  /** `create_vlan`. */
  method CreateVlan(plat: Platform, id: nat, input: Input) returns (r: WriteResult, ghost run: seq<Op>, ghost want: map<string, string>)
    requires plat.Valid()
    modifies plat
    ensures Ran(plat, old(plat.rows), old(plat.log), run) && CreateStep(old(plat.rows), id, input, run)
    ensures r.BadRequest? ==> run == []
    ensures r.Done? ==> ValidId(id) && MapsMembers(want, input.members) && AllCidrs(input.ips) && VlanKey(VlanName(id)) !in old(plat.rows)
    ensures r.Done? ==>
              && RowOf(plat.rows, VlanKey(VlanName(id))) == CreatedRow(map["vlanid" := Render(id)], input)
              && CreatedSays(RowOf(plat.rows, VlanKey(VlanName(id))), id, input)
              && (MembersHaveVlans(old(plat.rows)) ==>
                    MembersAre(plat.rows, VlanName(id), want) && MembersSay(plat.rows, VlanName(id), input.members))
              && (forall c :: c != "" ==> (Under(INTERFACE, VlanName(id))(c) in plat.rows
                    <==> Under(INTERFACE, VlanName(id))(c) in old(plat.rows) || c in IpSet(input.ips)))
              && (input.ips != [] ==> ParentKey(VlanName(id)) in plat.rows)
    ensures forall k :: OffVlan(k, VlanName(id)) ==> RowOf(plat.rows, k) == RowOf(old(plat.rows), k)
    ensures AllWork(plat.fault, old(plat.calls), plat.calls) ==>
              r == if ValidId(id) then RequestVerdict(old(plat.rows), VlanName(id), false, input) else BadRequest
  {
    FollowsNothing(plat.rows);
    hide MembersHaveVlans, Follows, VlanKey, VlanName, ParentKey, MembersAre, CreatedRow, MapsMembers, Under,
         AllCidrs, CreateRowOps, OffAddresses, Mild, AddsMember, CreatedSays, MembersSay;
    ghost var db, log := plat.rows, plat.log;
    run, want := [], map[];
    assert log + [] == log;
    if !ValidId(id) {
      r := BadRequest;
      return;
    }
    var vlan, map_ := VlanName(id), map[];
    VlanNames(id);
    VlanKeysDiffer(vlan);
    r, map_ := CheckInput(plat, vlan, false, input);
    hide RequestVerdict;
    want := map_;
    if !r.Done? { return; }
    CidrsAreNames(input.ips);
    MappedTags(map_, input.members);
    r := Redis;
    var ok;
    ok, run := RunFirst(plat, id);
    CreateFollows(db, id, input, run);
    if !ok { return; }
    ghost var born := plat.rows;
    CreateRowEffect(born, VlanKey(vlan), input);
    ok, run := RunRow(plat, CreateRowOps(VlanKey(vlan), input), vlan, db, log, run);
    CreateFollows(db, id, input, run);
    if !ok { return; }
    if MembersHaveVlans(db) {
      NoMembersYet(db, vlan);
      MembersStay(db, plat.rows, vlan, map[]);
    }
    ghost var described := plat.rows;
    SameAddresses(db, described, vlan);
    ok, run := RunCreate(plat, vlan, map_, IpSet(input.ips), db, log, run);
    CreateFollows(db, id, input, run);
    if ok && MembersHaveVlans(db) {
      MembersAreSay(plat.rows, vlan, map_, input.members);
    }
    CreatedRowSays(id, input);
    r := if ok then Done else Redis;
  }

  lemma SameAddresses(a: Db, b: Db, vlan: string)
    requires NoEmptyRows(a) && NoEmptyRows(b) && forall k :: k != VlanKey(vlan) ==> RowOf(b, k) == RowOf(a, k)
    ensures forall c :: Under(INTERFACE, vlan)(c) in b <==> Under(INTERFACE, vlan)(c) in a
  {
    hide Under, VlanKey;
    AddressKeysDiffer(vlan);
    forall c ensures Under(INTERFACE, vlan)(c) in b <==> Under(INTERFACE, vlan)(c) in a {
      assert RowOf(b, Under(INTERFACE, vlan)(c)) == RowOf(a, Under(INTERFACE, vlan)(c));
    }
  }

  // --------------------------------------------------------------------- delete

  /** The rows that go with the VLAN. */
  predicate Belongs(k: Key, vlan: string) {
    k == VlanKey(vlan) || k == ParentKey(vlan) || HangsOff(k, MEMBER, vlan) || HangsOff(k, INTERFACE, vlan)
  }

  predicate HangsOff(k: Key, table: string, vlan: string) {
    Beneath(k, table + vlan + "|")
  }

  function Deletions(names: seq<string>): (ops: seq<Op>)
    ensures |ops| == |names| && forall i :: 0 <= i < |names| ==> ops[i] == Del(Key(CONFIG_DB, names[i]))
  {
    seq(|names|, i requires 0 <= i < |names| => Del(Key(CONFIG_DB, names[i])))
  }

  lemma {:induction false} DeletionsEffect(db: Db, names: seq<string>, k: Key)
    ensures RowOf(ExecAll(db, Deletions(names)), k) == if k.db == CONFIG_DB && k.name in names then map[] else RowOf(db, k)
    decreases |names|
  {
    if names != [] {
      var front := names[..|names| - 1];
      DeletionsEffect(db, front, k);
      assert Deletions(names)[..|names| - 1] == Deletions(front);
      assert k.name in names <==> k.name in front || k.name == names[|names| - 1];
    }
  }

  lemma HangsOffIsNoVlanRow(k: Key, table: string, vlan: string)
    requires table in {MEMBER, INTERFACE} && HangsOff(k, table, vlan)
    ensures !IsVlanRow(k)
  {
    var x := k.name[|table + vlan + "|"|..];
    assert k == Under(table, vlan)(x);
    UnderIsNoVlanRow(table, vlan, x);
  }

  /** Delete every scanned key under the VLAN. */
  method DeleteUnder(plat: Platform, table: string, vlan: string, ghost db: Db, ghost log: seq<Op>, ghost run: seq<Op>)
    returns (ok: bool, ghost run': seq<Op>)
    requires Wrote(plat, db, log, run) && table in {MEMBER, INTERFACE}
    modifies plat
    ensures Wrote(plat, db, log, run') && run <= run' && old(plat.calls) <= plat.calls
    ensures forall i :: |run| <= i < |run'| ==> Spares(run'[i])
    ensures AllWork(plat.fault, old(plat.calls), plat.calls) ==> ok
    ensures ok ==> forall k :: k in old(plat.rows) && HangsOff(k, table, vlan) ==> Del(k) in run'
    ensures ok ==> forall k :: RowOf(plat.rows, k) == if HangsOff(k, table, vlan) then map[] else RowOf(old(plat.rows), k)
    ensures forall k :: !HangsOff(k, table, vlan) ==> RowOf(plat.rows, k) == RowOf(old(plat.rows), k)
  {
    hide HangsOff, Spares;
    ghost var before := plat.rows;
    run' := run;
    var names;
    ok, names := plat.Scan(CONFIG_DB, table + vlan + "|");
    if !ok { return; }
    var ops := Deletions(names);
    ScannedHangOff(before, names, table, vlan);
    DeletionsSpare(names, table, vlan);
    ok, run' := WriteMore(plat, ops, db, log, run);
    forall i | |run| <= i < |run'| ensures run'[i] == ops[i - |run|] {
      assert run'[i] == (run + ops)[i];
    }
    PartialDeletions(db, run, run', names);
    if ok {
      forall k ensures RowOf(plat.rows, k) == if HangsOff(k, table, vlan) then map[] else RowOf(before, k) {
        DeletionsEffect(before, names, k);
      }
      forall k | k in before && HangsOff(k, table, vlan) ensures Del(k) in run' {
        var i :| 0 <= i < |names| && names[i] == k.name;
        assert ops[i] == Del(k) && run'[|run| + i] == ops[i];
      }
    }
  }

  lemma ScannedHangOff(db: Db, names: seq<string>, table: string, vlan: string)
    requires forall n :: n in names <==> Key(CONFIG_DB, n) in db && table + vlan + "|" <= n
    ensures forall i :: 0 <= i < |names| ==> HangsOff(Key(CONFIG_DB, names[i]), table, vlan)
    ensures forall k: Key :: k in db && HangsOff(k, table, vlan) <==> k.db == CONFIG_DB && k.name in names
  {
    forall i | 0 <= i < |names| ensures HangsOff(Key(CONFIG_DB, names[i]), table, vlan) {
      assert names[i] in names;
    }
    forall k: Key ensures k in db && HangsOff(k, table, vlan) <==> k.db == CONFIG_DB && k.name in names {
      if k.db == CONFIG_DB {
        assert k == Key(CONFIG_DB, k.name);
      }
    }
  }

  /** However far the deletions got, they only ever emptied scanned rows. */
  lemma PartialDeletions(db: Db, run: seq<Op>, run': seq<Op>, names: seq<string>)
    requires run <= run' <= run + Deletions(names)
    ensures forall k: Key :: !(k.db == CONFIG_DB && k.name in names) ==> RowOf(ExecAll(db, run'), k) == RowOf(ExecAll(db, run), k)
  {
    var done := run'[|run|..];
    assert run' == run + done;
    assert forall i :: 0 <= i < |done| ==> done[i] == run'[|run| + i] == (run + Deletions(names))[|run| + i] == Deletions(names)[i];
    assert done == Deletions(names[..|done|]);
    ExecAllAppend(db, run, done);
    forall k: Key | !(k.db == CONFIG_DB && k.name in names) ensures RowOf(ExecAll(db, run'), k) == RowOf(ExecAll(db, run), k) {
      DeletionsEffect(ExecAll(db, run), names[..|done|], k);
      assert k.name in names[..|done|] ==> k.name in names;
    }
  }

  /** A deletion of any row but a VLAN's. */
  predicate Spares(op: Op) {
    op.Del? && !IsVlanRow(op.key)
  }

  lemma DeletionsSpare(names: seq<string>, table: string, vlan: string)
    requires table in {MEMBER, INTERFACE}
    requires forall i :: 0 <= i < |names| ==> HangsOff(Key(CONFIG_DB, names[i]), table, vlan)
    ensures forall i :: 0 <= i < |names| ==> Spares(Deletions(names)[i])
  {
    hide IsVlanRow, HangsOff;
    forall i | 0 <= i < |names| ensures !IsVlanRow(Key(CONFIG_DB, names[i])) {
      HangsOffIsNoVlanRow(Key(CONFIG_DB, names[i]), table, vlan);
    }
  }

  ghost predicate AllSpare(run: seq<Op>) {
    forall i :: 0 <= i < |run| ==> Spares(run[i])
  }

  /** What `delete_vlan`, stopped anywhere, has written: deletions of rows that are no
      VLAN's, and last the VLAN's row once each of its member rows has been deleted. */
  ghost predicate DeleteStep(db: Db, vlan: string, run: seq<Op>) {
    || AllSpare(run)
    || (exists before: seq<Op> ::
          && run == before + [Del(VlanKey(vlan))] && AllSpare(before)
          && forall k :: k in db && HangsOff(k, MEMBER, vlan) ==> Del(k) in before)
  }

  lemma SparingFollows(db: Db, run: seq<Op>)
    requires NoEmptyRows(db) && AllSpare(run)
    ensures Follows(db, run)
  {
    hide IsVlanRow, MemberOf;
    assert AllGentle(db, run);
    GentleFollows(db, run);
  }

  /** A row that was not there, or was deleted, is not there after deletions. */
  lemma {:induction false} DeletedIsGone(db: Db, run: seq<Op>, k: Key)
    requires AllSpare(run) && (k in db ==> Del(k) in run)
    ensures k !in ExecAll(db, run)
    decreases |run|
  {
    hide IsVlanRow;
    if run != [] {
      var front, last := run[..|run| - 1], run[|run| - 1];
      assert AllSpare(front) && Spares(last);
      if last.key != k {
        forall i | 0 <= i < |run| && run[i] == Del(k) ensures front[i] == Del(k) {
        }
        DeletedIsGone(db, front, k);
      }
    }
  }

  lemma DeleteFollows(db: Db, vlan: string, run: seq<Op>)
    requires NoEmptyRows(db) && IsVlanName(vlan) && DeleteStep(db, vlan, run)
    ensures Follows(db, run)
  {
    hide HangsOff, VlanKey, Spares, Allowed;
    if AllSpare(run) {
      SparingFollows(db, run);
    } else {
      var before: seq<Op> :| run == before + [Del(VlanKey(vlan))] && AllSpare(before)
        && forall k :: k in db && HangsOff(k, MEMBER, vlan) ==> Del(k) in before;
      SparingFollows(db, before);
      ExecAllNoEmptyRows(db, before);
      forall k | HangsOff(k, MEMBER, vlan) ensures k !in ExecAll(db, before) {
        DeletedIsGone(db, before, k);
      }
      LastIsAllowed(ExecAll(db, before), vlan);
      LastFollows(db, before, run, Del(VlanKey(vlan)));
    }
  }

  lemma MemberHangsOff(vlan: string, port: string)
    ensures HangsOff(MemberKey(vlan, port), MEMBER, vlan)
  {
    assert MEMBER + vlan + "|" <= MEMBER + vlan + "|" + port;
  }

  /** Once no member row hangs off the VLAN its row may go. */
  lemma LastIsAllowed(db: Db, vlan: string)
    requires NoEmptyRows(db) && IsVlanName(vlan)
    requires forall k :: HangsOff(k, MEMBER, vlan) ==> k !in db
    ensures Allowed(db, Del(VlanKey(vlan)))
  {
    hide MemberOf, MemberKey;
    forall m | m in db && MemberOf(m).Some? ensures VlanKey(MemberOf(m).value.0) != VlanKey(vlan) {
      MemberOfInverse(m);
      var (v, p) := MemberOf(m).value;
      assert VlanKey(v) == VlanKey(vlan) ==> v == vlan by {
        assert VlanKey(v).name[|VLAN|..] == v && VlanKey(vlan).name[|VLAN|..] == vlan;
      }
      assert v == vlan ==> HangsOff(m, MEMBER, vlan) by {
        MemberHangsOff(v, p);
      }
    }
  }

  lemma SpareOn(run: seq<Op>, run': seq<Op>)
    requires run <= run' && AllSpare(run) && forall i :: |run| <= i < |run'| ==> Spares(run'[i])
    ensures AllSpare(run') && forall op :: op in run ==> op in run'
  {
    hide Spares;
    forall i | 0 <= i < |run| ensures run'[i] == run[i] {
    }
  }

  lemma SpareOne(run: seq<Op>, run': seq<Op>, op: Op)
    requires run <= run' <= run + [op] && Spares(op) && AllSpare(run)
    ensures AllSpare(run') && forall o :: o in run ==> o in run'
  {
    hide Spares;
    forall i | 0 <= i < |run'| ensures run'[i] == (run + [op])[i] {
    }
  }

  lemma ParentSpares(vlan: string)
    ensures Spares(Del(ParentKey(vlan)))
  {
    PlainKeys(vlan, "", MEMBER);
  }

  lemma LastFollows(db: Db, run: seq<Op>, run': seq<Op>, op: Op)
    requires Follows(db, run) && run <= run' <= run + [op] && Allowed(ExecAll(db, run), op)
    ensures Follows(db, run')
  {
    hide Allowed;
    if run' != run {
      assert run' == run + [op];
      assert [op][..0] == [];
      FollowsAppend(db, run, [op]);
    }
  }

  lemma SparingStep(db: Db, vlan: string, run: seq<Op>)
    requires NoEmptyRows(db) && AllSpare(run)
    ensures DeleteStep(db, vlan, run) && Follows(db, run)
  {
    hide Spares;
    SparingFollows(db, run);
  }

  lemma LastStepOfDelete(db: Db, vlan: string, before: seq<Op>, run: seq<Op>)
    requires NoEmptyRows(db) && IsVlanName(vlan) && AllSpare(before) && before <= run <= before + [Del(VlanKey(vlan))]
    requires forall k :: k in db && HangsOff(k, MEMBER, vlan) ==> Del(k) in before
    ensures DeleteStep(db, vlan, run) && Follows(db, run)
  {
    hide HangsOff, VlanKey, Spares, AllSpare;
    assert run == before || run == before + [Del(VlanKey(vlan))];
    DeleteFollows(db, vlan, run);
  }

  /** Members, addresses, then the attribute row. */
  method ClearVlan(plat: Platform, vlan: string, ghost db: Db, ghost log: seq<Op>) returns (ok: bool, ghost run: seq<Op>)
    requires Wrote(plat, db, log, []) && IsVlanName(vlan)
    modifies plat
    ensures Wrote(plat, db, log, run) && old(plat.calls) <= plat.calls
    ensures AllSpare(run) && (ok ==> forall k :: k in old(plat.rows) && HangsOff(k, MEMBER, vlan) ==> Del(k) in run)
    ensures AllWork(plat.fault, old(plat.calls), plat.calls) ==> ok
    ensures forall k :: !HangsOff(k, MEMBER, vlan) && !HangsOff(k, INTERFACE, vlan) && k != ParentKey(vlan) ==>
              RowOf(plat.rows, k) == RowOf(old(plat.rows), k)
    ensures ok ==> forall k :: HangsOff(k, MEMBER, vlan) || HangsOff(k, INTERFACE, vlan) || k == ParentKey(vlan) ==>
              RowOf(plat.rows, k) == map[]
  {
    hide HangsOff, ParentKey, Spares;
    ok, run := DeleteUnder(plat, MEMBER, vlan, db, log, []);
    if !ok { return; }
    ghost var mid := run;
    ok, run := DeleteUnder(plat, INTERFACE, vlan, db, log, run);
    SpareOn(mid, run);
    if !ok { return; }
    ghost var cleared := plat.rows;
    mid := run;
    ok, run := RunOne(plat, Del(ParentKey(vlan)), db, log, run);
    ParentSpares(vlan);
    SpareOne(mid, run, Del(ParentKey(vlan)));
    forall k | ok ensures RowOf(plat.rows, k) == if k == ParentKey(vlan) then map[] else RowOf(cleared, k) {
      ExecReads(cleared, Del(ParentKey(vlan)), k);
    }
  }

  /** `delete_vlan`. */
  method DeleteVlan(plat: Platform, id: nat) returns (r: WriteResult, ghost run: seq<Op>)
    requires plat.Valid() && id <= U32_MAX
    modifies plat
    ensures Ran(plat, old(plat.rows), old(plat.log), run) && DeleteStep(old(plat.rows), VlanName(id), run)
    ensures r.NotFound? ==> run == []
    ensures r.Done? ==> VlanKey(VlanName(id)) in old(plat.rows)
    // everything of the VLAN is gone, and nothing else ever is
    ensures r.Done? ==> forall k :: RowOf(plat.rows, k) == if Belongs(k, VlanName(id)) then map[] else RowOf(old(plat.rows), k)
    ensures forall k :: !Belongs(k, VlanName(id)) ==> RowOf(plat.rows, k) == RowOf(old(plat.rows), k)
    ensures AllWork(plat.fault, old(plat.calls), plat.calls) ==> r == if VlanKey(VlanName(id)) in old(plat.rows) then Done else NotFound
  {
    var vlan := VlanName(id);
    SparingStep(plat.rows, vlan, []);
    hide MembersHaveVlans, Follows, VlanName, HangsOff, VlanKey, ParentKey, Spares, AllSpare, DeleteStep;
    ghost var db, log := plat.rows, plat.log;
    run := [];
    assert log + [] == log;
    VlanNames(id);
    var ok, found := plat.Exists(VlanKey(vlan));
    if !ok || !found {
      r := if ok then NotFound else Redis;
      return;
    }
    r := Redis;
    ok, run := ClearVlan(plat, vlan, db, log);
    SparingStep(db, vlan, run);
    if !ok { return; }
    ghost var mid := run;
    ok, run := RunOne(plat, Del(VlanKey(vlan)), db, log, run);
    LastStepOfDelete(db, vlan, mid, run);
    r := if ok then Done else Redis;
  }
}
