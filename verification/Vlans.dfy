/** VLAN membership (`src/sonic/switching.rs`): the rows a port's VLAN mode asks for, the
    diff that converges to them, the mode read back from them, and the rule every single
    write keeps: a member row names a VLAN that exists. */
module Vlans {
  import opened Common
  import opened Text
  import opened Store
  import opened Keys

  // -------------------------------------------------------------------- keys

  const MEMBER := "VLAN_MEMBER|"
  const VLAN := "VLAN|"
  const TAGGED := "tagged"
  const UNTAGGED := "untagged"

  function VlanKey(vlan: string): Key {
    Key(CONFIG_DB, VLAN + vlan)
  }

  function MemberKey(vlan: string, port: string): Key {
    Key(CONFIG_DB, MEMBER + vlan + "|" + port)
  }

  /** The (VLAN, member) a key stands for; None for every other row. */
  function MemberOf(k: Key): Option<(string, string)> {
    if k.db == CONFIG_DB then TwoParts(k.name, MEMBER) else None
  }

  lemma MemberKeyExactly(k: Key, vlan: string, port: string)
    requires Lacks(vlan, '|')
    ensures MemberOf(k) == Some((vlan, port)) <==> k == MemberKey(vlan, port) && vlan != "" && port != ""
  {
    TwoPartsExactly(k.name, MEMBER, vlan, port);
  }

  lemma MemberOfInverse(k: Key)
    requires MemberOf(k).Some?
    ensures var (vlan, port) := MemberOf(k).value; Lacks(vlan, '|') && vlan != "" && port != "" && k == MemberKey(vlan, port)
  {
    var (vlan, port) := MemberOf(k).value;
    SplitOnceInverse(k.name[|MEMBER|..], '|');
    MemberKeyExactly(k, vlan, port);
  }

  function VlanName(id: nat): string {
    "Vlan" + Render(id)
  }

  /** `vlan_id_from_name`. */
  function VlanId(name: string): Option<nat> {
    if "Vlan" <= name then ParseUnsigned(name[4..], U32_MAX) else None
  }

  /** A name as the write calls spell it. */
  predicate Canonical(vlan: string) {
    VlanId(vlan).Some? && vlan == VlanName(VlanId(vlan).value)
  }

  lemma VlanNames(id: nat)
    requires id <= U32_MAX
    ensures VlanId(VlanName(id)) == Some(id) && Canonical(VlanName(id))
    ensures VlanName(id) != "" && Lacks(VlanName(id), '|')
  {
    ParseOfRender(id, U32_MAX);
    assert VlanName(id)[4..] == Render(id);
    forall i | 0 <= i < |VlanName(id)| ensures VlanName(id)[i] != '|' {
      if i >= 4 {
        assert IsDigit(Render(id)[i - 4]);
      }
    }
  }

  // -------------------------------------------- a member row names a VLAN

  predicate IsVlanRow(k: Key) {
    k.db == CONFIG_DB && VLAN <= k.name
  }

  /** Every member row names an existing VLAN. */
  ghost predicate MembersHaveVlans(db: Db) {
    forall k :: k in db && MemberOf(k).Some? ==> VlanKey(MemberOf(k).value.0) in db
  }

  /** No member row names the VLAN of this row. */
  ghost predicate NoMemberOf(db: Db, vlan: Key) {
    forall m :: m in db && MemberOf(m).Some? ==> VlanKey(MemberOf(m).value.0) != vlan
  }

  /** One write that keeps the rule: a member is added under an existing VLAN only, and a
      VLAN row loses its last field, or goes, only when it has no member. */
  ghost predicate Allowed(db: Db, op: Op) {
    match op
    case HSet(k, fields) => MemberOf(k).Some? && fields != map[] ==> VlanKey(MemberOf(k).value.0) in db
    case HDel(k, names) => IsVlanRow(k) && RowOf(db, k) - names == map[] ==> NoMemberOf(db, k)
    case Del(k) => IsVlanRow(k) ==> NoMemberOf(db, k)
  }

  lemma NotBothTables(k: Key)
    ensures !(IsVlanRow(k) && MemberOf(k).Some?)
    ensures forall v :: IsVlanRow(VlanKey(v)) && MemberOf(VlanKey(v)) == None
  {
    assert "VLAN|"[4] == '|' && "VLAN_MEMBER|"[4] == '_';
    forall v ensures IsVlanRow(VlanKey(v)) && MemberOf(VlanKey(v)) == None {
      assert VlanKey(v).name[4] == '|';
    }
  }

  /** The rule outlasts a write exactly when the write is allowed. */
  lemma AllowedExactly(db: Db, op: Op)
    requires NoEmptyRows(db) && MembersHaveVlans(db)
    ensures NoEmptyRows(Exec(db, op)) && (MembersHaveVlans(Exec(db, op)) <==> Allowed(db, op))
  {
    hide TwoParts, MemberOf, IsVlanRow, VlanKey;
    var after := Exec(db, op);
    ExecNoEmptyRows(db, op);
    NotBothTables(op.key);
    if Allowed(db, op) {
      forall k | k in after && MemberOf(k).Some? ensures VlanKey(MemberOf(k).value.0) in after {
        AllowedKeepsVlanOf(db, op, k);
      }
    }
    if MembersHaveVlans(after) {
      KeptOnlyIfAllowed(db, op);
    }
  }

  lemma AllowedKeepsVlanOf(db: Db, op: Op, k: Key)
    requires NoEmptyRows(db) && MembersHaveVlans(db) && Allowed(db, op)
    requires k in Exec(db, op) && MemberOf(k).Some?
    ensures VlanKey(MemberOf(k).value.0) in Exec(db, op)
  {
    hide TwoParts, MemberOf, IsVlanRow, VlanKey;
    var vlan := VlanKey(MemberOf(k).value.0);
    NotBothTables(vlan);
    NotBothTables(k);
    assert IsVlanRow(vlan);
    if k !in db {
      assert op.HSet? && op.key == k && op.fields != map[];
    }
    assert vlan in db && (k in db ==> !NoMemberOf(db, vlan));
    if op.key == vlan && op.HSet? {
      assert forall f :: f in op.fields ==> f in RowOf(db, vlan) + op.fields;
      assert forall f :: f in RowOf(db, vlan) ==> f in RowOf(db, vlan) + op.fields;
    }
  }

  lemma KeptOnlyIfAllowed(db: Db, op: Op)
    requires NoEmptyRows(db) && MembersHaveVlans(db) && MembersHaveVlans(Exec(db, op))
    ensures Allowed(db, op)
  {
    hide TwoParts, MemberOf, IsVlanRow, VlanKey;
    var after := Exec(db, op);
    NotBothTables(op.key);
    match op
    case HSet(k, fields) =>
      if MemberOf(k).Some? && fields != map[] {
        var f :| f in fields;
        assert f in RowOf(db, k) + fields && k in after;
        NotBothTables(VlanKey(MemberOf(k).value.0));
      }
    case HDel(k, names) =>
      if IsVlanRow(k) && RowOf(db, k) - names == map[] {
        assert k !in after;
        StillMembers(db, after, k);
      }
    case Del(k) =>
      if IsVlanRow(k) {
        StillMembers(db, after, k);
      }
  }

  lemma StillMembers(db: Db, after: Db, k: Key)
    requires IsVlanRow(k) && k !in after && MembersHaveVlans(after)
    requires forall m :: m in db && m != k ==> m in after
    ensures NoMemberOf(db, k)
  {
    hide TwoParts, MemberOf, IsVlanRow, VlanKey;
    NotBothTables(k);
    forall m | m in db && MemberOf(m).Some? ensures VlanKey(MemberOf(m).value.0) != k {
      assert m in after;
    }
  }

  /** Each write of the sequence is allowed where it happens. */
  ghost predicate Follows(db: Db, ops: seq<Op>) {
    forall n :: 0 <= n < |ops| ==> Allowed(ExecAll(db, ops[..n]), ops[n])
  }

  /** After every single write of a run, not only at its end, each member row names an
      existing VLAN. */
  lemma {:induction false} EveryWriteKeepsMembers(db: Db, ops: seq<Op>, n: nat)
    requires NoEmptyRows(db) && MembersHaveVlans(db) && Follows(db, ops) && n <= |ops|
    ensures NoEmptyRows(ExecAll(db, ops[..n])) && MembersHaveVlans(ExecAll(db, ops[..n]))
    decreases n
  {
    hide MembersHaveVlans, Allowed;
    if n > 0 {
      EveryWriteKeepsMembers(db, ops, n - 1);
      assert ops[..n][..n - 1] == ops[..n - 1];
      AllowedExactly(ExecAll(db, ops[..n - 1]), ops[n - 1]);
    }
  }

  /** The rule holds after every single write exactly when each is allowed where it
      happens. */
  lemma EveryWriteKeepsExactly(db: Db, ops: seq<Op>)
    requires NoEmptyRows(db) && MembersHaveVlans(db)
    ensures Follows(db, ops) <==> forall n :: 0 <= n <= |ops| ==> MembersHaveVlans(ExecAll(db, ops[..n]))
  {
    hide MembersHaveVlans, Allowed;
    if Follows(db, ops) {
      forall n | 0 <= n <= |ops| ensures MembersHaveVlans(ExecAll(db, ops[..n])) {
        EveryWriteKeepsMembers(db, ops, n);
      }
    }
    if forall n :: 0 <= n <= |ops| ==> MembersHaveVlans(ExecAll(db, ops[..n])) {
      forall n | 0 <= n < |ops| ensures Allowed(ExecAll(db, ops[..n]), ops[n]) {
        assert ops[..n + 1][..n] == ops[..n];
        ExecAllNoEmptyRows(db, ops[..n]);
        AllowedExactly(ExecAll(db, ops[..n]), ops[n]);
        assert MembersHaveVlans(ExecAll(db, ops[..n])) && MembersHaveVlans(ExecAll(db, ops[..n + 1]));
      }
    }
  }

  /** Calls one after the other are one run. */
  lemma FollowsAppend(db: Db, a: seq<Op>, b: seq<Op>)
    requires Follows(db, a) && Follows(ExecAll(db, a), b)
    ensures Follows(db, a + b) && ExecAll(db, a + b) == ExecAll(ExecAll(db, a), b)
  {
    hide Allowed;
    ExecAllAppend(db, a, b);
    forall n | 0 <= n < |a + b| ensures Allowed(ExecAll(db, (a + b)[..n]), (a + b)[n]) {
      AppendedWrite(db, a, b, n);
      assert if n < |a| then Allowed(ExecAll(db, a[..n]), a[n]) else Allowed(ExecAll(ExecAll(db, a), b[..n - |a|]), b[n - |a|]);
    }
  }

  lemma AppendedWrite(db: Db, a: seq<Op>, b: seq<Op>, n: nat)
    requires n < |a + b|
    ensures (a + b)[n] == if n < |a| then a[n] else b[n - |a|]
    ensures ExecAll(db, (a + b)[..n]) == if n < |a| then ExecAll(db, a[..n]) else ExecAll(ExecAll(db, a), b[..n - |a|])
  {
    if n < |a| {
      assert (a + b)[..n] == a[..n];
    } else {
      assert (a + b)[..n] == a + b[..n - |a|];
      ExecAllAppend(db, a, b[..n - |a|]);
    }
  }

  lemma FollowsParts(db: Db, a: seq<Op>, b: seq<Op>)
    requires Follows(db, a + b)
    ensures Follows(db, a) && Follows(ExecAll(db, a), b)
  {
    hide Allowed;
    forall n | 0 <= n < |a| ensures Allowed(ExecAll(db, a[..n]), a[n]) {
      assert (a + b)[..n] == a[..n] && (a + b)[n] == a[n];
    }
    forall n | 0 <= n < |b| ensures Allowed(ExecAll(ExecAll(db, a), b[..n]), b[n]) {
      AppendedWrite(db, a, b, |a| + n);
    }
  }

  // --------------------------------------------------------- a port's VLAN mode

  datatype Mode = Routed | Access | Trunk

  predicate ValidId(id: nat) {
    1 <= id <= 4094
  }

  /** `desired_vlan_rows`: VLAN id to tagging mode; the native VLAN wins over a tagged
      entry.  None is a refusal. */
  function DesiredRows(mode: Mode, untagged: Option<nat>, tagged: seq<nat>): Option<map<nat, string>> {
    match mode
    case Routed => Some(map[])
    case Access => if untagged.Some? && ValidId(untagged.value) then Some(map[untagged.value := UNTAGGED]) else None
    case Trunk =>
      if (exists i :: 0 <= i < |tagged| && !ValidId(tagged[i])) || (untagged.Some? && !ValidId(untagged.value)) then None
      else
        var rows := map id | id in tagged :: TAGGED;
        Some(if untagged.Some? then rows[untagged.value := UNTAGGED] else rows)
  }

  method ComputeDesired(mode: Mode, untagged: Option<nat>, tagged: seq<nat>) returns (r: Option<map<nat, string>>)
    ensures r == DesiredRows(mode, untagged, tagged)
  {
    var rows: map<nat, string> := map[];
    match mode {
      case Routed =>
      case Access =>
        if untagged == None || !ValidId(untagged.value) { return None; }
        rows := rows[untagged.value := UNTAGGED];
      case Trunk =>
        for i := 0 to |tagged|
          invariant forall j :: 0 <= j < i ==> ValidId(tagged[j])
          invariant rows == map id | id in tagged[..i] :: TAGGED
        {
          if !ValidId(tagged[i]) { return None; }
          assert tagged[..i + 1] == tagged[..i] + [tagged[i]];
          rows := rows[tagged[i] := TAGGED];
        }
        assert tagged[..|tagged|] == tagged;
        if untagged.Some? {
          if !ValidId(untagged.value) { return None; }
          rows := rows[untagged.value := UNTAGGED];
        }
    }
    r := Some(rows);
  }

  predicate Ascending(s: seq<nat>) {
    forall i, j :: 0 <= i < j < |s| ==> s[i] < s[j]
  }

  /** Sorted insertion without repetition. */
  function Insert(x: nat, s: seq<nat>): (r: seq<nat>)
    requires Ascending(s)
    ensures Ascending(r) && forall y :: y in r <==> y == x || y in s
  {
    if s == [] then [x]
    else if x < s[0] then [x] + s
    else if x == s[0] then s
    else
      var rest := Insert(x, s[1..]);
      assert forall y :: y in s <==> y == s[0] || y in s[1..];
      assert forall i :: 0 <= i < |rest| ==> rest[i] in rest;
      [s[0]] + rest
  }

  /** Sort and dedup. */
  function Sorted(s: seq<nat>): (r: seq<nat>)
    ensures Ascending(r) && forall y :: y in r <==> y in s
    decreases |s|
  {
    if s == [] then [] else Insert(s[|s| - 1], Sorted(s[..|s| - 1]))
  }

  lemma {:induction false} AscendingUnique(a: seq<nat>, b: seq<nat>)
    requires Ascending(a) && Ascending(b)
    requires forall x :: x in a <==> x in b
    ensures a == b
    decreases |a|
  {
    if a == [] {
      assert forall i :: 0 <= i < |b| ==> b[i] in a;
    } else {
      assert a[0] in b;
      assert b[0] in a;
      assert a[0] == b[0];
      forall x ensures x in a[1..] <==> x in b[1..] {
        assert x in a <==> x == a[0] || x in a[1..];
        assert x in b <==> x == b[0] || x in b[1..];
        assert a[0] !in a[1..] && b[0] !in b[1..];
      }
      AscendingUnique(a[1..], b[1..]);
    }
  }

  /** The ids of the rows with the given tagging mode. */
  function IdsWith(rows: seq<(nat, string)>, mode: string): (r: seq<nat>)
    ensures forall id :: id in r <==> (id, mode) in rows
    decreases |rows|
  {
    if rows == [] then []
    else
      var rest := IdsWith(rows[1..], mode);
      assert forall x :: x in rows <==> x == rows[0] || x in rows[1..];
      if rows[0].1 == mode then [rows[0].0] + rest else rest
  }

  /** `vlan_mode_of`: no row is routed, a tagged row is a trunk, else access. */
  function VlanModeOf(rows: seq<(nat, string)>): (Option<Mode>, Option<nat>, seq<nat>) {
    if rows == [] then (Some(Routed), None, [])
    else
      var plain := Sorted(IdsWith(rows, UNTAGGED));
      var untagged := if plain == [] then None else Some(plain[0]);
      var tagged := Sorted(IdsWith(rows, TAGGED));
      (if tagged != [] then Some(Trunk) else if untagged.Some? then Some(Access) else None, untagged, tagged)
  }

  /** The rows list the map, each entry at least once, in any order. */
  ghost predicate Lists(rows: seq<(nat, string)>, want: map<nat, string>) {
    forall r :: r in rows <==> r.0 in want && want[r.0] == r.1
  }

  /** What a requested mode is read back as.  A trunk with no VLAN beyond the native one
      collapses to access, or to routed when it has no native VLAN either. */
  function Normal(mode: Mode, untagged: Option<nat>, tagged: seq<nat>): (Option<Mode>, Option<nat>, seq<nat>) {
    match mode
    case Routed => (Some(Routed), None, [])
    case Access => (Some(Access), untagged, [])
    case Trunk =>
      var rest := Without(Sorted(tagged), untagged);
      if rest != [] then (Some(Trunk), untagged, rest)
      else if untagged.Some? then (Some(Access), untagged, [])
      else (Some(Routed), None, [])
  }

  function Without(s: seq<nat>, x: Option<nat>): (r: seq<nat>)
    ensures forall y :: y in r <==> y in s && x != Some(y)
    ensures Ascending(s) ==> Ascending(r)
    decreases |s|
  {
    if s == [] then []
    else
      var rest := Without(s[1..], x);
      assert forall y :: y in s <==> y == s[0] || y in s[1..];
      assert forall i :: 0 <= i < |rest| ==> rest[i] in rest;
      if x == Some(s[0]) then rest else [s[0]] + rest
  }

  lemma ListsEmpty(rows: seq<(nat, string)>, want: map<nat, string>)
    requires Lists(rows, want)
    ensures rows == [] <==> want == map[]
  {
    if want != map[] {
      var id :| id in want;
      assert (id, want[id]) in rows;
    }
    if rows != [] {
      assert rows[0] in rows;
    }
  }

  lemma IdsListed(rows: seq<(nat, string)>, want: map<nat, string>, mode: string, id: nat)
    requires Lists(rows, want)
    ensures id in Sorted(IdsWith(rows, mode)) <==> id in want && want[id] == mode
  {
    assert (id, mode) in rows <==> id in want && want[id] == mode;
  }

  /** The mode read back from the desired rows is the mode requested, normalised. */
  lemma ModeReadBack(mode: Mode, untagged: Option<nat>, tagged: seq<nat>, rows: seq<(nat, string)>)
    requires DesiredRows(mode, untagged, tagged).Some?
    requires Lists(rows, DesiredRows(mode, untagged, tagged).value)
    ensures VlanModeOf(rows) == Normal(mode, untagged, tagged)
  {
    hide DesiredRows, Sorted, IdsWith, Without, Lists;
    var want := DesiredRows(mode, untagged, tagged).value;
    forall id: nat ensures id in Sorted(IdsWith(rows, UNTAGGED)) <==> id in want && want[id] == UNTAGGED {
      IdsListed(rows, want, UNTAGGED, id);
    }
    forall id: nat ensures id in Sorted(IdsWith(rows, TAGGED)) <==> id in want && want[id] == TAGGED {
      IdsListed(rows, want, TAGGED, id);
    }
    NativeReadBack(mode, untagged, tagged, want, Sorted(IdsWith(rows, UNTAGGED)));
    TaggedReadBack(mode, untagged, tagged, want, Sorted(IdsWith(rows, TAGGED)));
    ListsEmpty(rows, want);
    EmptyMeansNothingAsked(mode, untagged, tagged, want);
  }

  lemma EmptyMeansNothingAsked(mode: Mode, untagged: Option<nat>, tagged: seq<nat>, want: map<nat, string>)
    requires DesiredRows(mode, untagged, tagged) == Some(want)
    ensures want == map[] <==> mode.Routed? || (mode.Trunk? && untagged == None && Without(Sorted(tagged), untagged) == [])
    ensures mode.Access? ==> untagged.Some?
  {
    if mode.Trunk? && untagged.Some? {
      assert untagged.value in want;
    }
    if mode.Trunk? && untagged == None && tagged != [] {
      assert tagged[0] in want && tagged[0] in Without(Sorted(tagged), untagged);
    }
    if mode.Access? {
      assert untagged.value in want;
    }
  }

  lemma NativeReadBack(mode: Mode, untagged: Option<nat>, tagged: seq<nat>, want: map<nat, string>, plain: seq<nat>)
    requires DesiredRows(mode, untagged, tagged) == Some(want)
    requires Ascending(plain) && forall id: nat :: id in plain <==> id in want && want[id] == UNTAGGED
    ensures plain == if mode.Routed? || untagged == None then [] else [untagged.value]
  {
    assert TAGGED != UNTAGGED by { assert |TAGGED| == 6 && |UNTAGGED| == 8; }
    AscendingUnique(plain, if mode.Routed? || untagged == None then [] else [untagged.value]);
  }

  lemma TaggedReadBack(mode: Mode, untagged: Option<nat>, tagged: seq<nat>, want: map<nat, string>, tags: seq<nat>)
    requires DesiredRows(mode, untagged, tagged) == Some(want)
    requires Ascending(tags) && forall id: nat :: id in tags <==> id in want && want[id] == TAGGED
    ensures tags == if mode.Trunk? then Without(Sorted(tagged), untagged) else []
  {
    assert TAGGED != UNTAGGED by { assert |TAGGED| == 6 && |UNTAGGED| == 8; }
    AscendingUnique(tags, if mode.Trunk? then Without(Sorted(tagged), untagged) else []);
  }

  // ------------------------------------------------------------ membership rows

  /** The tagging mode of a member row, SONiC's default when it has none. */
  function ModeOfRow(row: Row): string {
    Field(row, "tagging_mode").GetOr(UNTAGGED)
  }

  /** A member row is untagged also when it names no mode, tagged only when it says so. */
  lemma ModeWords(row: Row)
    ensures ModeOfRow(row) == "tagged" <==> Field(row, "tagging_mode") == Some("tagged")
    ensures ModeOfRow(row) == "untagged" <==> Field(row, "tagging_mode") in {None, Some("untagged")}
  {
    hide Field;
    assert |"tagged"| == 6 && |"untagged"| == 8;
  }

  /** The port is a member of the VLAN, with this mode. */
  function MemberMode(db: Db, vlan: string, port: string): Option<string> {
    if MemberKey(vlan, port) in db then Some(ModeOfRow(db[MemberKey(vlan, port)])) else None
  }

  predicate IsVlanName(vlan: string) {
    vlan != "" && Lacks(vlan, '|')
  }

  /** The port's member rows are the wanted ones and no others. */
  ghost predicate ExactMembership(db: Db, port: string, want: map<nat, string>) {
    forall vlan | IsVlanName(vlan) ::
      MemberMode(db, vlan, port) ==
        if Canonical(vlan) && VlanId(vlan).value in want then Some(want[VlanId(vlan).value]) else None
  }

  /** The membership a mode asks for, VLAN by VLAN: the native VLAN untagged, every other
      VLAN of a trunk tagged, and no other row. */
  ghost predicate MembershipAsked(db: Db, port: string, mode: Mode, untagged: Option<nat>, tagged: seq<nat>) {
    forall vlan | IsVlanName(vlan) ::
      MemberMode(db, vlan, port)
      == if !mode.Routed? && untagged.Some? && vlan == VlanName(untagged.value) then Some("untagged")
         else if mode.Trunk? && exists id :: id in tagged && vlan == VlanName(id) then Some("tagged")
         else None
  }

  lemma MembershipAskedExactly(db: Db, port: string, mode: Mode, untagged: Option<nat>, tagged: seq<nat>)
    requires DesiredRows(mode, untagged, tagged).Some?
    ensures ExactMembership(db, port, DesiredRows(mode, untagged, tagged).value) <==> MembershipAsked(db, port, mode, untagged, tagged)
  {
    hide MemberMode, VlanName, VlanId, DesiredRows;
    var want := DesiredRows(mode, untagged, tagged).value;
    forall vlan | IsVlanName(vlan)
      ensures (if Canonical(vlan) && VlanId(vlan).value in want then Some(want[VlanId(vlan).value]) else None)
           == if !mode.Routed? && untagged.Some? && vlan == VlanName(untagged.value) then Some("untagged")
              else if mode.Trunk? && exists id :: id in tagged && vlan == VlanName(id) then Some("tagged")
              else None {
      WantedWords(vlan, mode, untagged, tagged);
    }
  }

  lemma WantedWords(vlan: string, mode: Mode, untagged: Option<nat>, tagged: seq<nat>)
    requires DesiredRows(mode, untagged, tagged).Some?
    ensures var want := DesiredRows(mode, untagged, tagged).value;
      (if Canonical(vlan) && VlanId(vlan).value in want then Some(want[VlanId(vlan).value]) else None)
      == if !mode.Routed? && untagged.Some? && vlan == VlanName(untagged.value) then Some("untagged")
         else if mode.Trunk? && exists id :: id in tagged && vlan == VlanName(id) then Some("tagged")
         else None
  {
    hide VlanName, VlanId;
    forall id: nat | id <= U32_MAX ensures vlan == VlanName(id) <==> Canonical(vlan) && VlanId(vlan).value == id {
      VlanNames(id);
    }
    assert mode.Trunk? ==> forall id :: id in tagged ==> ValidId(id);
  }

  /** Every member row of the port is spelt as the write calls spell it. */
  ghost predicate AllCanonical(db: Db, port: string) {
    forall vlan | IsVlanName(vlan) && MemberKey(vlan, port) in db :: Canonical(vlan)
  }

  /** Membership rows of one port as `ports` collects them from a scan. */
  function PortRows(db: Db, names: seq<string>, port: string): seq<(nat, string)>
    decreases |names|
  {
    if names == [] then []
    else
      var rest := PortRows(db, names[1..], port);
      var k := Key(CONFIG_DB, names[0]);
      match MemberOf(k)
      case None => rest
      case Some((vlan, member)) =>
        if member == port && VlanId(vlan).Some? then [(VlanId(vlan).value, ModeOfRow(RowOf(db, k)))] + rest else rest
  }

  lemma {:induction false} PortRowsExactly(db: Db, names: seq<string>, port: string, id: nat, mode: string)
    ensures (id, mode) in PortRows(db, names, port) <==>
              exists n :: n in names && MemberOf(Key(CONFIG_DB, n)).Some? && MemberOf(Key(CONFIG_DB, n)).value.1 == port
                && VlanId(MemberOf(Key(CONFIG_DB, n)).value.0) == Some(id) && ModeOfRow(RowOf(db, Key(CONFIG_DB, n))) == mode
    decreases |names|
  {
    hide MemberOf, VlanId, ModeOfRow;
    if names != [] {
      assert forall n :: n in names <==> n == names[0] || n in names[1..];
      PortRowsExactly(db, names[1..], port, id, mode);
    }
  }

  /** The rows read back list exactly the wanted ones, so the port's mode reads back as
      the one requested. */
  lemma ExactMembershipReadsBack(db: Db, port: string, names: seq<string>, mode: Mode, untagged: Option<nat>, tagged: seq<nat>)
    requires DesiredRows(mode, untagged, tagged).Some? && port != ""
    requires ExactMembership(db, port, DesiredRows(mode, untagged, tagged).value)
    requires forall n :: n in names <==> Key(CONFIG_DB, n) in db && MEMBER <= n
    ensures VlanModeOf(PortRows(db, names, port)) == Normal(mode, untagged, tagged)
  {
    hide DesiredRows, VlanModeOf, Normal, ModeOfRow, VlanId, VlanName;
    var want := DesiredRows(mode, untagged, tagged).value;
    WantedIds(mode, untagged, tagged);
    forall id: nat, m: string ensures (id, m) in PortRows(db, names, port) <==> id in want && want[id] == m {
      PortRowsExactly(db, names, port, id, m);
      if (id, m) in PortRows(db, names, port) {
        var n :| n in names && MemberOf(Key(CONFIG_DB, n)).Some? && MemberOf(Key(CONFIG_DB, n)).value.1 == port
          && VlanId(MemberOf(Key(CONFIG_DB, n)).value.0) == Some(id) && ModeOfRow(RowOf(db, Key(CONFIG_DB, n))) == m;
        MemberOfInverse(Key(CONFIG_DB, n));
        var vlan := MemberOf(Key(CONFIG_DB, n)).value.0;
        assert IsVlanName(vlan) && MemberMode(db, vlan, port) == Some(m);
      }
      if id in want && want[id] == m {
        VlanNames(id);
        var vlan := VlanName(id);
        assert IsVlanName(vlan) && MemberMode(db, vlan, port) == Some(m);
        MemberKeyExactly(MemberKey(vlan, port), vlan, port);
        var n := MEMBER + vlan + "|" + port;
        assert MEMBER <= n && n in names;
      }
    }
    ModeReadBack(mode, untagged, tagged, PortRows(db, names, port));
  }

  lemma WantedIds(mode: Mode, untagged: Option<nat>, tagged: seq<nat>)
    requires DesiredRows(mode, untagged, tagged).Some?
    ensures forall id :: id in DesiredRows(mode, untagged, tagged).value ==> ValidId(id)
    ensures forall id :: id in DesiredRows(mode, untagged, tagged).value ==>
              DesiredRows(mode, untagged, tagged).value[id] in {TAGGED, UNTAGGED}
  {
  }
}
