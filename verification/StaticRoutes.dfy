/** Static routes (`src/sonic/staticroutes.rs`): the hop list kept in parallel
    comma-separated fields, the two key spellings of the default VRF, and the calls that
    keep a route in exactly one row. */
module StaticRoutes {
  import opened Common
  import opened Text
  import opened Store
  import opened Keys

  datatype NextHop = NextHop(
    gateway: Option<string>,
    iface: Option<string>,
    vrf: Option<string>,
    blackhole: bool,
    distance: Option<nat>)

  // --------------------------------------------------------- columns of a row

  function TrimEach(ps: seq<string>): (r: seq<string>)
    ensures |r| == |ps| && forall i :: 0 <= i < |ps| ==> r[i] == Trim(ps[i])
  {
    seq(|ps|, i requires 0 <= i < |ps| => Trim(ps[i]))
  }

  function Pad(ps: seq<string>, n: nat): (r: seq<string>)
    ensures |r| == if n > |ps| then n else |ps|
    ensures forall i :: 0 <= i < |r| ==> r[i] == if i < |ps| then ps[i] else ""
  {
    if n > |ps| then ps + seq(n - |ps|, _ => "") else ps
  }

  /** One field split into per-hop slots, padded to `n`. */
  function Slots(v: Option<string>, n: nat): (r: seq<string>)
    ensures |r| >= n
  {
    Pad(TrimEach(Split(v.GetOr(""), ',')), n)
  }

  function Count(v: Option<string>): nat {
    if v.Some? then |Split(v.value, ',')| else 0
  }

  /** A slot that survives the columns: not empty, nothing to trim, no separator. */
  predicate CleanSlot(s: string) {
    s != "" && Trimmed(s) && Lacks(s, ',')
  }

  lemma {:induction false} SplitLacks(s: string, sep: char)
    ensures forall i :: 0 <= i < |Split(s, sep)| ==> Lacks(Split(s, sep)[i], sep)
    decreases |s|
  {
    var n := FieldLen(s, sep);
    if n < |s| {
      SplitLacks(s[n + 1..], sep);
    }
  }

  lemma SliceLacks(s: string, lo: nat, hi: nat, c: char)
    requires lo <= hi <= |s| && Lacks(s, c)
    ensures Lacks(s[lo..hi], c)
  {
  }

  lemma TrimLacks(s: string, c: char)
    requires Lacks(s, c)
    ensures Lacks(Trim(s), c)
  {
    hide Lacks, TrimStart, TrimEnd;
    var t := TrimStart(s);
    SliceLacks(s, |s| - |t|, |s|, c);
    assert s[|s| - |t|..|s|] == t;
    var u := TrimEnd(t);
    SliceLacks(t, 0, |u|, c);
    assert t[0..|u|] == u;
  }

  /** Every slot read from a field, whatever the field holds, is empty or clean. */
  lemma SlotsAreClean(v: Option<string>, n: nat, i: nat)
    requires i < n
    ensures Slots(v, n)[i] == "" || CleanSlot(Slots(v, n)[i])
  {
    var pieces := Split(v.GetOr(""), ',');
    SplitLacks(v.GetOr(""), ',');
    if i < |pieces| {
      TrimLacks(pieces[i], ',');
      TrimYieldsTrimmed(pieces[i]);
    }
  }

  lemma {:induction false} JoinTrimmed(ps: seq<string>)
    requires forall i :: 0 <= i < |ps| ==> Trimmed(ps[i])
    ensures Trimmed(Join(ps, ','))
    ensures |ps| > 1 ==> Join(ps, ',') != ""
  {
    if |ps| > 1 {
      JoinTrimmed(ps[1..]);
      var j := Join(ps, ',');
      assert j[0] == if ps[0] == "" then ',' else ps[0][0];
      var rest := Join(ps[1..], ',');
      assert j[|j| - 1] == if rest == "" then ',' else rest[|rest| - 1];
    }
  }

  /** A column of clean or empty slots, written and read back. */
  lemma ColumnReadBack(ps: seq<string>)
    requires ps != []
    requires forall i :: 0 <= i < |ps| ==> ps[i] == "" || CleanSlot(ps[i])
    ensures Slots(Present(Join(ps, ',')), |ps|) == ps
    ensures Count(Present(Join(ps, ','))) <= |ps|
    ensures ps[0] != "" ==> Count(Present(Join(ps, ','))) == |ps|
  {
    hide Split, Trim;
    var j := Join(ps, ',');
    assert forall i :: 0 <= i < |ps| ==> Trimmed(ps[i]) && Lacks(ps[i], ',');
    JoinTrimmed(ps);
    TrimOfTrimmed(j);
    forall i | 0 <= i < |ps| ensures Trim(ps[i]) == ps[i] {
      TrimOfTrimmed(ps[i]);
    }
    SplitOfJoin(ps, ',');
    assert TrimEach(ps) == ps;
    if j == "" {
      assert |ps| == 1 && ps[0] == "";
      assert Split("", ',') == ps;
    }
    assert Present(j).GetOr("") == j;
  }

  // ------------------------------------------------------------ the hop codec

  datatype Columns = Columns(
    nexthop: Option<string>,
    ifname: Option<string>,
    nexthopVrf: Option<string>,
    distance: Option<string>,
    blackhole: Option<string>)

  function ReadColumns(row: Row): Columns {
    Columns(Field(row, "nexthop"), Field(row, "ifname"), Field(row, "nexthop-vrf"), Field(row, "distance"),
            Field(row, "blackhole"))
  }

  function HopCount(c: Columns): nat {
    Max(Count(c.nexthop), Max(Count(c.ifname), Max(Count(c.nexthopVrf), Max(Count(c.distance), Count(c.blackhole)))))
  }

  function NonEmpty(s: string): Option<string> {
    if s != "" then Some(s) else None
  }

  /** Distance 0 stands for "unset". */
  function ReadDistance(s: string): Option<nat> {
    var d := ParseUnsigned(s, U32_MAX);
    if d.Some? && d.value > 0 then d else None
  }

  function HopAt(c: Columns, n: nat, i: nat): NextHop
    requires i < n
  {
    NextHop(
      NonEmpty(Slots(c.nexthop, n)[i]), NonEmpty(Slots(c.ifname, n)[i]), NonEmpty(Slots(c.nexthopVrf, n)[i]),
      LowerAscii(Slots(c.blackhole, n)[i]) == "true", ReadDistance(Slots(c.distance, n)[i]))
  }

  function HopsFromRow(row: Row): seq<NextHop> {
    var c := ReadColumns(row);
    var n := HopCount(c);
    seq(n, i requires 0 <= i < n => HopAt(c, n, i))
  }

  function Gateways(hops: seq<NextHop>): (r: seq<string>)
    ensures |r| == |hops| && forall i :: 0 <= i < |hops| ==> r[i] == hops[i].gateway.GetOr("")
  {
    seq(|hops|, i requires 0 <= i < |hops| => hops[i].gateway.GetOr(""))
  }

  function Ifnames(hops: seq<NextHop>): (r: seq<string>)
    ensures |r| == |hops| && forall i :: 0 <= i < |hops| ==> r[i] == hops[i].iface.GetOr("")
  {
    seq(|hops|, i requires 0 <= i < |hops| => hops[i].iface.GetOr(""))
  }

  function HopVrfs(hops: seq<NextHop>): (r: seq<string>)
    ensures |r| == |hops| && forall i :: 0 <= i < |hops| ==> r[i] == hops[i].vrf.GetOr("")
  {
    seq(|hops|, i requires 0 <= i < |hops| => hops[i].vrf.GetOr(""))
  }

  function Distances(hops: seq<NextHop>): (r: seq<string>)
    ensures |r| == |hops| && forall i :: 0 <= i < |hops| ==> r[i] == Render(hops[i].distance.GetOr(0))
  {
    seq(|hops|, i requires 0 <= i < |hops| => Render(hops[i].distance.GetOr(0)))
  }

  function Blackholes(hops: seq<NextHop>): (r: seq<string>)
    ensures |r| == |hops| && forall i :: 0 <= i < |hops| ==> r[i] == if hops[i].blackhole then "true" else "false"
  {
    seq(|hops|, i requires 0 <= i < |hops| => if hops[i].blackhole then "true" else "false")
  }

  function RowFromHops(hops: seq<NextHop>): Row {
    map["nexthop" := Join(Gateways(hops), ','), "ifname" := Join(Ifnames(hops), ','),
        "nexthop-vrf" := Join(HopVrfs(hops), ','), "distance" := Join(Distances(hops), ','),
        "blackhole" := Join(Blackholes(hops), ',')]
  }

  predicate CleanOrNone(s: Option<string>) {
    s.Some? ==> CleanSlot(s.value)
  }

  /** A hop the columns can hold. */
  predicate CleanHop(h: NextHop) {
    && CleanOrNone(h.gateway) && CleanOrNone(h.iface) && CleanOrNone(h.vrf)
    && (h.distance.Some? ==> 0 < h.distance.value <= U32_MAX)
  }

  predicate AllClean(hops: seq<NextHop>) {
    forall i :: 0 <= i < |hops| ==> CleanHop(hops[i])
  }

  /** The slots of one column as they are written, one for each hop. */
  ghost predicate Column(row: Row, name: string, n: nat) {
    name in row && |Split(row[name], ',')| == n
  }

  function SlotOf(row: Row, name: string, i: nat): string
    requires name in row && i < |Split(row[name], ',')|
  {
    Split(row[name], ',')[i]
  }

  /** What a route's row says, hop by hop: nothing given is an empty slot, no distance a
      zero; no other field is in it. */
  ghost predicate RouteSays(row: Row, hops: seq<NextHop>) {
    var n := |hops|;
    && Column(row, "nexthop", n) && Column(row, "ifname", n) && Column(row, "nexthop-vrf", n)
    && Column(row, "distance", n) && Column(row, "blackhole", n)
    && (forall i :: 0 <= i < n ==>
          && SlotOf(row, "nexthop", i) == hops[i].gateway.GetOr("")
          && SlotOf(row, "ifname", i) == hops[i].iface.GetOr("")
          && SlotOf(row, "nexthop-vrf", i) == hops[i].vrf.GetOr("")
          && ParseUnsigned(SlotOf(row, "distance", i), U32_MAX) == Some(hops[i].distance.GetOr(0))
          && SlotOf(row, "blackhole", i) == if hops[i].blackhole then "true" else "false")
    && forall f :: f in row ==> f in {"nexthop", "ifname", "nexthop-vrf", "distance", "blackhole"}
  }

  lemma RawColumns(hops: seq<NextHop>)
    ensures var row := RowFromHops(hops);
      && Raw(row, "nexthop") == Some(Join(Gateways(hops), ',')) && Raw(row, "ifname") == Some(Join(Ifnames(hops), ','))
      && Raw(row, "nexthop-vrf") == Some(Join(HopVrfs(hops), ',')) && Raw(row, "distance") == Some(Join(Distances(hops), ','))
      && Raw(row, "blackhole") == Some(Join(Blackholes(hops), ','))
      && forall f :: f in row ==> f in {"nexthop", "ifname", "nexthop-vrf", "distance", "blackhole"}
  {
    hide Join, Gateways, Ifnames, HopVrfs, Distances, Blackholes;
    assert "nexthop"[0] == 'n' && "ifname"[0] == 'i' && "distance"[0] == 'd' && "blackhole"[0] == 'b' && "nexthop-vrf"[0] == 'n';
    assert |"nexthop"| == 7 && |"nexthop-vrf"| == 11;
  }

  lemma ColumnWritten(row: Row, name: string, ps: seq<string>)
    requires ps != [] && Raw(row, name) == Some(Join(ps, ',')) && forall i :: 0 <= i < |ps| ==> Lacks(ps[i], ',')
    ensures Column(row, name, |ps|) && forall i :: 0 <= i < |ps| ==> SlotOf(row, name, i) == ps[i]
  {
    hide Split, Join;
    SplitOfJoin(ps, ',');
  }

  lemma WordsLackCommas(b: bool, d: nat)
    ensures Lacks(if b then "true" else "false", ',') && Lacks(Render(d), ',')
  {
    RenderLacks(d, ',');
  }

  lemma RowSays(hops: seq<NextHop>)
    requires AllClean(hops) && hops != []
    ensures RouteSays(RowFromHops(hops), hops)
  {
    RawColumns(hops);
    hide RowFromHops, Raw, Render, Column, SlotOf, Lacks, ParseUnsigned, CleanSlot;
    var row := RowFromHops(hops);
    forall i | 0 <= i < |hops|
      ensures Lacks(Distances(hops)[i], ',') && Lacks(Blackholes(hops)[i], ',')
      ensures ParseUnsigned(Distances(hops)[i], U32_MAX) == Some(hops[i].distance.GetOr(0))
      ensures Lacks(Gateways(hops)[i], ',') && Lacks(Ifnames(hops)[i], ',') && Lacks(HopVrfs(hops)[i], ',') {
      WordsLackCommas(hops[i].blackhole, hops[i].distance.GetOr(0));
      assert CleanHop(hops[i]);
      ParseOfRender(hops[i].distance.GetOr(0), U32_MAX);
      SlotLacks(hops[i].gateway);
      SlotLacks(hops[i].iface);
      SlotLacks(hops[i].vrf);
    }
    ColumnWritten(row, "nexthop", Gateways(hops));
    ColumnWritten(row, "ifname", Ifnames(hops));
    ColumnWritten(row, "nexthop-vrf", HopVrfs(hops));
    ColumnWritten(row, "distance", Distances(hops));
    ColumnWritten(row, "blackhole", Blackholes(hops));
  }

  lemma SlotLacks(s: Option<string>)
    requires CleanOrNone(s)
    ensures Lacks(s.GetOr(""), ',')
  {
  }

  /** Reading any row whatever yields clean hops only. */
  lemma DecodedIsClean(row: Row)
    ensures AllClean(HopsFromRow(row))
  {
    hide Slots, ParseUnsigned, CleanSlot, ReadColumns, HopCount;
    var c := ReadColumns(row);
    var n := HopCount(c);
    forall i: nat | i < n ensures CleanHop(HopsFromRow(row)[i]) {
      SlotsAreClean(c.nexthop, n, i);
      SlotsAreClean(c.ifname, n, i);
      SlotsAreClean(c.nexthopVrf, n, i);
      ParsedIsSmall(Slots(c.distance, n)[i]);
    }
  }

  lemma ParsedIsSmall(s: string)
    ensures ReadDistance(s).Some? ==> 0 < ReadDistance(s).value <= U32_MAX
  {
  }

  lemma ColumnsOfRow(hops: seq<NextHop>)
    ensures ReadColumns(RowFromHops(hops)) == Columns(
              Present(Join(Gateways(hops), ',')), Present(Join(Ifnames(hops), ',')), Present(Join(HopVrfs(hops), ',')),
              Present(Join(Distances(hops), ',')), Present(Join(Blackholes(hops), ',')))
  {
    hide Trim, Join, Gateways, Ifnames, HopVrfs, Distances, Blackholes;
    var row := RowFromHops(hops);
    assert "nexthop" != "nexthop-vrf" && "nexthop"[0] == 'n' && "ifname"[0] == 'i' && "distance"[0] == 'd' && "blackhole"[0] == 'b'
      && "nexthop-vrf"[0] == 'n';
    assert row["nexthop"] == Join(Gateways(hops), ',');
    assert row["nexthop-vrf"] == Join(HopVrfs(hops), ',');
  }

  lemma FixedSlots(b: bool, d: nat)
    ensures CleanSlot("true") && CleanSlot("false") && CleanSlot(Render(d))
    ensures LowerAscii(if b then "true" else "false") == "true" <==> b
  {
    RenderIsWord(d);
    assert forall i :: 0 <= i < |Render(d)| ==> IsDigit(Render(d)[i]);
    assert LowerAscii("true") == "true" && LowerAscii("false")[0] == 'f';
  }

  lemma ColumnsReadBack(hops: seq<NextHop>)
    requires AllClean(hops) && hops != []
    ensures var c := ReadColumns(RowFromHops(hops)); var n := |hops|;
      && HopCount(c) == n
      && Slots(c.nexthop, n) == Gateways(hops) && Slots(c.ifname, n) == Ifnames(hops)
      && Slots(c.nexthopVrf, n) == HopVrfs(hops) && Slots(c.distance, n) == Distances(hops)
      && Slots(c.blackhole, n) == Blackholes(hops)
  {
    hide Slots, Count, Present, RowFromHops, ReadColumns, CleanSlot, Render, Join;
    ColumnsOfRow(hops);
    forall i | 0 <= i < |hops| ensures CleanSlot(Distances(hops)[i]) && CleanSlot(Blackholes(hops)[i]) {
      FixedSlots(hops[i].blackhole, hops[i].distance.GetOr(0));
    }
    assert forall i :: 0 <= i < |hops| ==> CleanHop(hops[i]);
    ColumnReadBack(Gateways(hops));
    ColumnReadBack(Ifnames(hops));
    ColumnReadBack(HopVrfs(hops));
    ColumnReadBack(Distances(hops));
    ColumnReadBack(Blackholes(hops));
    CleanIsNotEmpty(Distances(hops)[0]);
  }

  lemma CleanIsNotEmpty(s: string)
    requires CleanSlot(s)
    ensures s != ""
  {
  }

  lemma HopReadBack(h: NextHop)
    requires CleanHop(h)
    ensures NonEmpty(h.gateway.GetOr("")) == h.gateway && NonEmpty(h.iface.GetOr("")) == h.iface
    ensures NonEmpty(h.vrf.GetOr("")) == h.vrf
    ensures ReadDistance(Render(h.distance.GetOr(0))) == h.distance
  {
    ParseOfRender(h.distance.GetOr(0), U32_MAX);
  }

  lemma NoHops(hops: seq<NextHop>)
    requires hops == []
    ensures HopCount(ReadColumns(RowFromHops(hops))) == 0
  {
    hide Slots, RowFromHops, ReadColumns;
    ColumnsOfRow(hops);
  }

  lemma CleanHopsRoundTrip(hops: seq<NextHop>)
    requires AllClean(hops)
    ensures HopsFromRow(RowFromHops(hops)) == hops
  {
    hide Slots, RowFromHops, ReadColumns, ReadDistance, LowerAscii, CleanHop, HopCount;
    if hops == [] {
      NoHops(hops);
    } else {
      ColumnsReadBack(hops);
      var c, n := ReadColumns(RowFromHops(hops)), |hops|;
      forall i: nat | i < n ensures HopAt(c, n, i) == hops[i] {
        HopReadBack(hops[i]);
        FixedSlots(hops[i].blackhole, 0);
      }
    }
  }

  /** Writing a hop list and reading it back gives the list, whatever its length,
      exactly when every hop is one the columns can hold. */
  lemma HopsRoundTripExactly(hops: seq<NextHop>)
    ensures HopsFromRow(RowFromHops(hops)) == hops <==> AllClean(hops)
  {
    DecodedIsClean(RowFromHops(hops));
    if AllClean(hops) {
      CleanHopsRoundTrip(hops);
    }
  }

  /** A row rewritten from what was read of it reads the same. */
  lemma RewrittenRowReadsTheSame(row: Row)
    ensures HopsFromRow(RowFromHops(HopsFromRow(row))) == HopsFromRow(row)
  {
    DecodedIsClean(row);
    CleanHopsRoundTrip(HopsFromRow(row));
  }

  // ---------------------------------------------------------------- validation

  /** An address parser accepts only strings of address characters, and says whether
      the address is IPv4. */
  ghost predicate ParsesAddresses(ip: string -> Option<bool>) {
    forall s :: ip(s).Some? ==> IsWord(s) && Lacks(s, ',') && Lacks(s, '|')
  }

  predicate CheckPrefix(ip: string -> Option<bool>, prefix: string) {
    && SplitOnce(prefix, '/').Some?
    && var (addr, len) := SplitOnce(prefix, '/').value;
    && ip(addr).Some?
    && ParseUnsigned(len, 255).Some?
    && ParseUnsigned(len, 255).value <= (if ip(addr).value then 32 else 128)
  }

  /** Interface and VRF names of a hop. */
  predicate CheckName(s: string) {
    IsWord(s) && Lacks(s, ',') && Lacks(s, '|')
  }

  predicate CheckHop(ip: string -> Option<bool>, h: NextHop) {
    && (if h.blackhole then h.gateway == None && h.iface == None else h.gateway.Some? || h.iface.Some?)
    && (h.gateway.Some? ==> ip(h.gateway.value).Some?)
    && (h.iface.Some? ==> CheckName(h.iface.value))
    && (h.vrf.Some? ==> CheckName(h.vrf.value))
    && (h.distance.Some? ==> 1 <= h.distance.value <= 255)
  }

  predicate CheckVrfName(vrf: string) {
    vrf != "default" && IsWord(vrf) && Lacks(vrf, '|')
  }

  predicate RouteOk(ip: string -> Option<bool>, db: Db, vrf: Option<string>, prefix: string, hops: seq<NextHop>) {
    && CheckPrefix(ip, prefix)
    && (vrf.Some? ==> CheckVrfName(vrf.value) && Key(CONFIG_DB, "VRF|" + vrf.value) in db)
    && hops != []
    && forall i :: 0 <= i < |hops| ==> CheckHop(ip, hops[i])
  }

  /** Every route let through can be held by the columns. */
  lemma CheckedHopsAreClean(ip: string -> Option<bool>, hops: seq<NextHop>)
    requires ParsesAddresses(ip) && forall i :: 0 <= i < |hops| ==> CheckHop(ip, hops[i])
    ensures AllClean(hops)
  {
    forall i | 0 <= i < |hops| ensures CleanHop(hops[i]) {
      assert CheckHop(ip, hops[i]);
    }
  }

  /** What the checks leave of a prefix and of a VRF name. */
  predicate Addressable(vrf: Option<string>, prefix: string) {
    && prefix != "" && Lacks(prefix, '|')
    && (vrf.Some? ==> vrf.value != "" && vrf.value != "default" && Lacks(vrf.value, '|'))
  }

  lemma CheckedPrefixIsAddressable(ip: string -> Option<bool>, prefix: string)
    requires ParsesAddresses(ip) && CheckPrefix(ip, prefix)
    ensures prefix != "" && Lacks(prefix, '|')
  {
    var (addr, len) := SplitOnce(prefix, '/').value;
    SplitOnceInverse(prefix, '/');
    assert ip(addr).Some?;
    NumbersLackBars(len);
    assert prefix == addr + ['/'] + len;
  }

  lemma NumbersLackBars(s: string)
    requires ParseUnsigned(s, 255).Some?
    ensures Lacks(s, '|')
  {
    if s[0] == '+' {
      assert forall i :: 1 <= i < |s| ==> s[i] == s[1..][i - 1] && IsDigit(s[1..][i - 1]);
    }
  }

  // ------------------------------------------------------------- key spellings

  const TABLE := "STATIC_ROUTE|"

  /** Every key that can hold the route; the first is the one written. */
  function KeysFor(vrf: Option<string>, prefix: string): (names: seq<string>)
    ensures |names| >= 1
  {
    match vrf
    case Some(v) => [TABLE + v + "|" + prefix]
    case None => [TABLE + prefix, TABLE + "default" + "|" + prefix]
  }

  /** How `get` reads a key back. */
  function RouteOf(name: string): Option<(Option<string>, string)> {
    match TwoParts(name, TABLE)
    case Some((vrf, prefix)) => Some((if vrf != "default" then Some(vrf) else None, prefix))
    case None =>
      match KeySuffix(name, TABLE)
      case Some(prefix) => Some((None, prefix))
      case None => None
  }

  lemma BarePrefixHasNoParts(prefix: string)
    requires Lacks(prefix, '|')
    ensures TwoParts(TABLE + prefix, TABLE) == None
  {
    assert (TABLE + prefix)[|TABLE|..] == prefix;
    assert FieldLen(prefix, '|') == |prefix|;
  }

  lemma BareKeyExactly(name: string, prefix: string)
    requires prefix != ""
    ensures KeySuffix(name, TABLE) == Some(prefix) <==> name == TABLE + prefix
  {
    assert (TABLE + prefix)[|TABLE|..] == prefix;
    if KeySuffix(name, TABLE).Some? {
      assert name == TABLE + name[|TABLE|..];
    }
  }

  /** The two directions of the key encoding agree: a key is read as the route exactly
      when it is one of the keys looked at for the route. */
  lemma SpellingsExactly(name: string, vrf: Option<string>, prefix: string)
    requires Addressable(vrf, prefix)
    ensures RouteOf(name) == Some((vrf, prefix)) <==> name in KeysFor(vrf, prefix)
  {
    BareKeyExactly(name, prefix);
    hide TwoParts, KeySuffix;
    var spelt := if vrf.Some? then vrf.value else "default";
    assert spelt != "" && Lacks(spelt, '|');
    TwoPartsExactly(name, TABLE, spelt, prefix);
    BarePrefixHasNoParts(prefix);
  }

  function RouteKeys(vrf: Option<string>, prefix: string): seq<Key> {
    KeysNamed(CONFIG_DB, KeysFor(vrf, prefix))
  }

  /** The store after a put: the one row, all other spellings gone. */
  function PutState(db: Db, vrf: Option<string>, prefix: string, hops: seq<NextHop>): Db {
    (db - KeySet(RouteKeys(vrf, prefix)))[RouteKeys(vrf, prefix)[0] := RowFromHops(hops)]
  }

  /** The keys that hold a route, under any spelling. */
  ghost predicate Holds(db: Db, name: string, vrf: Option<string>, prefix: string) {
    Key(CONFIG_DB, name) in db && RouteOf(name) == Some((vrf, prefix))
  }

  lemma RouteKeysExactly(vrf: Option<string>, prefix: string, k: Key)
    requires Addressable(vrf, prefix)
    ensures k in KeySet(RouteKeys(vrf, prefix)) <==> k.db == CONFIG_DB && RouteOf(k.name) == Some((vrf, prefix))
  {
    hide RouteOf, KeysFor;
    var keys, names := RouteKeys(vrf, prefix), KeysFor(vrf, prefix);
    SpellingsExactly(k.name, vrf, prefix);
    if k.db == CONFIG_DB && k.name in names {
      var i :| 0 <= i < |names| && names[i] == k.name;
      assert keys[i] == k;
    }
  }

  /** After a put exactly one row across the spellings holds the route, with exactly the
      requested hops; every other row is untouched. */
  lemma PutLeavesOneRow(ip: string -> Option<bool>, db: Db, vrf: Option<string>, prefix: string, hops: seq<NextHop>)
    requires ParsesAddresses(ip) && RouteOk(ip, db, vrf, prefix, hops)
    ensures var after := PutState(db, vrf, prefix, hops); var first := KeysFor(vrf, prefix)[0];
      && (forall name :: Holds(after, name, vrf, prefix) <==> name == first)
      && HopsFromRow(after[Key(CONFIG_DB, first)]) == hops
      && (forall k: Key :: !(k.db == CONFIG_DB && RouteOf(k.name) == Some((vrf, prefix))) ==> RowOf(after, k) == RowOf(db, k))
  {
    hide RouteOf, RowFromHops, HopsFromRow, CheckPrefix, CheckHop, KeysFor;
    CheckedHopsAreClean(ip, hops);
    CleanHopsRoundTrip(hops);
    CheckedPrefixIsAddressable(ip, prefix);
    var keys := RouteKeys(vrf, prefix);
    assert keys[0] in KeySet(keys);
    forall name ensures RouteOf(name) == Some((vrf, prefix)) <==> Key(CONFIG_DB, name) in KeySet(keys) {
      RouteKeysExactly(vrf, prefix, Key(CONFIG_DB, name));
    }
    forall k: Key | !(k.db == CONFIG_DB && RouteOf(k.name) == Some((vrf, prefix)))
      ensures RowOf(PutState(db, vrf, prefix, hops), k) == RowOf(db, k) {
      RouteKeysExactly(vrf, prefix, k);
    }
  }

  // --------------------------------------------------------------------- calls

  method CheckRoute(plat: Platform, ip: string -> Option<bool>, vrf: Option<string>, prefix: string, hops: seq<NextHop>)
    returns (r: WriteResult)
    requires plat.Valid()
    modifies plat`calls
    ensures old(plat.calls) <= plat.calls && r in {Done, BadRequest, Redis}
    ensures r.Done? ==> RouteOk(ip, plat.rows, vrf, prefix, hops)
    ensures AllWork(plat.fault, old(plat.calls), plat.calls) ==> (r.Done? <==> RouteOk(ip, plat.rows, vrf, prefix, hops)) && !r.Redis?
  {
    hide CheckPrefix, CheckHop, CheckVrfName;
    if !CheckPrefix(ip, prefix) { return BadRequest; }
    if vrf.Some? {
      if !CheckVrfName(vrf.value) { return BadRequest; }
      var ok, found := plat.Exists(Key(CONFIG_DB, "VRF|" + vrf.value));
      if !ok { return Redis; }
      if !found { return BadRequest; }
    }
    if hops == [] { return BadRequest; }
    for i := 0 to |hops|
      invariant forall j :: 0 <= j < i ==> CheckHop(ip, hops[j])
    {
      if !CheckHop(ip, hops[i]) { return BadRequest; }
    }
    r := Done;
  }

  /** The batch of a put: delete each key, then write the first. */
  method PutProgram(keys: seq<Key>, row: Row, ghost db: Db) returns (ops: seq<Op>)
    requires keys != [] && row != map[]
    ensures ExecAll(db, ops) == (db - KeySet(keys))[keys[0] := row]
  {
    ops := [];
    assert db - KeySet(keys[..0]) == db;
    for i := 0 to |keys|
      invariant ExecAll(db, ops) == db - KeySet(keys[..i])
    {
      ExecAllAppend(db, ops, [Del(keys[i])]);
      ExecOne(db - KeySet(keys[..i]), Del(keys[i]));
      assert keys[..i + 1] == keys[..i] + [keys[i]];
      assert KeySet(keys[..i + 1]) == KeySet(keys[..i]) + {keys[i]};
      ops := ops + [Del(keys[i])];
    }
    assert keys[..|keys|] == keys;
    var write := HSet(keys[0], row);
    ExecAllAppend(db, ops, [write]);
    ExecOne(db - KeySet(keys), write);
    assert keys[0] in KeySet(keys) && map[] + row == row;
    ops := ops + [write];
  }

  /** Upsert: one batch deletes every spelling and writes the first. */
  method Put(plat: Platform, supported: bool, ip: string -> Option<bool>, vrf: Option<string>, prefix: string, hops: seq<NextHop>)
    returns (r: WriteResult)
    requires plat.Valid()
    modifies plat
    ensures plat.Valid()
    ensures r.Done? ==> supported && RouteOk(ip, old(plat.rows), vrf, prefix, hops)
    ensures r.Done? ==> plat.rows == PutState(old(plat.rows), vrf, prefix, hops)
    // the row written, column by column
    ensures r.Done? && ParsesAddresses(ip) ==>
              RouteSays(RowOf(plat.rows, Key(CONFIG_DB, if vrf.Some? then "STATIC_ROUTE|" + vrf.value + "|" + prefix else "STATIC_ROUTE|" + prefix)),
                        hops)
    ensures !r.Done? && OneFailureAtMost(plat.fault, old(plat.calls), plat.calls) ==> plat.rows == old(plat.rows)
    ensures AllWork(plat.fault, old(plat.calls), plat.calls) ==>
              r == if !supported then Conflict else if RouteOk(ip, old(plat.rows), vrf, prefix, hops) then Done else BadRequest
  {
    assert KeysFor(vrf, prefix)[0] == if vrf.Some? then "STATIC_ROUTE|" + vrf.value + "|" + prefix else "STATIC_ROUTE|" + prefix;
    hide RowFromHops, RouteOk, KeysFor, RouteSays, ParsesAddresses;
    if !supported { return Conflict; }
    r := CheckRoute(plat, ip, vrf, prefix, hops);
    if !r.Done? { return; }
    RowHasFields(hops);
    if ParsesAddresses(ip) {
      RouteRowSays(ip, plat.rows, vrf, prefix, hops);
    }
    var ops := PutProgram(KeysNamed(CONFIG_DB, KeysFor(vrf, prefix)), RowFromHops(hops), plat.rows);
    var done; ghost var forward;
    done, forward := Apply(plat, ops);
    r := if done then Done else Redis;
  }

  lemma RouteRowSays(ip: string -> Option<bool>, db: Db, vrf: Option<string>, prefix: string, hops: seq<NextHop>)
    requires ParsesAddresses(ip) && RouteOk(ip, db, vrf, prefix, hops)
    ensures RouteSays(RowFromHops(hops), hops)
  {
    CheckedHopsAreClean(ip, hops);
    RowSays(hops);
  }

  lemma RowHasFields(hops: seq<NextHop>)
    ensures RowFromHops(hops) != map[]
  {
    assert "nexthop" in RowFromHops(hops);
  }

  function NamedVrf(vrf: Option<string>): Option<string> {
    if vrf == Some("default") || vrf == Some("") then None else vrf
  }

  /** Look for a row and delete it if it is there. */
  method DeleteOne(plat: Platform, key: Key) returns (ok: bool, there: bool, ghost gone: bool)
    requires plat.Valid()
    modifies plat
    ensures plat.Valid() && old(plat.calls) < plat.calls
    ensures plat.rows == if gone then old(plat.rows) - {key} else old(plat.rows)
    ensures ok ==> gone && there == (key in old(plat.rows))
    ensures AllWork(plat.fault, old(plat.calls), plat.calls) ==> ok
  {
    ok, there := plat.Exists(key);
    gone := ok && !there;
    if ok && there {
      ok := plat.Write(Del(key));
      gone := plat.fault(plat.calls - 1) != Refused;
    }
  }

  lemma KeySetNext(keys: seq<Key>, i: nat)
    requires i < |keys|
    ensures KeySet(keys[..i + 1]) == KeySet(keys[..i]) + {keys[i]}
    ensures KeySet(keys[..i + 1]) <= KeySet(keys)
  {
    assert keys[..i + 1] == keys[..i] + [keys[i]];
  }

  /** Deletion is not batched: each key is looked for and deleted in turn. */
  method DeletePresent(plat: Platform, keys: seq<Key>) returns (r: WriteResult, ghost gone: set<Key>)
    requires plat.Valid()
    modifies plat
    ensures plat.Valid() && r in {Done, NotFound, Redis}
    ensures r.Done? || r.NotFound? ==> plat.rows == old(plat.rows) - KeySet(keys)
    ensures r.Done? ==> exists k :: k in keys && k in old(plat.rows)
    ensures r.NotFound? ==> plat.rows == old(plat.rows)
    ensures gone <= KeySet(keys) && plat.rows == old(plat.rows) - gone
    ensures AllWork(plat.fault, old(plat.calls), plat.calls) ==> !r.Redis?
  {
    assert KeySet([]) == {};
    hide KeySet;
    ghost var db := plat.rows;
    var found := false;
    gone := {};
    assert keys[..0] == [];
    for i := 0 to |keys|
      invariant plat.Valid() && old(plat.calls) <= plat.calls
      invariant gone == KeySet(keys[..i]) <= KeySet(keys) && plat.rows == db - gone
      invariant found ==> exists k :: k in keys && k in db
      invariant !found ==> plat.rows == db
    {
      KeySetNext(keys, i);
      assert db - gone - {keys[i]} == db - KeySet(keys[..i + 1]);
      var ok, there; ghost var went;
      ok, there, went := DeleteOne(plat, keys[i]);
      gone := if went then KeySet(keys[..i + 1]) else gone;
      if !ok {
        r := Redis;
        return;
      }
      if there {
        assert keys[i] in keys && keys[i] in db;
        found := true;
      }
    }
    assert keys[..|keys|] == keys;
    r := if found then Done else NotFound;
  }

  method Delete(plat: Platform, supported: bool, ip: string -> Option<bool>, vrf: Option<string>, prefix: string)
    returns (r: WriteResult, ghost gone: set<Key>)
    requires plat.Valid()
    modifies plat
    ensures plat.Valid()
    ensures var keys := RouteKeys(NamedVrf(vrf), prefix);
      // success or a missing route: no spelling is left
      && (r.Done? || r.NotFound? ==> plat.rows == old(plat.rows) - KeySet(keys))
      && (r.Done? ==> exists k :: k in keys && k in old(plat.rows))
      && (r.NotFound? || r.Conflict? || r.BadRequest? ==> plat.rows == old(plat.rows))
      // whatever fails, no other row is touched and none of these is altered
      && gone <= KeySet(keys) && plat.rows == old(plat.rows) - gone
    ensures AllWork(plat.fault, old(plat.calls), plat.calls) ==> !r.Redis?
    ensures r.Conflict? <==> !supported
    ensures supported && CheckPrefix(ip, prefix) <==> r in {Done, NotFound, Redis}
  {
    hide CheckPrefix, KeysFor;
    if !(supported && CheckPrefix(ip, prefix)) {
      return if supported then BadRequest else Conflict, {};
    }
    r, gone := DeletePresent(plat, KeysNamed(CONFIG_DB, KeysFor(NamedVrf(vrf), prefix)));
  }

  datatype RouteDoc = RouteDoc(vrf: Option<string>, prefix: string, hops: seq<NextHop>)

  /** One document per scanned key that reads as a route. */
  function Documents(db: Db, names: seq<string>): seq<RouteDoc>
    decreases |names|
  {
    if names == [] then []
    else
      var docs := Documents(db, names[..|names| - 1]);
      match RouteOf(names[|names| - 1])
      case None => docs
      case Some((vrf, prefix)) => docs + [RouteDoc(vrf, prefix, HopsFromRow(RowOf(db, Key(CONFIG_DB, names[|names| - 1]))))]
  }

  method Get(plat: Platform) returns (ok: bool, docs: seq<RouteDoc>, ghost names: seq<string>)
    requires plat.Valid()
    modifies plat`calls
    ensures ok ==> forall n :: n in names <==> Key(CONFIG_DB, n) in plat.rows && TABLE <= n
    ensures AllWork(plat.fault, old(plat.calls), plat.calls) ==> ok && docs == Documents(plat.rows, names)
  {
    docs := [];
    var keys;
    ok, keys := plat.Scan(CONFIG_DB, TABLE);
    names := keys;
    if !ok { return; }
    for i := 0 to |keys|
      invariant old(plat.calls) < plat.calls
      invariant AllWork(plat.fault, old(plat.calls), plat.calls) ==> docs == Documents(plat.rows, keys[..i])
    {
      assert keys[..i + 1][..i] == keys[..i];
      var route := RouteOf(keys[i]);
      if route.Some? {
        var _, row := plat.HGetAll(Key(CONFIG_DB, keys[i]));
        docs := docs + [RouteDoc(route.value.0, route.value.1, HopsFromRow(row))];
      }
    }
    assert keys[..|keys|] == keys;
  }

  predicate IsOf(d: RouteDoc, vrf: Option<string>, prefix: string) {
    d.vrf == vrf && d.prefix == prefix
  }

  /** How many documents are about the route. */
  function Mentions(docs: seq<RouteDoc>, vrf: Option<string>, prefix: string): nat
    decreases |docs|
  {
    if docs == [] then 0
    else Mentions(docs[..|docs| - 1], vrf, prefix) + if IsOf(docs[|docs| - 1], vrf, prefix) then 1 else 0
  }

  lemma {:induction false} DocumentsMention(db: Db, names: seq<string>, vrf: Option<string>, prefix: string, first: string)
    requires forall n :: n in names && RouteOf(n) == Some((vrf, prefix)) ==> n == first
    requires RouteOf(first) == Some((vrf, prefix))
    ensures Mentions(Documents(db, names), vrf, prefix) == multiset(names)[first]
    ensures forall d :: d in Documents(db, names) && IsOf(d, vrf, prefix) ==> d.hops == HopsFromRow(RowOf(db, Key(CONFIG_DB, first)))
    decreases |names|
  {
    hide RouteOf, HopsFromRow;
    if names != [] {
      var front, last := names[..|names| - 1], names[|names| - 1];
      assert names == front + [last];
      DocumentsMention(db, front, vrf, prefix, first);
      assert RouteOf(last) == Some((vrf, prefix)) <==> last == first;
      if RouteOf(last).Some? {
        var (v, p) := RouteOf(last).value;
        var doc := RouteDoc(v, p, HopsFromRow(RowOf(db, Key(CONFIG_DB, last))));
        var docs := Documents(db, front);
        assert Documents(db, names) == docs + [doc];
        hide Documents;
        assert (docs + [doc])[..|docs|] == docs;
      }
    }
  }

  /** After a put, a read reports the route with the requested hops, once for each time
      the scan yields its one key: exactly once when the scan does not repeat keys. */
  lemma PutThenGet(ip: string -> Option<bool>, db: Db, vrf: Option<string>, prefix: string, hops: seq<NextHop>, names: seq<string>)
    requires ParsesAddresses(ip) && RouteOk(ip, db, vrf, prefix, hops)
    requires forall n :: n in names <==> Key(CONFIG_DB, n) in PutState(db, vrf, prefix, hops) && TABLE <= n
    ensures var docs := Documents(PutState(db, vrf, prefix, hops), names);
      && Mentions(docs, vrf, prefix) == multiset(names)[KeysFor(vrf, prefix)[0]] >= 1
      && (forall d :: d in docs && IsOf(d, vrf, prefix) ==> d.hops == hops)
  {
    hide RouteOf, HopsFromRow, RowFromHops, Documents, Mentions, PutState, CheckPrefix, CheckHop;
    PutLeavesOneRow(ip, db, vrf, prefix, hops);
    var after, first := PutState(db, vrf, prefix, hops), KeysFor(vrf, prefix)[0];
    assert Holds(after, first, vrf, prefix);
    assert TABLE <= first;
    assert first in names;
    forall n | n in names && RouteOf(n) == Some((vrf, prefix)) ensures n == first {
      assert Holds(after, n, vrf, prefix);
    }
    DocumentsMention(after, names, vrf, prefix, first);
  }

  /** After a delete nothing read anywhere is the route. */
  lemma DeleteLeavesNoSpelling(db: Db, vrf: Option<string>, prefix: string)
    requires Addressable(vrf, prefix)
    ensures var after := db - KeySet(RouteKeys(vrf, prefix));
      && (forall name :: !Holds(after, name, vrf, prefix))
      && (forall k: Key :: !(k.db == CONFIG_DB && RouteOf(k.name) == Some((vrf, prefix))) ==> RowOf(after, k) == RowOf(db, k))
  {
    hide RouteOf, RouteKeys;
    forall name ensures RouteOf(name) == Some((vrf, prefix)) <==> Key(CONFIG_DB, name) in KeySet(RouteKeys(vrf, prefix)) {
      RouteKeysExactly(vrf, prefix, Key(CONFIG_DB, name));
    }
    forall k: Key | !(k.db == CONFIG_DB && RouteOf(k.name) == Some((vrf, prefix)))
      ensures k !in KeySet(RouteKeys(vrf, prefix)) {
      RouteKeysExactly(vrf, prefix, k);
    }
  }
}
