/** OSPF areas (`src/sonic/ospf.rs`): the spellings of an area id and the rows of an
    area. */
module Ospf {
  import opened Common
  import opened Text
  import opened Store
  import opened Keys
  import opened Diffs

  // ------------------------------------------------------------------ area ids

  /** One octet of a dotted quad: decimal, no leading zero, at most 255. */
  function Octet(p: string): Option<nat> {
    if p == "" || |p| > 3 || !AllDigits(p) || (|p| > 1 && p[0] == '0') || DigitsValue(p) > 255 then None
    else Some(DigitsValue(p))
  }

  /** `Ipv4Addr::from_str`, as the 32-bit value. */
  function ParseQuad(s: string): Option<nat> {
    var ps := Split(s, '.');
    if |ps| != 4 || Octet(ps[0]) == None || Octet(ps[1]) == None || Octet(ps[2]) == None || Octet(ps[3]) == None then None
    else Some(((Octet(ps[0]).value * 256 + Octet(ps[1]).value) * 256 + Octet(ps[2]).value) * 256 + Octet(ps[3]).value)
  }

  function Octets(n: nat): (r: seq<nat>)
    requires n <= U32_MAX
    ensures |r| == 4 && forall i :: 0 <= i < 4 ==> r[i] <= 255
    ensures ((r[0] * 256 + r[1]) * 256 + r[2]) * 256 + r[3] == n
  {
    [n / 256 / 256 / 256, n / 256 / 256 % 256, n / 256 % 256, n % 256]
  }

  /** `Ipv4Addr::to_string` of the 32-bit value. */
  function Quad(n: nat): string
    requires n <= U32_MAX
  {
    var o := Octets(n);
    Join([Render(o[0]), Render(o[1]), Render(o[2]), Render(o[3])], '.')
  }

  /** The number an accepted spelling denotes. */
  function AreaValue(s: string): Option<nat> {
    if ParseQuad(s).Some? then ParseQuad(s) else ParseUnsigned(s, U32_MAX)
  }

  /** `normalize_area`. */
  function NormalizeArea(s: string): Option<string> {
    if ParseQuad(s).Some? then Some(s)
    else
      match ParseUnsigned(s, U32_MAX)
      case None => None
      case Some(n) => Some(Quad(n))
  }

  lemma {:induction false} DigitsPositive(p: string)
    requires AllDigits(p) && p != "" && p[0] != '0'
    ensures DigitsValue(p) > 0
    decreases |p|
  {
    if |p| > 1 {
      DigitsPositive(p[..|p| - 1]);
    }
  }

  /** A decimal string without leading zeros is the rendering of its value. */
  lemma {:induction false} RenderOfDigits(p: string)
    requires AllDigits(p) && p != "" && (|p| == 1 || p[0] != '0')
    ensures Render(DigitsValue(p)) == p
    decreases |p|
  {
    var front, last := p[..|p| - 1], p[|p| - 1];
    if |p| == 1 {
      assert front == "" && DigitsValue(p) == DigitValue(last);
      assert p == [last];
    } else {
      DigitsPositive(front);
      RenderOfDigits(front);
      var v := DigitsValue(p);
      assert v / 10 == DigitsValue(front) && v % 10 == DigitValue(last);
      assert p == front + [last];
    }
  }

  lemma {:induction false} RenderLength(n: nat)
    requires n <= 255
    ensures |Render(n)| <= 3 && (|Render(n)| > 1 ==> Render(n)[0] != '0')
  {
    if n >= 10 {
      if n >= 100 {
        assert n / 10 / 10 < 10;
        assert Render(n / 10) == Render(n / 10 / 10) + [Digit(n / 10 % 10)];
      }
    }
  }

  /** An octet is the rendering of its value and nothing else. */
  lemma OctetExactly(p: string, v: nat)
    requires v <= 255
    ensures Octet(p) == Some(v) <==> p == Render(v)
  {
    DigitsValueOfRender(v);
    RenderLength(v);
    if Octet(p) == Some(v) {
      RenderOfDigits(p);
    }
  }

  lemma OctetFits(p: string)
    ensures Octet(p).Some? ==> Octet(p).value <= 255
  {
  }

  /** A string is a dotted quad exactly when it is the printed form of its value. */
  lemma QuadExactly(s: string, n: nat)
    requires n <= U32_MAX
    ensures ParseQuad(s) == Some(n) <==> s == Quad(n)
  {
    hide Octet, Split, Join, Render;
    var o := Octets(n);
    var ps := [Render(o[0]), Render(o[1]), Render(o[2]), Render(o[3])];
    forall i | 0 <= i < 4 ensures Octet(ps[i]) == Some(o[i]) && Lacks(ps[i], '.') {
      OctetExactly(ps[i], o[i]);
      RenderLacks(o[i], '.');
    }
    SplitOfJoin(ps, '.');
    if ParseQuad(s) == Some(n) {
      var qs := Split(s, '.');
      JoinOfSplit(s, '.');
      OctetFits(qs[0]);
      OctetFits(qs[1]);
      OctetFits(qs[2]);
      OctetFits(qs[3]);
      SameOctets(Octet(qs[0]).value, Octet(qs[1]).value, Octet(qs[2]).value, Octet(qs[3]).value, o);
      forall i | 0 <= i < 4 ensures qs[i] == ps[i] {
        OctetExactly(qs[i], o[i]);
      }
      assert qs == ps;
    }
  }

  lemma SameOctets(a: nat, b: nat, c: nat, d: nat, o: seq<nat>)
    requires |o| == 4 && a <= 255 && b <= 255 && c <= 255 && d <= 255 && forall i :: 0 <= i < 4 ==> o[i] <= 255
    requires ((a * 256 + b) * 256 + c) * 256 + d == ((o[0] * 256 + o[1]) * 256 + o[2]) * 256 + o[3]
    ensures o == [a, b, c, d]
  {
    OneOctet((a * 256 + b) * 256 + c, d, (o[0] * 256 + o[1]) * 256 + o[2], o[3]);
    OneOctet(a * 256 + b, c, o[0] * 256 + o[1], o[2]);
    OneOctet(a, b, o[0], o[1]);
  }

  lemma OneOctet(a: nat, d: nat, b: nat, e: nat)
    requires d <= 255 && e <= 255 && a * 256 + d == b * 256 + e
    ensures a == b && d == e
  {
  }

  lemma QuadFits(s: string)
    requires ParseQuad(s).Some?
    ensures ParseQuad(s).value <= U32_MAX
  {
    hide Split;
  }

  lemma AreaFits(s: string)
    requires AreaValue(s).Some?
    ensures AreaValue(s).value <= U32_MAX
  {
    hide ParseQuad;
    if ParseQuad(s).Some? {
      QuadFits(s);
    }
  }

  /** Normalising gives the printed quad of the number denoted, for every accepted
      spelling, and refuses every other string. */
  lemma NormalizedAreaExactly(s: string)
    ensures NormalizeArea(s).Some? <==> AreaValue(s).Some?
    ensures AreaValue(s).Some? ==> AreaValue(s).value <= U32_MAX && NormalizeArea(s) == Some(Quad(AreaValue(s).value))
  {
    hide ParseQuad, Quad;
    if AreaValue(s).Some? {
      AreaFits(s);
      QuadExactly(s, AreaValue(s).value);
    }
  }

  /** Two accepted spellings normalise to one string exactly when they denote one
      number, and normalising again changes nothing. */
  lemma SameAreaExactly(a: string, b: string)
    requires NormalizeArea(a).Some? && NormalizeArea(b).Some?
    ensures NormalizeArea(a) == NormalizeArea(b) <==> AreaValue(a) == AreaValue(b)
    ensures NormalizeArea(NormalizeArea(a).value) == NormalizeArea(a)
    ensures AreaValue(NormalizeArea(a).value) == AreaValue(a)
  {
    assert forall s :: ParseQuad(s).Some? ==> AreaValue(s) == ParseQuad(s);
    hide ParseQuad, Quad, NormalizeArea, AreaValue;
    NormalizedAreaExactly(a);
    NormalizedAreaExactly(b);
    var m, n := AreaValue(a).value, AreaValue(b).value;
    var q := Quad(m);
    QuadExactly(q, m);
    QuadExactly(q, n);
    NormalizedAreaExactly(q);
  }

  // ---------------------------------------------------------------- area rows

  const AREA := "OSPFV2_ROUTER_AREA|"
  const NETWORK := "OSPFV2_ROUTER_AREA_NETWORK|"

  function RouterKey(vrf: string): Key {
    Key(CONFIG_DB, "OSPFV2_ROUTER|" + vrf)
  }

  function AreaKey(vrf: string, area: string): Key {
    Key(CONFIG_DB, AREA + vrf + "|" + area)
  }

  function NetworkPrefix(vrf: string, area: string): string {
    NETWORK + vrf + "|" + area + "|"
  }

  function NetworkKeys(vrf: string, area: string): string -> Key {
    (net: string) => Key(CONFIG_DB, NetworkPrefix(vrf, area) + net)
  }

  /** The rows of one area of one VRF. */
  predicate OfArea(k: Key, vrf: string, area: string) {
    k == AreaKey(vrf, area) || (k.db == CONFIG_DB && NetworkPrefix(vrf, area) <= k.name)
  }

  lemma NetworkKeysDiffer(vrf: string, area: string, on: set<string>)
    ensures Injective(NetworkKeys(vrf, area), on)
  {
    forall x, y | x in on && y in on && NetworkKeys(vrf, area)(x) == NetworkKeys(vrf, area)(y) ensures x == y {
      var p := NetworkPrefix(vrf, area);
      assert (p + x)[|p|..] == x && (p + y)[|p|..] == y;
    }
  }

  lemma NetworkIsNotArea(vrf: string, area: string, net: string)
    ensures NetworkKeys(vrf, area)(net) != AreaKey(vrf, area) && OfArea(NetworkKeys(vrf, area)(net), vrf, area)
  {
    assert "OSPFV2_ROUTER_AREA|"[18] == '|' && "OSPFV2_ROUTER_AREA_NETWORK|"[18] == '_';
    assert AreaKey(vrf, area).name[18] == '|' && NetworkKeys(vrf, area)(net).name[18] == '_';
    assert NetworkPrefix(vrf, area) <= NetworkPrefix(vrf, area) + net;
  }

  /** No row belongs to two areas, whatever the VRFs. */
  lemma AreasApart(k: Key, vrf: string, area: string, vrf': string, area': string)
    requires Lacks(vrf, '|') && Lacks(area, '|') && Lacks(vrf', '|') && Lacks(area', '|')
    requires OfArea(k, vrf, area) && OfArea(k, vrf', area')
    ensures vrf == vrf' && area == area'
  {
    assert "OSPFV2_ROUTER_AREA|"[18] == '|' && "OSPFV2_ROUTER_AREA_NETWORK|"[18] == '_';
    assert AreaKey(vrf, area).name[18] == '|' && AreaKey(vrf', area').name[18] == '|';
    assert NetworkPrefix(vrf, area)[18] == '_' && NetworkPrefix(vrf', area')[18] == '_';
    if k == AreaKey(vrf, area) {
      assert k == AreaKey(vrf', area');
      SplitRow(AREA, vrf, area, k.name);
      SplitRow(AREA, vrf', area', k.name);
    } else {
      var p, q := NetworkPrefix(vrf, area), NetworkPrefix(vrf', area');
      assert k.name == p + k.name[|p|..] && k.name == q + k.name[|q|..];
      SplitNetwork(vrf, area, k.name[|p|..], k.name);
      SplitNetwork(vrf', area', k.name[|q|..], k.name);
    }
  }

  lemma SplitRow(table: string, vrf: string, rest: string, name: string)
    requires Lacks(vrf, '|') && name == table + vrf + "|" + rest
    ensures SplitOnce(name[|table|..], '|') == Some((vrf, rest))
  {
    assert name[|table|..] == vrf + ['|'] + rest;
    SplitOnceOf(vrf, '|', rest);
  }

  lemma SplitNetwork(vrf: string, area: string, net: string, name: string)
    requires Lacks(vrf, '|') && Lacks(area, '|') && name == NetworkPrefix(vrf, area) + net
    ensures SplitOnce(name[|NETWORK|..], '|') == Some((vrf, area + ['|'] + net))
    ensures SplitOnce(area + ['|'] + net, '|') == Some((area, net))
  {
    assert name == NETWORK + vrf + "|" + (area + ['|'] + net);
    SplitRow(NETWORK, vrf, area + ['|'] + net, name);
    SplitOnceOf(area, '|', net);
  }

  /** Different spellings of one number address the same rows; different numbers share
      none. */
  lemma SpellingsShareRowsExactly(vrf: string, a: string, b: string)
    requires Lacks(vrf, '|') && NormalizeArea(a).Some? && NormalizeArea(b).Some?
    ensures AreaValue(a) == AreaValue(b) <==>
              exists k :: OfArea(k, vrf, NormalizeArea(a).value) && OfArea(k, vrf, NormalizeArea(b).value)
  {
    assert OfArea(AreaKey(vrf, NormalizeArea(a).value), vrf, NormalizeArea(a).value);
    hide NormalizeArea, AreaValue, OfArea;
    SameAreaExactly(a, b);
    var x, y := NormalizeArea(a).value, NormalizeArea(b).value;
    NormalLacksBar(a);
    NormalLacksBar(b);
    if k :| OfArea(k, vrf, x) && OfArea(k, vrf, y) {
      AreasApart(k, vrf, x, vrf, y);
    }
  }

  lemma NormalLacksBar(s: string)
    requires NormalizeArea(s).Some?
    ensures Lacks(NormalizeArea(s).value, '|')
  {
    hide ParseQuad, Render;
    NormalizedAreaExactly(s);
    var o := Octets(AreaValue(s).value);
    RenderLacks(o[0], '|');
    RenderLacks(o[1], '|');
    RenderLacks(o[2], '|');
    RenderLacks(o[3], '|');
    var ps := [Render(o[0]), Render(o[1]), Render(o[2]), Render(o[3])];
    JoinLacks(ps, '.', '|');
  }

  lemma {:induction false} JoinLacks(ps: seq<string>, sep: char, c: char)
    requires sep != c && forall i :: 0 <= i < |ps| ==> Lacks(ps[i], c)
    ensures Lacks(Join(ps, sep), c)
    decreases |ps|
  {
    if |ps| > 1 {
      JoinLacks(ps[1..], sep, c);
    }
  }

  function Networks(nets: seq<string>): set<string> {
    set n | n in nets
  }

  function NetworkRows(nets: set<string>): map<string, Row> {
    map n | n in nets :: PLACEHOLDER
  }

  function StubFields(stub: bool): Row {
    map["stub" := if stub then "true" else "false"]
  }

  /** The suffixes of the scanned network rows. */
  method CurrentNetworks(plat: Platform, vrf: string, area: string) returns (ok: bool, nets: set<string>)
    requires plat.Valid()
    modifies plat`calls
    ensures old(plat.calls) < plat.calls && (ok <==> AllWork(plat.fault, old(plat.calls), plat.calls))
    ensures ok ==> forall n :: n in nets <==> NetworkKeys(vrf, area)(n) in plat.rows
  {
    var p := NetworkPrefix(vrf, area);
    var names;
    ok, names := plat.Scan(CONFIG_DB, p);
    nets := {};
    if !ok { return; }
    for i := 0 to |names|
      invariant plat.calls == old(plat.calls) + 1
      invariant forall n :: n in nets <==> p + n in names[..i]
    {
      assert names[..i + 1] == names[..i] + [names[i]];
      assert names[i] in names;
      assert names[i] == p + names[i][|p|..];
      forall n | p + n == names[i] ensures n == names[i][|p|..] {
        assert (p + n)[|p|..] == n;
      }
      nets := nets + {names[i][|p|..]};
    }
    assert names[..|names|] == names;
    forall n ensures p + n in names <==> NetworkKeys(vrf, area)(n) in plat.rows {
      assert p <= p + n;
    }
  }

  /** A network row is a placeholder, whatever else it held kept. */
  ghost predicate NetworkSays(before: Row, after: Row) {
    Raw(after, "NULL") == Some("NULL") && KeepsOthers(before, after, {"NULL"})
  }

  lemma StubSays(row: Row, stub: bool)
    ensures SaysBool(row + StubFields(stub), "stub", stub) && KeepsOthers(row, row + StubFields(stub), {"stub"})
    ensures NetworkSays(row, row + PLACEHOLDER)
  {
    FlagSays(row + StubFields(stub), "stub", stub);
  }

  /** The area after a put. */
  ghost predicate AreaIs(before: Db, after: Db, vrf: string, area: string, stub: bool, nets: set<string>) {
    && RowOf(after, AreaKey(vrf, area)) == RowOf(before, AreaKey(vrf, area)) + StubFields(stub)
    && SaysBool(RowOf(after, AreaKey(vrf, area)), "stub", stub)
    && KeepsOthers(RowOf(before, AreaKey(vrf, area)), RowOf(after, AreaKey(vrf, area)), {"stub"})
    && (forall n :: n in nets ==> NetworkSays(RowOf(before, NetworkKeys(vrf, area)(n)), RowOf(after, NetworkKeys(vrf, area)(n))))
    && (forall n :: NetworkKeys(vrf, area)(n) in after <==> n in nets)
    && (forall k :: !OfArea(k, vrf, area) ==> RowOf(after, k) == RowOf(before, k))
  }

  lemma PutAreaEffect(db: Db, vrf: string, area: string, stub: bool, current: set<string>, nets: set<string>, netOps: seq<Op>)
    requires NoEmptyRows(db)
    requires forall n :: n in current <==> NetworkKeys(vrf, area)(n) in db
    requires CarriesOut(netOps, NetworkKeys(vrf, area), current - nets, NetworkRows(nets))
    ensures AreaIs(db, ExecAll(db, [HSet(AreaKey(vrf, area), StubFields(stub))] + netOps), vrf, area, stub, nets)
  {
    assert OfArea(AreaKey(vrf, area), vrf, area);
    StubSays(RowOf(db, AreaKey(vrf, area)), stub);
    hide AreaKey, NetworkKeys, CarriesOut, Injective, OfArea, NetworkRows, NetworkSays, SaysBool, KeepsOthers;
    var first := HSet(AreaKey(vrf, area), StubFields(stub));
    var middle := ExecAll(db, [first]);
    var after := ExecAll(middle, netOps);
    ExecAllAppend(db, [first], netOps);
    ExecOne(db, first);
    ExecReads(db, first, AreaKey(vrf, area));
    ExecNoEmptyRows(db, first);
    ExecAllNoEmptyRows(middle, netOps);
    forall n ensures NetworkKeys(vrf, area)(n) != AreaKey(vrf, area) && OfArea(NetworkKeys(vrf, area)(n), vrf, area) {
      NetworkIsNotArea(vrf, area, n);
    }
    OthersUntouched(middle, netOps, NetworkKeys(vrf, area), current - nets, NetworkRows(nets), AreaKey(vrf, area));
    forall k | !OfArea(k, vrf, area) ensures RowOf(after, k) == RowOf(db, k) {
      ExecKeepsOthers(db, first, k);
      OthersUntouched(middle, netOps, NetworkKeys(vrf, area), current - nets, NetworkRows(nets), k);
    }
    forall n ensures NetworkKeys(vrf, area)(n) in after <==> n in nets
      ensures n in nets ==> NetworkSays(RowOf(db, NetworkKeys(vrf, area)(n)), RowOf(after, NetworkKeys(vrf, area)(n))) {
      NetworkConverged(db, middle, after, first, vrf, area, current, nets, netOps, n);
    }
  }

  lemma NetworkConverged(db: Db, middle: Db, after: Db, first: Op, vrf: string, area: string, current: set<string>,
                         nets: set<string>, netOps: seq<Op>, n: string)
    requires middle == Exec(db, first) && after == ExecAll(middle, netOps) && NoEmptyRows(db) && NoEmptyRows(middle) && NoEmptyRows(after)
    requires first.key == AreaKey(vrf, area)
    requires n in current <==> NetworkKeys(vrf, area)(n) in db
    requires CarriesOut(netOps, NetworkKeys(vrf, area), current - nets, NetworkRows(nets))
    ensures NetworkKeys(vrf, area)(n) in after <==> n in nets
    ensures n in nets ==> NetworkSays(RowOf(db, NetworkKeys(vrf, area)(n)), RowOf(after, NetworkKeys(vrf, area)(n)))
  {
    hide CarriesOut, Injective, NetworkKeys, AreaKey, NetworkSays;
    StubSays(RowOf(db, NetworkKeys(vrf, area)(n)), false);
    var k := NetworkKeys(vrf, area)(n);
    NetworkIsNotArea(vrf, area, n);
    ExecKeepsOthers(db, first, k);
    NetworkKeysDiffer(vrf, area, (current - nets) + NetworkRows(nets).Keys + {n});
    CarriedOut(middle, netOps, NetworkKeys(vrf, area), current - nets, NetworkRows(nets), n);
    assert "NULL" in RowOf(middle, k) + PLACEHOLDER;
  }

  predicate AreaOk(db: Db, vrf: string, area: string, networks: seq<string>) {
    && ValidVrf(vrf) && (vrf == "default" || Key(CONFIG_DB, "VRF|" + vrf) in db)
    && NormalizeArea(area).Some? && (forall i :: 0 <= i < |networks| ==> ValidCidr(networks[i]))
    && RouterKey(vrf) in db
  }

  /** `put_area`: exactly the desired networks, in this area only, whichever spelling the
      area came in. */
  method PutArea(plat: Platform, supported: bool, vrf: string, area: string, stub: bool, networks: seq<string>) returns (r: WriteResult)
    requires plat.Valid()
    modifies plat
    ensures plat.Valid()
    ensures r.Done? ==> NormalizeArea(area).Some? && RouterKey(vrf) in old(plat.rows)
    ensures r.Done? ==> AreaIs(old(plat.rows), plat.rows, vrf, NormalizeArea(area).value, stub, Networks(networks))
    ensures !r.Done? && OneFailureAtMost(plat.fault, old(plat.calls), plat.calls) ==> plat.rows == old(plat.rows)
    ensures AllWork(plat.fault, old(plat.calls), plat.calls) ==>
              r == if !supported then Conflict else if AreaOk(old(plat.rows), vrf, area, networks) then Done else BadRequest
  {
    hide AreaIs, NormalizeArea, NetworkKeys, AreaKey, CarriesOut, Injective, ValidCidr, NetworkRows;
    ghost var db := plat.rows;
    if !supported { return Conflict; }
    if !ValidVrf(vrf) { return BadRequest; }
    if vrf != "default" {
      var ok, found := plat.Exists(Key(CONFIG_DB, "VRF|" + vrf));
      if !ok || !found { return if ok then BadRequest else Redis; }
    }
    if NormalizeArea(area) == None { return BadRequest; }
    var id := NormalizeArea(area).value;
    if exists i :: 0 <= i < |networks| && !ValidCidr(networks[i]) { return BadRequest; }
    var ok, found := plat.Exists(RouterKey(vrf));
    if !ok || !found { return if ok then BadRequest else Redis; }
    var current;
    ok, current := CurrentNetworks(plat, vrf, id);
    if !ok { return Redis; }
    var nets := Networks(networks);
    RowsOfNetworks(nets);
    NetworkKeysDiffer(vrf, id, (current - nets) + NetworkRows(nets).Keys);
    var netOps := CarryOut(NetworkKeys(vrf, id), current - nets, NetworkRows(nets));
    PutAreaEffect(db, vrf, id, stub, current, nets, netOps);
    ghost var forward;
    ok, forward := Apply(plat, [HSet(AreaKey(vrf, id), StubFields(stub))] + netOps);
    r := if ok then Done else Redis;
  }

  lemma RowsOfNetworks(nets: set<string>)
    ensures NetworkRows(nets).Keys == nets
    ensures forall n :: n in nets ==> NetworkRows(nets)[n] == PLACEHOLDER != map[]
  {
    assert "NULL" in PLACEHOLDER;
  }

  /** `delete_area`: not batched, the networks first. */
  method DeleteArea(plat: Platform, supported: bool, vrf: string, area: string) returns (r: WriteResult)
    requires plat.Valid()
    modifies plat
    ensures plat.Valid()
    ensures r in {Conflict, BadRequest, NotFound} ==> plat.rows == old(plat.rows)
    ensures r.Done? ==> NormalizeArea(area).Some?
    ensures r.Done? ==> forall k ::
              RowOf(plat.rows, k) == if OfArea(k, vrf, NormalizeArea(area).value) then map[] else RowOf(old(plat.rows), k)
    ensures NormalizeArea(area).Some? ==> forall k :: !OfArea(k, vrf, NormalizeArea(area).value) ==> RowOf(plat.rows, k) == RowOf(old(plat.rows), k)
    ensures AllWork(plat.fault, old(plat.calls), plat.calls) ==>
              r == if !supported then Conflict else if NormalizeArea(area) == None then BadRequest
                   else if AreaKey(vrf, NormalizeArea(area).value) in old(plat.rows) then Done else NotFound
  {
    hide NormalizeArea, AreaKey, OfArea;
    ghost var db := plat.rows;
    if !supported { return Conflict; }
    if NormalizeArea(area) == None { return BadRequest; }
    var id := NormalizeArea(area).value;
    var ok, found := plat.Exists(AreaKey(vrf, id));
    if !ok || !found { return if ok then NotFound else Redis; }
    var names;
    ok, names := plat.Scan(CONFIG_DB, NetworkPrefix(vrf, id));
    if !ok { return Redis; }
    var keys := KeysNamed(CONFIG_DB, names) + [AreaKey(vrf, id)];
    forall k ensures k in keys <==> k in db && OfArea(k, vrf, id) {
      ScannedRows(db, names, vrf, id, k);
    }
    ghost var gone;
    ok, gone := DeleteEach(plat, keys);
    assert gone == |keys| ==> keys[..gone] == keys;
    assert forall k :: k in keys[..gone] ==> k in keys;
    r := if ok then Done else Redis;
  }

  lemma ScannedRows(db: Db, names: seq<string>, vrf: string, area: string, k: Key)
    requires forall n :: n in names <==> Key(CONFIG_DB, n) in db && NetworkPrefix(vrf, area) <= n
    requires AreaKey(vrf, area) in db
    ensures k in KeysNamed(CONFIG_DB, names) + [AreaKey(vrf, area)] <==> k in db && OfArea(k, vrf, area)
  {
    hide AreaKey, NetworkPrefix;
    if k.db == CONFIG_DB && k.name in names {
      var i :| 0 <= i < |names| && names[i] == k.name;
      assert KeysNamed(CONFIG_DB, names)[i] == k;
    }
    if k.db == CONFIG_DB {
      assert k == Key(CONFIG_DB, k.name);
    }
  }
}
