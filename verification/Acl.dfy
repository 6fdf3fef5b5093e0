/** ACL rules (`src/sonic/acl.rs`): compiling a rule into its ACL_RULE fields and reading
    the fields back. */
module Acl {
  import opened Common
  import opened Text
  import opened Store
  import opened Keys

  /** The table types this agent manages. */
  datatype Kind = L3 | L3V6 | Mac

  datatype Action = Forward | Drop

  datatype RuleInput = RuleInput(
    action: string,
    src: Option<string>,
    dst: Option<string>,
    protocol: Option<string>,
    srcPort: Option<string>,
    dstPort: Option<string>)

  // -------------------------------------------------------------- field names

  const PRIORITY := "PRIORITY"
  const ACTION := "PACKET_ACTION"
  const PROTOCOL := "IP_PROTOCOL"
  const SRC_PORT := "L4_SRC_PORT"
  const DST_PORT := "L4_DST_PORT"

  function SrcField(kind: Kind): string {
    match kind
    case L3 => "SRC_IP"
    case L3V6 => "SRC_IPV6"
    case Mac => "SRC_MAC"
  }

  function DstField(kind: Kind): string {
    match kind
    case L3 => "DST_IP"
    case L3V6 => "DST_IPV6"
    case Mac => "DST_MAC"
  }

  function RangeField(base: string): string {
    base + "_RANGE"
  }

  // ------------------------------------------------------------------ protocols

  /** `protocol_number`: a name or a number up to 255. */
  function ProtocolNumber(kind: Kind, v: string): Option<nat> {
    if v == "tcp" then Some(6)
    else if v == "udp" then Some(17)
    else if v == "icmp" then Some(if kind.L3V6? then 58 else 1)
    else ParseUnsigned(v, 255)
  }

  /** `protocol_name`. */
  function ProtocolName(num: string, v6: bool): string {
    if num == "6" then "tcp"
    else if num == "17" then "udp"
    else if (num == "1" && !v6) || (num == "58" && v6) then "icmp"
    else num
  }

  lemma SmallRenders()
    ensures Render(6) == "6" && Render(17) == "17" && Render(1) == "1" && Render(58) == "58"
  {
    assert Render(17) == Render(1) + [Digit(7)];
    assert Render(58) == Render(5) + [Digit(8)];
  }

  lemma RenderIsNoName(n: nat)
    ensures Render(n) != "tcp" && Render(n) != "udp" && Render(n) != "icmp"
  {
    assert IsDigit(Render(n)[0]);
    assert "tcp"[0] == 't' && "udp"[0] == 'u' && "icmp"[0] == 'i';
  }

  /** A protocol read back and compiled again gives the same number. */
  lemma ProtocolRoundTrip(kind: Kind, v: string)
    requires ProtocolNumber(kind, v).Some?
    ensures ProtocolNumber(kind, v).value <= 255
    ensures var n := ProtocolNumber(kind, v).value;
      ProtocolNumber(kind, ProtocolName(Render(n), kind.L3V6?)) == Some(n)
  {
    hide Render;
    var n := ProtocolNumber(kind, v).value;
    SmallRenders();
    RenderIsNoName(n);
    ParseOfRender(n, 255);
    if Render(n) == "6" { RenderInjective(n, 6); }
    if Render(n) == "17" { RenderInjective(n, 17); }
    if Render(n) == "1" { RenderInjective(n, 1); }
    if Render(n) == "58" { RenderInjective(n, 58); }
  }

  // ---------------------------------------------------------------------- ports

  datatype Port = One(p: nat) | Range(lo: nat, hi: nat)

  /** `port_field`: a port, or a range with its ends in order. */
  function ParsePort(v: string): Option<Port> {
    match SplitOnce(v, '-')
    case Some((lo, hi)) =>
      var l, h := ParseUnsigned(lo, U16_MAX), ParseUnsigned(hi, U16_MAX);
      if l.Some? && h.Some? && l.value < h.value then Some(Range(l.value, h.value)) else None
    case None =>
      match ParseUnsigned(v, U16_MAX)
      case None => None
      case Some(p) => Some(One(p))
  }

  function PortText(p: Port): string {
    match p
    case One(n) => Render(n)
    case Range(lo, hi) => Render(lo) + "-" + Render(hi)
  }

  predicate FitsPort(p: Port) {
    match p
    case One(n) => n <= U16_MAX
    case Range(lo, hi) => lo < hi <= U16_MAX
  }

  /** A printed port is read back as it was. */
  lemma PortReadBack(p: Port)
    requires FitsPort(p)
    ensures ParsePort(PortText(p)) == Some(p)
  {
    hide Render, ParseUnsigned;
    match p
    case One(n) =>
      RenderLacks(n, '-');
      ParseOfRender(n, U16_MAX);
      assert FieldLen(Render(n), '-') == |Render(n)|;
    case Range(lo, hi) =>
      RenderLacks(lo, '-');
      ParseOfRender(lo, U16_MAX);
      ParseOfRender(hi, U16_MAX);
      assert PortText(p) == Render(lo) + ['-'] + Render(hi);
      SplitOnceOf(Render(lo), '-', Render(hi));
  }

  lemma ParsedFits(v: string)
    ensures ParsePort(v).Some? ==> FitsPort(ParsePort(v).value)
  {
  }

  /** `str::replace("..", "-")`. */
  function DotsToDash(s: string): string
    decreases |s|
  {
    if |s| < 2 then s
    else if s[0] == '.' && s[1] == '.' then "-" + DotsToDash(s[2..])
    else [s[0]] + DotsToDash(s[1..])
  }

  lemma {:induction false} NoDotsUnchanged(s: string)
    requires Lacks(s, '.')
    ensures DotsToDash(s) == s
    decreases |s|
  {
    if |s| >= 2 {
      NoDotsUnchanged(s[1..]);
      assert s == [s[0]] + s[1..];
    }
  }

  lemma PortTextPlain(p: Port)
    ensures DotsToDash(PortText(p)) == PortText(p)
    ensures Present(PortText(p)) == Some(PortText(p))
  {
    hide Render, Trim;
    match p {
      case One(n) =>
        RenderLacks(n, '.');
        RenderIsWord(n);
      case Range(lo, hi) =>
        RenderLacks(lo, '.');
        RenderLacks(hi, '.');
        RenderIsWord(lo);
        RenderIsWord(hi);
    }
    assert Lacks(PortText(p), '.') && IsWord(PortText(p));
    NoDotsUnchanged(PortText(p));
    WordIsPresent(PortText(p));
  }

  lemma WordIsPresent(w: string)
    requires IsWord(w)
    ensures Present(w) == Some(w)
  {
    TrimOfTrimmed(w);
  }

  // -------------------------------------------------------------------- compile

  /** `check_match_addr`: six hexadecimal pairs, or an address of the table's family with
      an optional prefix length; `ip` parses addresses and tells IPv4 ones. */
  predicate CheckAddress(ip: string -> Option<bool>, kind: Kind, v: string) {
    if kind.Mac? then
      var ps := Split(v, ':');
      |ps| == 6 && forall i :: 0 <= i < 6 ==> |ps[i]| == 2 && IsHexDigit(ps[i][0]) && IsHexDigit(ps[i][1])
    else
      match SplitOnce(v, '/')
      case None => ip(v) == Some(kind.L3?)
      case Some((addr, len)) =>
        ip(addr) == Some(kind.L3?) && ParseUnsigned(len, if kind.L3? then 32 else 128).Some?
  }

  /** Each part of a rule as compiled. */
  datatype Compiled = Compiled(
    priority: nat,
    action: Action,
    src: Option<string>,
    dst: Option<string>,
    protocol: Option<nat>,
    srcPort: Option<Port>,
    dstPort: Option<Port>)

  function ParseAction(s: string): Option<Action> {
    if s == "forward" then Some(Forward) else if s == "drop" then Some(Drop) else None
  }

  predicate PortOk(protocol: Option<nat>, v: Option<string>) {
    v.Some? ==> protocol in {Some(6), Some(17)} && ParsePort(v.value).Some?
  }

  function PortOf(v: Option<string>): Option<Port> {
    if v.Some? then ParsePort(v.value) else None
  }

  function NumberOf(kind: Kind, v: Option<string>): Option<nat> {
    if v.Some? then ProtocolNumber(kind, v.value) else None
  }

  predicate Accepted(ip: string -> Option<bool>, kind: Kind, input: RuleInput) {
    && ParseAction(input.action).Some?
    && (input.src.Some? ==> CheckAddress(ip, kind, input.src.value))
    && (input.dst.Some? ==> CheckAddress(ip, kind, input.dst.value))
    && (input.protocol.Some? ==> !kind.Mac? && ProtocolNumber(kind, input.protocol.value).Some?)
    && PortOk(NumberOf(kind, input.protocol), input.srcPort)
    && PortOk(NumberOf(kind, input.protocol), input.dstPort)
  }

  /** What an accepted rule means. */
  function Meaning(kind: Kind, priority: nat, input: RuleInput): Compiled {
    Compiled(priority, ParseAction(input.action).GetOr(Forward), input.src, input.dst, NumberOf(kind, input.protocol),
             PortOf(input.srcPort), PortOf(input.dstPort))
  }

  function Opt(name: string, v: Option<string>): Row {
    if v.Some? then map[name := v.value] else map[]
  }

  function PortRow(single: string, range: string, p: Option<Port>): Row {
    if p.Some? then map[(if p.value.Range? then range else single) := PortText(p.value)] else map[]
  }

  function ActionText(a: Action): string {
    if a.Drop? then "DROP" else "FORWARD"
  }

  /** The names of the fields. */
  datatype FieldNames = FieldNames(
    priority: string, action: string, src: string, dst: string, protocol: string,
    srcPort: string, srcRange: string, dstPort: string, dstRange: string)

  function NamesFor(kind: Kind): FieldNames {
    FieldNames(PRIORITY, ACTION, SrcField(kind), DstField(kind), PROTOCOL, SRC_PORT, RangeField(SRC_PORT), DST_PORT, RangeField(DST_PORT))
  }

  function ProtocolText(p: Option<nat>): Option<string> {
    if p.Some? then Some(Render(p.value)) else None
  }

  /** The fields in the order they are pushed, part by part. */
  function Parts(n: FieldNames, c: Compiled): seq<Row> {
    [map[n.priority := Render(c.priority), n.action := ActionText(c.action)],
     Opt(n.src, c.src), Opt(n.dst, c.dst), Opt(n.protocol, ProtocolText(c.protocol)),
     PortRow(n.srcPort, n.srcRange, c.srcPort), PortRow(n.dstPort, n.dstRange, c.dstPort)]
  }

  /** The ACL_RULE fields. */
  function Fields(kind: Kind, c: Compiled): Row {
    Merge(Parts(NamesFor(kind), c))
  }

  /** `rule_fields`, pushing one field after the other. */
  method RuleFields(ip: string -> Option<bool>, kind: Kind, priority: nat, input: RuleInput) returns (r: Option<Row>)
    ensures r == if Accepted(ip, kind, input) then Some(Fields(kind, Meaning(kind, priority, input))) else None
  {
    hide CheckAddress, ProtocolNumber, ParsePort, Render, NamesFor, Merge, Opt, PortRow, ProtocolText, ActionText;
    var n := NamesFor(kind);
    var action := ParseAction(input.action);
    if action == None { return None; }
    var fields: Row := map[n.priority := Render(priority), n.action := ActionText(action.value)];
    if input.src.Some? && !CheckAddress(ip, kind, input.src.value) { return None; }
    fields := fields + Opt(n.src, input.src);
    if input.dst.Some? && !CheckAddress(ip, kind, input.dst.value) { return None; }
    fields := fields + Opt(n.dst, input.dst);
    var protocol: Option<nat> := None;
    if input.protocol.Some? {
      if kind.Mac? { return None; }
      protocol := ProtocolNumber(kind, input.protocol.value);
      if protocol == None { return None; }
    }
    fields := fields + Opt(n.protocol, ProtocolText(protocol));
    var l4 := protocol == Some(6) || protocol == Some(17);
    if input.srcPort.Some? && (!l4 || ParsePort(input.srcPort.value) == None) { return None; }
    fields := fields + PortRow(n.srcPort, n.srcRange, PortOf(input.srcPort));
    if input.dstPort.Some? && (!l4 || ParsePort(input.dstPort.value) == None) { return None; }
    fields := fields + PortRow(n.dstPort, n.dstRange, PortOf(input.dstPort));
    MergeSix(Parts(n, Meaning(kind, priority, input)));
    r := Some(fields);
  }

  lemma MergeSix(p: seq<Row>)
    requires |p| == 6
    ensures Merge(p) == p[0] + p[1] + p[2] + p[3] + p[4] + p[5]
  {
    assert p[..5][..4] == p[..4] && p[..4][..3] == p[..3] && p[..3][..2] == p[..2] && p[..2][..1] == p[..1] && p[..1][..0] == [];
    assert Merge(p[..1]) == p[0];
    assert Merge(p[..2]) == p[0] + p[1];
    assert Merge(p[..3]) == p[0] + p[1] + p[2];
    assert Merge(p[..4]) == p[0] + p[1] + p[2] + p[3];
    assert Merge(p[..5]) == p[0] + p[1] + p[2] + p[3] + p[4];
  }

  // ------------------------------------------------------------------ decompile

  /** A rule document, its priority aside. */
  datatype RuleDoc = RuleDoc(
    action: string,
    src: Option<string>,
    dst: Option<string>,
    protocol: Option<string>,
    srcPort: Option<string>,
    dstPort: Option<string>)

  function UpperAscii(s: string): string {
    seq(|s|, i requires 0 <= i < |s| => if 'a' <= s[i] <= 'z' then (s[i] as int - 32) as char else s[i])
  }

  function ReadAction(v: Option<string>): string {
    if v.Some? && UpperAscii(v.value) in ["DROP", "DENY"] then "drop" else "forward"
  }

  function ReadPort(range: Option<string>, single: Option<string>): Option<string> {
    if range.Some? then Some(DotsToDash(range.value)) else single
  }

  /** `rule_doc`. */
  function Doc(kind: Kind, row: Row): RuleDoc {
    RuleDoc(
      ReadAction(Field(row, ACTION)), Field(row, SrcField(kind)), Field(row, DstField(kind)),
      match Field(row, PROTOCOL) case None => None case Some(p) => Some(ProtocolName(p, kind.L3V6?)),
      ReadPort(Field(row, RangeField(SRC_PORT)), Field(row, SRC_PORT)),
      ReadPort(Field(row, RangeField(DST_PORT)), Field(row, DST_PORT)))
  }

  /** The normalised rule: names for the protocols that have one, numbers without leading
      zeros or signs. */
  function Normal(kind: Kind, c: Compiled): RuleDoc {
    RuleDoc(
      if c.action.Drop? then "drop" else "forward", c.src, c.dst,
      if c.protocol.Some? then Some(ProtocolName(Render(c.protocol.value), kind.L3V6?)) else None,
      if c.srcPort.Some? then Some(PortText(c.srcPort.value)) else None,
      if c.dstPort.Some? then Some(PortText(c.dstPort.value)) else None)
  }

  /** What keeps the names apart. */
  predicate Initials(n: FieldNames) {
    && n.priority != "" && n.action != "" && n.src != "" && n.dst != "" && n.protocol != ""
    && |n.srcPort| == |n.dstPort| == 11 && |n.srcRange| == |n.dstRange| == 17
    && n.priority[0] == n.action[0] == 'P' && n.priority != n.action
    && n.src[0] == 'S' && n.dst[0] == 'D' && n.protocol[0] == 'I'
    && n.srcPort[0] == n.srcRange[0] == n.dstPort[0] == n.dstRange[0] == 'L'
    && n.srcPort[3] == n.srcRange[3] == 'S' && n.dstPort[3] == n.dstRange[3] == 'D'
  }

  lemma NamesInitials(kind: Kind)
    ensures Initials(NamesFor(kind))
  {
    assert PRIORITY[1] == 'R' && ACTION[1] == 'A';
    assert SrcField(kind)[0] == 'S' && DstField(kind)[0] == 'D';
    assert |RangeField(SRC_PORT)| == 17 && RangeField(SRC_PORT)[0] == 'L' && RangeField(SRC_PORT)[3] == 'S';
    assert |RangeField(DST_PORT)| == 17 && RangeField(DST_PORT)[0] == 'L' && RangeField(DST_PORT)[3] == 'D';
  }

  lemma FieldOf(row: Row, name: string, v: Option<string>)
    requires Holds(row, name, v) && (v.Some? ==> Present(v.value) == v)
    ensures Field(row, name) == v
  {
  }

  predicate Holds(row: Row, name: string, v: Option<string>) {
    if v.Some? then name in row && row[name] == v.value else name !in row
  }

  function OnlyOne(p: Option<Port>): Option<string> {
    if p.Some? && p.value.One? then Some(PortText(p.value)) else None
  }

  function OnlyRange(p: Option<Port>): Option<string> {
    if p.Some? && p.value.Range? then Some(PortText(p.value)) else None
  }

  /** A name that stands in one part only is read from that part. */
  lemma {:induction false} ReadsPart(parts: seq<Row>, i: nat, name: string, v: Option<string>)
    requires i < |parts| && Holds(parts[i], name, v) && forall j :: 0 <= j < |parts| && j != i ==> name !in parts[j]
    ensures Holds(Merge(parts), name, v)
    decreases |parts|
  {
    var front := parts[..|parts| - 1];
    if i < |front| {
      ReadsPart(front, i, name, v);
    } else {
      NotRead(front, name);
    }
  }

  lemma {:induction false} NotRead(parts: seq<Row>, name: string)
    requires forall j :: 0 <= j < |parts| ==> name !in parts[j]
    ensures name !in Merge(parts)
    decreases |parts|
  {
    if parts != [] {
      NotRead(parts[..|parts| - 1], name);
    }
  }

  /** The row, name by name. */
  lemma FieldsRead(n: FieldNames, c: Compiled)
    requires Initials(n)
    ensures var row := Merge(Parts(n, c));
      Holds(row, n.action, Some(ActionText(c.action))) && Holds(row, n.src, c.src) && Holds(row, n.dst, c.dst)
      && Holds(row, n.protocol, ProtocolText(c.protocol))
  {
    hide Render, PortText, ActionText, Merge, ProtocolText;
    var parts := Parts(n, c);
    ReadsPart(parts, 0, n.action, Some(ActionText(c.action)));
    ReadsPart(parts, 1, n.src, c.src);
    ReadsPart(parts, 2, n.dst, c.dst);
    ReadsPart(parts, 3, n.protocol, ProtocolText(c.protocol));
  }

  lemma PortsRead(n: FieldNames, c: Compiled)
    requires Initials(n)
    ensures var row := Merge(Parts(n, c));
      Holds(row, n.srcPort, OnlyOne(c.srcPort)) && Holds(row, n.srcRange, OnlyRange(c.srcPort))
      && Holds(row, n.dstPort, OnlyOne(c.dstPort)) && Holds(row, n.dstRange, OnlyRange(c.dstPort))
  {
    hide Render, PortText, ActionText, Merge, ProtocolText;
    var parts := Parts(n, c);
    ReadsPart(parts, 4, n.srcPort, OnlyOne(c.srcPort));
    ReadsPart(parts, 4, n.srcRange, OnlyRange(c.srcPort));
    ReadsPart(parts, 5, n.dstPort, OnlyOne(c.dstPort));
    ReadsPart(parts, 5, n.dstRange, OnlyRange(c.dstPort));
  }

  lemma PriorityRead(n: FieldNames, c: Compiled)
    requires Initials(n)
    ensures Holds(Merge(Parts(n, c)), n.priority, Some(Render(c.priority)))
  {
    hide Render, PortText, ActionText, Merge, ProtocolText;
    ReadsPart(Parts(n, c), 0, n.priority, Some(Render(c.priority)));
  }

  lemma {:induction false} MergedFrom(parts: seq<Row>, f: string)
    requires f in Merge(parts)
    ensures exists j :: 0 <= j < |parts| && f in parts[j]
    decreases |parts|
  {
    var front := parts[..|parts| - 1];
    if f !in parts[|parts| - 1] {
      MergedFrom(front, f);
      var j :| 0 <= j < |front| && f in front[j];
      assert f in parts[j];
    }
  }

  /** One port or a range of them stands in its own field, the other field is not there. */
  ghost predicate PortSays(row: Row, single: string, range: string, v: Option<string>) {
    match v
    case None => single !in row && range !in row
    case Some(text) =>
      match ParsePort(text)
      case None => false
      case Some(One(n)) => SaysNumber(row, single, Some(n)) && range !in row
      case Some(Range(lo, hi)) => single !in row && Raw(row, range) == Some(Render(lo) + "-" + Render(hi))
  }

  /** The number a protocol stands for. */
  ghost predicate ProtocolSays(row: Row, kind: Kind, v: Option<string>) {
    match v
    case None => "IP_PROTOCOL" !in row
    case Some(p) =>
      SaysNumber(row, "IP_PROTOCOL",
                 if p == "tcp" then Some(6) else if p == "udp" then Some(17)
                 else if p == "icmp" then (if kind.L3V6? then Some(58) else Some(1)) else ParseUnsigned(p, 255))
  }

  /** What the row of a rule says, field by field; no other field is in it. */
  ghost predicate RuleSays(row: Row, kind: Kind, priority: nat, input: RuleInput) {
    var src := match kind case L3 => "SRC_IP" case L3V6 => "SRC_IPV6" case Mac => "SRC_MAC";
    var dst := match kind case L3 => "DST_IP" case L3V6 => "DST_IPV6" case Mac => "DST_MAC";
    && SaysNumber(row, "PRIORITY", Some(priority))
    && Raw(row, "PACKET_ACTION") == Some(if input.action == "drop" then "DROP" else "FORWARD")
    && Raw(row, src) == input.src && Raw(row, dst) == input.dst
    && ProtocolSays(row, kind, input.protocol)
    && PortSays(row, "L4_SRC_PORT", "L4_SRC_PORT_RANGE", input.srcPort)
    && PortSays(row, "L4_DST_PORT", "L4_DST_PORT_RANGE", input.dstPort)
    && forall f :: f in row ==>
         f in {"PRIORITY", "PACKET_ACTION", src, dst, "IP_PROTOCOL", "L4_SRC_PORT", "L4_SRC_PORT_RANGE", "L4_DST_PORT", "L4_DST_PORT_RANGE"}
  }

  lemma RangeNames()
    ensures RangeField(SRC_PORT) == "L4_SRC_PORT_RANGE" && RangeField(DST_PORT) == "L4_DST_PORT_RANGE"
  {
    assert "L4_SRC_PORT" + "_RANGE" == "L4_SRC_PORT_RANGE";
    assert "L4_DST_PORT" + "_RANGE" == "L4_DST_PORT_RANGE";
  }

  lemma PortHeld(row: Row, single: string, range: string, v: Option<string>)
    requires v.Some? ==> ParsePort(v.value).Some?
    requires Holds(row, single, OnlyOne(PortOf(v))) && Holds(row, range, OnlyRange(PortOf(v)))
    ensures PortSays(row, single, range, v)
  {
    hide ParsePort, Render, SaysNumber;
    if v.Some? && ParsePort(v.value).value.One? {
      RenderedSays(row, single, Some(ParsePort(v.value).value.p));
    }
    assert SaysNumber(row, single, None) <==> single !in row by { SaysNothing(row, single); }
  }

  lemma SaysNothing(row: Row, name: string)
    ensures SaysNumber(row, name, None) <==> name !in row
  {
  }

  lemma ProtocolHeld(row: Row, kind: Kind, v: Option<string>)
    requires v.Some? ==> ProtocolNumber(kind, v.value).Some?
    requires Holds(row, "IP_PROTOCOL", ProtocolText(NumberOf(kind, v)))
    ensures ProtocolSays(row, kind, v)
  {
    hide Render, SaysNumber, ParseUnsigned;
    if v.Some? {
      RenderedSays(row, "IP_PROTOCOL", ProtocolNumber(kind, v.value));
    }
  }

  lemma OnlyNamed(n: FieldNames, c: Compiled, f: string)
    requires f in Merge(Parts(n, c))
    ensures f in {n.priority, n.action, n.src, n.dst, n.protocol, n.srcPort, n.srcRange, n.dstPort, n.dstRange}
  {
    hide Render, PortText, ActionText, Merge, ProtocolText;
    MergedFrom(Parts(n, c), f);
    var j :| 0 <= j < |Parts(n, c)| && f in Parts(n, c)[j];
  }

  /** The compiled fields of an accepted rule say what was asked for. */
  lemma FieldsSay(ip: string -> Option<bool>, kind: Kind, priority: nat, input: RuleInput)
    requires Accepted(ip, kind, input)
    ensures RuleSays(Fields(kind, Meaning(kind, priority, input)), kind, priority, input)
  {
    var c, n := Meaning(kind, priority, input), NamesFor(kind);
    var row := Fields(kind, c);
    assert row == Merge(Parts(n, c));
    assert n.priority == "PRIORITY" && n.action == "PACKET_ACTION" && n.protocol == "IP_PROTOCOL";
    assert n.srcPort == "L4_SRC_PORT" && n.dstPort == "L4_DST_PORT";
    RangeNames();
    NamesInitials(kind);
    hide Fields, Merge, Parts, Render, PortText, ProtocolNumber, ParsePort, CheckAddress, RangeField, Initials, PortSays, ProtocolSays, SaysNumber;
    PriorityRead(n, c);
    FieldsRead(n, c);
    PortsRead(n, c);
    RenderedSays(row, "PRIORITY", Some(priority));
    PortHeld(row, "L4_SRC_PORT", "L4_SRC_PORT_RANGE", input.srcPort);
    PortHeld(row, "L4_DST_PORT", "L4_DST_PORT_RANGE", input.dstPort);
    ProtocolHeld(row, kind, input.protocol);
    forall f | f in row
      ensures f in {n.priority, n.action, n.src, n.dst, n.protocol, n.srcPort, n.srcRange, n.dstPort, n.dstRange} {
      OnlyNamed(n, c, f);
    }
  }

  lemma ActionReads(a: Action)
    ensures Present(ActionText(a)) == Some(ActionText(a))
    ensures ReadAction(Some(ActionText(a))) == if a.Drop? then "drop" else "forward"
  {
    hide Trim;
    assert IsWord("DROP") && IsWord("FORWARD");
    WordIsPresent("DROP");
    WordIsPresent("FORWARD");
    assert UpperAscii("DROP") == "DROP" && UpperAscii("FORWARD") == "FORWARD";
    assert "FORWARD"[0] == 'F' && "DROP"[0] == 'D' && "DENY"[0] == 'D';
  }

  lemma PortFieldReads(row: Row, base: string, p: Option<Port>)
    requires Holds(row, base, OnlyOne(p)) && Holds(row, RangeField(base), OnlyRange(p))
    ensures ReadPort(Field(row, RangeField(base)), Field(row, base)) == if p.Some? then Some(PortText(p.value)) else None
  {
    hide PortText, Present, DotsToDash, Field, Holds;
    if p.Some? {
      PortTextPlain(p.value);
    }
    FieldOf(row, base, OnlyOne(p));
    FieldOf(row, RangeField(base), OnlyRange(p));
  }

  /** Reading the compiled fields gives the normalised rule. */
  lemma DocOfFields(kind: Kind, c: Compiled)
    requires WordOrNone(c.src) && WordOrNone(c.dst)
    ensures Doc(kind, Fields(kind, c)) == Normal(kind, c)
  {
    assert ProtocolText(c.protocol) == if c.protocol.Some? then Some(Render(c.protocol.value)) else None;
    assert Fields(kind, c) == Merge(Parts(NamesFor(kind), c));
    hide Fields, Field, PortText, Present, ReadPort, ReadAction, ActionText, ProtocolName, Render, SrcField, DstField, RangeField, Holds,
         Initials, Parts, ProtocolText;
    var row := Fields(kind, c);
    NamesInitials(kind);
    FieldsRead(NamesFor(kind), c);
    PortsRead(NamesFor(kind), c);
    ActionReads(c.action);
    FieldOf(row, ACTION, Some(ActionText(c.action)));
    if c.src.Some? { WordIsPresent(c.src.value); }
    FieldOf(row, SrcField(kind), c.src);
    if c.dst.Some? { WordIsPresent(c.dst.value); }
    FieldOf(row, DstField(kind), c.dst);
    if c.protocol.Some? {
      RenderIsWord(c.protocol.value);
      WordIsPresent(Render(c.protocol.value));
    }
    FieldOf(row, PROTOCOL, ProtocolText(c.protocol));
    PortFieldReads(row, SRC_PORT, c.srcPort);
    PortFieldReads(row, DST_PORT, c.dstPort);
  }

  /** A document sent back as input. */
  function Again(d: RuleDoc): RuleInput {
    RuleInput(d.action, d.src, d.dst, d.protocol, d.srcPort, d.dstPort)
  }

  lemma {:induction false} AddressIsWord(ip: string -> Option<bool>, kind: Kind, v: string)
    requires ParsesWords(ip) && CheckAddress(ip, kind, v)
    ensures IsWord(v)
  {
    hide ParseUnsigned;
    if kind.Mac? {
      MacIsWord(v);
    } else if SplitOnce(v, '/').Some? {
      var (addr, len) := SplitOnce(v, '/').value;
      SplitOnceInverse(v, '/');
      NumberIsInk(len, if kind.L3? then 32 else 128);
      assert v == addr + ['/'] + len;
      assert IsWord(addr);
    }
  }

  lemma NumberIsInk(s: string, max: nat)
    requires ParseUnsigned(s, max).Some?
    ensures forall i :: 0 <= i < |s| ==> !IsSpace(s[i])
  {
    if s[0] == '+' {
      assert forall i :: 1 <= i < |s| ==> s[i] == s[1..][i - 1] && IsDigit(s[1..][i - 1]);
    }
  }

  lemma MacIsWord(v: string)
    requires var ps := Split(v, ':');
      |ps| == 6 && forall i :: 0 <= i < 6 ==> |ps[i]| == 2 && IsHexDigit(ps[i][0]) && IsHexDigit(ps[i][1])
    ensures IsWord(v)
  {
    var ps := Split(v, ':');
    forall i | 0 <= i < |ps| ensures IsWord(ps[i]) {
    }
    JoinIsInk(ps, ':');
    JoinOfSplit(v, ':');
  }

  lemma {:induction false} JoinIsInk(ps: seq<string>, sep: char)
    requires ps != [] && !IsSpace(sep) && forall i :: 0 <= i < |ps| ==> IsWord(ps[i])
    ensures IsWord(Join(ps, sep))
    decreases |ps|
  {
    if |ps| > 1 {
      JoinIsInk(ps[1..], sep);
    }
  }

  /** For every table type and accepted rule: reading what was compiled gives the
      normalised rule, the normalised rule is accepted again, and compiling it gives the
      same fields. */
  lemma CompileRoundTrip(ip: string -> Option<bool>, kind: Kind, priority: nat, input: RuleInput)
    requires ParsesWords(ip) && Accepted(ip, kind, input)
    ensures var c := Meaning(kind, priority, input); var doc := Doc(kind, Fields(kind, c));
      && doc == Normal(kind, c)
      && Accepted(ip, kind, Again(doc)) && Meaning(kind, priority, Again(doc)) == c
  {
    hide Doc, Fields, CheckAddress, ProtocolNumber, ProtocolName, ParsePort, PortText, Render;
    var c := Meaning(kind, priority, input);
    if input.src.Some? { AddressIsWord(ip, kind, input.src.value); }
    if input.dst.Some? { AddressIsWord(ip, kind, input.dst.value); }
    DocOfFields(kind, c);
    if input.protocol.Some? { ProtocolRoundTrip(kind, input.protocol.value); }
    if input.srcPort.Some? {
      ParsedFits(input.srcPort.value);
      PortReadBack(c.srcPort.value);
    }
    if input.dstPort.Some? {
      ParsedFits(input.dstPort.value);
      PortReadBack(c.dstPort.value);
    }
    assert ParseAction("drop") == Some(Drop) && ParseAction("forward") == Some(Forward) by {
      assert "drop"[0] == 'd' && "forward"[0] == 'f';
    }
  }
}
