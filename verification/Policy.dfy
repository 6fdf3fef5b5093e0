/** Routing policy (`src/sonic/policy.rs`): the running-config parser and the command
    printer, as functions of their inputs and as the loops of the source. */
module Policy {
  import opened Common
  import opened Text

  // ------------------------------------------------------------------ documents

  datatype PrefixRule = PrefixRule(seqNo: nat, action: string, prefix: string, ge: Option<nat>, le: Option<nat>)

  datatype PrefixList = PrefixList(name: string, family: string, rules: seq<PrefixRule>)

  datatype MatchClauses = MatchClauses(
    ipPrefixList: Option<string>, ipv6PrefixList: Option<string>, community: Option<string>,
    metric: Option<nat>, tag: Option<nat>)

  datatype SetClauses = SetClauses(
    localPreference: Option<nat>, metric: Option<nat>, community: Option<string>,
    asPathPrepend: Option<string>, ipNextHop: Option<string>, origin: Option<string>, tag: Option<nat>)

  datatype Entry = Entry(seqNo: nat, action: string, description: Option<string>, matches: MatchClauses, sets: SetClauses)

  datatype RouteMap = RouteMap(name: string, entries: seq<Entry>)

  datatype Running = Running(prefixLists: seq<PrefixList>, routeMaps: seq<RouteMap>, refs: seq<string>)

  const NO_MATCH := MatchClauses(None, None, None, None, None)
  const NO_SET := SetClauses(None, None, None, None, None, None, None)

  // -------------------------------------------------------------------- parsing

  /** First index of a token, or the length. */
  function Position(tokens: seq<string>, key: string): (i: nat)
    ensures i <= |tokens|
    ensures i < |tokens| ==> tokens[i] == key
    ensures forall j :: 0 <= j < i ==> tokens[j] != key
  {
    if tokens == [] || tokens[0] == key then 0 else 1 + Position(tokens[1..], key)
  }

  /** `parse_num_token`: the number after the first occurrence of the keyword. */
  function ParseNumToken(tokens: seq<string>, key: string): Option<nat> {
    var i := Position(tokens, key);
    if i + 1 < |tokens| then ParseUnsigned(tokens[i + 1], U64_MAX) else None
  }

  /** `map(|n| n as u32)` truncates. */
  function AsU32(n: Option<nat>): Option<nat> {
    match n
    case None => None
    case Some(v) => Some(v % 0x1_0000_0000)
  }

  predicate IsAction(action: string) {
    action == "permit" || action == "deny"
  }

  /** NAME seq N ACTION PREFIX … */
  function ParseRule(family: string, tokens: seq<string>): (r: Option<PrefixRule>)
    ensures r.Some? ==> |tokens| >= 5
  {
    if |tokens| < 5 || tokens[1] != "seq" then None
    else
      match ParseUnsigned(tokens[2], U32_MAX)
      case None => None
      case Some(n) =>
        if !IsAction(tokens[3]) then None
        else
          var prefix := if tokens[4] != "any" then tokens[4] else if family == "ipv4" then "0.0.0.0/0" else "::/0";
          Some(PrefixRule(n, tokens[3], prefix, AsU32(ParseNumToken(tokens, "ge")), AsU32(ParseNumToken(tokens, "le"))))
  }

  /** Append to the first list of that name and family, or start a new one. */
  function AddRule(lists: seq<PrefixList>, name: string, family: string, rule: PrefixRule): seq<PrefixList> {
    if lists == [] then [PrefixList(name, family, [rule])]
    else if lists[0].name == name && lists[0].family == family then
      [lists[0].(rules := lists[0].rules + [rule])] + lists[1..]
    else [lists[0]] + AddRule(lists[1..], name, family, rule)
  }

  /** `parse_prefix_line`. */
  function ParsePrefixLine(family: string, rest: string, lists: seq<PrefixList>): seq<PrefixList> {
    var tokens := Tokens(rest);
    match ParseRule(family, tokens)
    case None => lists
    case Some(rule) => AddRule(lists, tokens[0], family, rule)
  }

  function AddEntry(maps: seq<RouteMap>, name: string, e: Entry): seq<RouteMap> {
    if maps == [] then [RouteMap(name, [e])]
    else if maps[0].name == name then [maps[0].(entries := maps[0].entries + [e])] + maps[1..]
    else [maps[0]] + AddEntry(maps[1..], name, e)
  }

  function ParseMatch(t: seq<string>, m: MatchClauses): MatchClauses {
    if |t| == 5 && t[1] == "ip" && t[2] == "address" && t[3] == "prefix-list" then m.(ipPrefixList := Some(t[4]))
    else if |t| == 5 && t[1] == "ipv6" && t[2] == "address" && t[3] == "prefix-list" then m.(ipv6PrefixList := Some(t[4]))
    else if |t| >= 3 && t[1] == "community" then m.(community := Some(t[2]))
    else if |t| == 3 && t[1] == "metric" then m.(metric := ParseUnsigned(t[2], U64_MAX))
    else if |t| == 3 && t[1] == "tag" then m.(tag := ParseUnsigned(t[2], U64_MAX))
    else m
  }

  predicate IsOrigin(s: string) {
    s == "igp" || s == "egp" || s == "incomplete"
  }

  function ParseSet(t: seq<string>, s: SetClauses): SetClauses {
    if |t| == 3 && t[1] == "local-preference" then s.(localPreference := ParseUnsigned(t[2], U64_MAX))
    else if |t| == 3 && t[1] == "metric" then s.(metric := ParseUnsigned(t[2], U64_MAX))
    else if |t| >= 3 && t[1] == "community" then s.(community := Some(Unwords(t[2..])))
    else if |t| >= 4 && t[1] == "as-path" && t[2] == "prepend" then s.(asPathPrepend := Some(Unwords(t[3..])))
    else if |t| == 4 && t[1] == "ip" && t[2] == "next-hop" then s.(ipNextHop := Some(t[3]))
    else if |t| == 3 && t[1] == "origin" && IsOrigin(t[2]) then s.(origin := Some(t[2]))
    else if |t| == 3 && t[1] == "tag" then s.(tag := ParseUnsigned(t[2], U64_MAX))
    else s
  }

  /** `parse_entry_line`. */
  function ParseEntryLine(line: string, e: Entry): Entry {
    if "description " <= line then e.(description := Some(Trim(line[|"description "|..])))
    else
      var t := Tokens(line);
      if t != [] && t[0] == "match" then e.(matches := ParseMatch(t, e.matches))
      else if t != [] && t[0] == "set" then e.(sets := ParseSet(t, e.sets))
      else e
  }

  datatype ParseState = ParseState(out: Running, open: Option<(string, Entry)>)

  const START := ParseState(Running([], [], []), None)

  /** The `finish` closure: file the open entry under its route map. */
  function Finish(st: ParseState): ParseState {
    match st.open
    case None => st
    case Some((name, e)) => ParseState(st.out.(routeMaps := AddEntry(st.out.routeMaps, name, e)), None)
  }

  /** `route-map NAME ACTION SEQ` opens an entry, anything else on such a line nothing. */
  function OpenEntry(rest: string): Option<(string, Entry)> {
    var t := Tokens(rest);
    if |t| == 3 && IsAction(t[1]) then
      match ParseUnsigned(t[2], U32_MAX)
      case None => None
      case Some(n) => Some((t[0], Entry(n, t[1], None, NO_MATCH, NO_SET)))
    else None
  }

  /** The word after the first `route-map`. */
  function NamedIn(t: seq<string>): seq<string> {
    var i := Position(t, "route-map");
    if i + 1 < |t| then [t[i + 1]] else []
  }

  /** The name after a `route-map` token outside any block. */
  function Reference(line: string): seq<string> {
    NamedIn(Tokens(line))
  }

  /** The name referred to is the word after the first `route-map`. */
  lemma ReferenceExactly(line: string, name: string)
    ensures name in Reference(line) <==> IsNamed(Tokens(line), name)
  {
    FirstNamed(Tokens(line), name);
  }

  ghost predicate IsNamed(tokens: seq<string>, name: string) {
    exists i: nat :: NamedAt(tokens, i, name)
  }

  lemma FirstNamed(t: seq<string>, name: string)
    ensures name in NamedIn(t) <==> IsNamed(t, name)
  {
    var p := Position(t, "route-map");
    if name in NamedIn(t) {
      assert NamedAt(t, p, name);
    }
    forall i: nat | NamedAt(t, i, name) ensures p == i && name in NamedIn(t) {
    }
  }

  ghost predicate NamedAt(tokens: seq<string>, i: nat, name: string) {
    && i + 1 < |tokens| && tokens[i] == "route-map" && tokens[i + 1] == name
    && forall j :: 0 <= j < i ==> tokens[j] != "route-map"
  }

  const IP_PREFIX := "ip prefix-list "
  const IPV6_PREFIX := "ipv6 prefix-list "
  const MAP_PREFIX := "route-map "

  predicate ClosesBlock(line: string) {
    line == "exit" || line == "!" || line == "end"
  }

  /** One line of `parse_running_config`. */
  function ParseLine(st: ParseState, raw: string): ParseState {
    var line := Trim(raw);
    if IP_PREFIX <= line then
      var f := Finish(st);
      f.(out := f.out.(prefixLists := ParsePrefixLine("ipv4", line[|IP_PREFIX|..], f.out.prefixLists)))
    else if IPV6_PREFIX <= line then
      var f := Finish(st);
      f.(out := f.out.(prefixLists := ParsePrefixLine("ipv6", line[|IPV6_PREFIX|..], f.out.prefixLists)))
    else if MAP_PREFIX <= line then Finish(st).(open := OpenEntry(line[|MAP_PREFIX|..]))
    else if ClosesBlock(line) then Finish(st)
    else
      match st.open
      case Some((name, e)) => st.(open := Some((name, ParseEntryLine(line, e))))
      case None => st.(out := st.out.(refs := st.out.refs + Reference(line)))
  }

  function ParseLines(st: ParseState, lines: seq<string>): ParseState
    decreases |lines|
  {
    if lines == [] then st else ParseLines(ParseLine(st, lines[0]), lines[1..])
  }

  function ParsePolicy(text: string): Running {
    Finish(ParseLines(START, Lines(text))).out
  }

  /** `parse_running_config`: the loop over lines with its open entry. */
  method ParseRunningConfig(text: string) returns (out: Running)
    ensures out == ParsePolicy(text)
  {
    hide ParsePrefixLine, ParseEntryLine, OpenEntry, Reference, Lines, Trim, AddEntry;
    out := Running([], [], []);
    var open: Option<(string, Entry)> := None;
    var lines := Lines(text);
    var i := 0;
    while i < |lines|
      invariant 0 <= i <= |lines|
      invariant ParseLines(ParseState(out, open), lines[i..]) == ParseLines(START, lines)
    {
      var line := Trim(lines[i]);
      ghost var before := ParseState(out, open);
      if IP_PREFIX <= line || IPV6_PREFIX <= line || MAP_PREFIX <= line || ClosesBlock(line) {
        if open.Some? {
          out := out.(routeMaps := AddEntry(out.routeMaps, open.value.0, open.value.1));
          open := None;
        }
      }
      if IP_PREFIX <= line {
        out := out.(prefixLists := ParsePrefixLine("ipv4", line[|IP_PREFIX|..], out.prefixLists));
      } else if IPV6_PREFIX <= line {
        out := out.(prefixLists := ParsePrefixLine("ipv6", line[|IPV6_PREFIX|..], out.prefixLists));
      } else if MAP_PREFIX <= line {
        open := OpenEntry(line[|MAP_PREFIX|..]);
      } else if !ClosesBlock(line) {
        if open.Some? {
          open := Some((open.value.0, ParseEntryLine(line, open.value.1)));
        } else {
          out := out.(refs := out.refs + Reference(line));
        }
      }
      assert ParseState(out, open) == ParseLine(before, lines[i]);
      assert lines[i..][1..] == lines[i + 1..];
      i := i + 1;
    }
    if open.Some? {
      out := out.(routeMaps := AddEntry(out.routeMaps, open.value.0, open.value.1));
    }
  }

  // ------------------------------------------------------------------- printing

  function FamilyKeyword(family: string): string {
    if family == "ipv4" then "ip" else "ipv6"
  }

  function OptNum(word: string, n: Option<nat>): seq<string> {
    match n
    case None => []
    case Some(v) => [word, Render(v)]
  }

  /** The tokens after the name in a prefix-list command. */
  function RuleWords(r: PrefixRule): seq<string> {
    ["seq", Render(r.seqNo), r.action, r.prefix] + OptNum("ge", r.ge) + OptNum("le", r.le)
  }

  function PrefixLine(l: PrefixList, r: PrefixRule): string {
    Unwords([FamilyKeyword(l.family), "prefix-list", l.name] + RuleWords(r))
  }

  function PrefixListLines(l: PrefixList, rules: seq<PrefixRule>): seq<string> {
    if rules == [] then [] else [PrefixLine(l, rules[0])] + PrefixListLines(l, rules[1..])
  }

  /** The optional clauses of an entry, one command line each. */
  datatype Clause =
    | Description(text: string)
    | MatchIp(name: string)
    | MatchIpv6(name: string)
    | MatchCommunity(name: string)
    | MatchMetric(n: nat)
    | MatchTag(n: nat)
    | SetLocalPreference(n: nat)
    | SetMetric(n: nat)
    | SetCommunity(text: string)
    | SetAsPath(text: string)
    | SetNextHop(addr: string)
    | SetOrigin(origin: string)
    | SetTag(n: nat)

  function ClauseLine(c: Clause): string {
    match c
    case Description(d) => Unwords(["description"]) + " " + d
    case MatchIp(v) => Unwords(["match", "ip", "address", "prefix-list", v])
    case MatchIpv6(v) => Unwords(["match", "ipv6", "address", "prefix-list", v])
    case MatchCommunity(v) => Unwords(["match", "community", v])
    case MatchMetric(n) => Unwords(["match", "metric", Render(n)])
    case MatchTag(n) => Unwords(["match", "tag", Render(n)])
    case SetLocalPreference(n) => Unwords(["set", "local-preference", Render(n)])
    case SetMetric(n) => Unwords(["set", "metric", Render(n)])
    case SetCommunity(v) => Unwords(["set", "community"]) + " " + v
    case SetAsPath(v) => Unwords(["set", "as-path", "prepend"]) + " " + v
    case SetNextHop(v) => Unwords(["set", "ip", "next-hop", v])
    case SetOrigin(v) => Unwords(["set", "origin", v])
    case SetTag(n) => Unwords(["set", "tag", Render(n)])
  }

  function Opt<T>(o: Option<T>, f: T -> Clause): seq<Clause> {
    match o
    case None => []
    case Some(v) => [f(v)]
  }

  function MatchClausesOf(m: MatchClauses): seq<Clause> {
    Opt(m.ipPrefixList, v => MatchIp(v)) + Opt(m.ipv6PrefixList, v => MatchIpv6(v))
    + Opt(m.community, v => MatchCommunity(v)) + Opt(m.metric, v => MatchMetric(v)) + Opt(m.tag, v => MatchTag(v))
  }

  function SetClausesOf(s: SetClauses): seq<Clause> {
    Opt(s.localPreference, v => SetLocalPreference(v)) + Opt(s.metric, v => SetMetric(v))
    + Opt(s.community, v => SetCommunity(v)) + Opt(s.asPathPrepend, v => SetAsPath(v))
    + Opt(s.ipNextHop, v => SetNextHop(v)) + Opt(s.origin, v => SetOrigin(v)) + Opt(s.tag, v => SetTag(v))
  }

  function ClausesOf(e: Entry): seq<Clause> {
    Opt(e.description, v => Description(v)) + MatchClausesOf(e.matches) + SetClausesOf(e.sets)
  }

  function ClauseLines(cs: seq<Clause>): seq<string> {
    if cs == [] then [] else [ClauseLine(cs[0])] + ClauseLines(cs[1..])
  }

  function EntryHeader(name: string, e: Entry): string {
    Unwords(["route-map", name, e.action, Render(e.seqNo)])
  }

  function EntryText(name: string, e: Entry): seq<string> {
    [EntryHeader(name, e)] + ClauseLines(ClausesOf(e)) + ["exit"]
  }

  function MapText(name: string, entries: seq<Entry>): seq<string> {
    if entries == [] then [] else EntryText(name, entries[0]) + MapText(name, entries[1..])
  }

  function ListsText(lists: seq<PrefixList>): seq<string> {
    if lists == [] then [] else PrefixListLines(lists[0], lists[0].rules) + ListsText(lists[1..])
  }

  function MapsText(maps: seq<RouteMap>): seq<string> {
    if maps == [] then [] else MapText(maps[0].name, maps[0].entries) + MapsText(maps[1..])
  }
}
