/** Parsing what was printed gives the policy back: exactly for every validated input,
    up to the normalisation the parser performs, and unchanged if and only if the free
    text is trimmed and single-spaced and no list named `ge` or `le` uses that bound. */
module PolicyRoundTrip {
  import opened Common
  import opened Text
  import opened Policy

  // ------------------------------------------------------------------ validation

  predicate IsNameChar(c: char) {
    IsAlphanumeric(c) || c == '-' || c == '_' || c == '.'
  }

  /** `valid_name`. */
  predicate ValidName(s: string) {
    s != "" && |s| <= 63 && forall i :: 0 <= i < |s| ==> IsNameChar(s[i])
  }

  /** `check_text`: printable ASCII without quotes. */
  predicate ValidText(s: string, max: nat) {
    s != "" && |s| <= max && forall i :: 0 <= i < |s| ==> ' ' <= s[i] <= '~' && s[i] != '"'
  }

  predicate FitsU32(n: Option<nat>) {
    n.Some? ==> n.value <= U32_MAX
  }

  predicate FitsU64(n: Option<nat>) {
    n.Some? ==> n.value <= U64_MAX
  }

  /** What `check_prefix_rule` guarantees and more besides it accepts: a prefix is one
      word with a slash in it, numbers fit their type. */
  predicate ValidRule(r: PrefixRule) {
    && r.seqNo <= U32_MAX && IsAction(r.action)
    && IsWord(r.prefix) && !Lacks(r.prefix, '/')
    && FitsU32(r.ge) && FitsU32(r.le)
  }

  predicate ValidList(l: PrefixList) {
    && ValidName(l.name) && l.family in {"ipv4", "ipv6"} && l.rules != []
    && forall i :: 0 <= i < |l.rules| ==> ValidRule(l.rules[i])
  }

  predicate ValidOptName(o: Option<string>) {
    o.Some? ==> ValidName(o.value)
  }

  /** `check_entry`; a next hop is one word. */
  predicate ValidEntry(e: Entry) {
    && e.seqNo <= 65535 && IsAction(e.action)
    && (e.description.Some? ==> ValidText(e.description.value, 100))
    && ValidOptName(e.matches.ipPrefixList) && ValidOptName(e.matches.ipv6PrefixList) && ValidOptName(e.matches.community)
    && FitsU64(e.matches.metric) && FitsU64(e.matches.tag)
    && FitsU64(e.sets.localPreference) && FitsU64(e.sets.metric) && FitsU64(e.sets.tag)
    && (e.sets.community.Some? ==> ValidText(e.sets.community.value, 200))
    && (e.sets.asPathPrepend.Some? ==> ValidText(e.sets.asPathPrepend.value, 200))
    && (e.sets.ipNextHop.Some? ==> IsWord(e.sets.ipNextHop.value))
    && (e.sets.origin.Some? ==> IsOrigin(e.sets.origin.value))
  }

  predicate ValidMap(m: RouteMap) {
    ValidName(m.name) && m.entries != [] && forall i :: 0 <= i < |m.entries| ==> ValidEntry(m.entries[i])
  }

  ghost predicate DistinctLists(lists: seq<PrefixList>) {
    forall i, j :: 0 <= i < j < |lists| ==> lists[i].name != lists[j].name || lists[i].family != lists[j].family
  }

  ghost predicate DistinctMaps(maps: seq<RouteMap>) {
    forall i, j :: 0 <= i < j < |maps| ==> maps[i].name != maps[j].name
  }

  // -------------------------------------------------------------- normalisation

  function NormRule(name: string, r: PrefixRule): PrefixRule {
    r.(ge := if name == "ge" then None else r.ge, le := if name == "le" then None else r.le)
  }

  function NormRules(name: string, rules: seq<PrefixRule>): seq<PrefixRule> {
    if rules == [] then [] else [NormRule(name, rules[0])] + NormRules(name, rules[1..])
  }

  function NormList(l: PrefixList): PrefixList {
    l.(rules := NormRules(l.name, l.rules))
  }

  /** A description comes back trimmed, and not at all when it is only spaces. */
  function NormDescription(d: Option<string>): Option<string> {
    if d.Some? && Trim(d.value) != "" then Some(Trim(d.value)) else None
  }

  /** Community and AS-path text comes back single-spaced. */
  function NormWords(t: Option<string>): Option<string> {
    if t.Some? && Tokens(t.value) != [] then Some(Unwords(Tokens(t.value))) else None
  }

  function NormEntry(e: Entry): Entry {
    e.(description := NormDescription(e.description),
       sets := e.sets.(community := NormWords(e.sets.community), asPathPrepend := NormWords(e.sets.asPathPrepend)))
  }

  function NormEntries(es: seq<Entry>): seq<Entry> {
    if es == [] then [] else [NormEntry(es[0])] + NormEntries(es[1..])
  }

  function NormMap(m: RouteMap): RouteMap {
    m.(entries := NormEntries(m.entries))
  }

  // -------------------------------------------------------------- line by line

  lemma NameIsWord(s: string)
    requires ValidName(s)
    ensures IsWord(s) && OneLine(s)
  {
    forall i | 0 <= i < |s| ensures !IsSpace(s[i]) && s[i] != '\n' && s[i] != '\r' {
      assert IsNameChar(s[i]);
    }
  }

  lemma {:induction false} ParseLinesAppend(st: ParseState, a: seq<string>, b: seq<string>)
    ensures ParseLines(st, a + b) == ParseLines(ParseLines(st, a), b)
    decreases |a|
  {
    hide ParseLine;
    if a == [] {
      assert a + b == b;
    } else {
      ParseLinesAppend(ParseLine(st, a[0]), a[1..], b);
      assert (a + b)[1..] == a[1..] + b;
    }
  }

  lemma ParseLinesOne(st: ParseState, line: string)
    ensures ParseLines(st, [line]) == ParseLine(st, line)
  {
    hide ParseLine;
    assert [line][1..] == [];
  }

  /** A line that opens with one of these letters is neither a definition nor an end. */
  lemma ClauseLineIsInner(line: string)
    requires line != "" && line[0] in {'m', 's', 'd'}
    ensures !(IP_PREFIX <= line) && !(IPV6_PREFIX <= line) && !(MAP_PREFIX <= line) && !ClosesBlock(line)
  {
    assert IP_PREFIX[0] == 'i' && IPV6_PREFIX[0] == 'i' && MAP_PREFIX[0] == 'r';
    assert "exit"[0] == 'e' && "!"[0] == '!' && "end"[0] == 'e';
  }

  lemma FirstCharStays(line: string)
    requires line != "" && !IsSpace(line[0])
    ensures Trim(line) != "" && Trim(line)[0] == line[0]
  {
    TrimEndKeepsFirst(line);
  }

  predicate ValidClause(c: Clause) {
    match c
    case Description(d) => OneLine(d)
    case MatchIp(v) => IsWord(v)
    case MatchIpv6(v) => IsWord(v)
    case MatchCommunity(v) => IsWord(v)
    case MatchMetric(n) => n <= U64_MAX
    case MatchTag(n) => n <= U64_MAX
    case SetLocalPreference(n) => n <= U64_MAX
    case SetMetric(n) => n <= U64_MAX
    case SetCommunity(v) => OneLine(v)
    case SetAsPath(v) => OneLine(v)
    case SetNextHop(v) => IsWord(v)
    case SetOrigin(v) => IsOrigin(v)
    case SetTag(n) => n <= U64_MAX
  }

  /** What a clause means for the entry it is in. */
  function ApplyClause(e: Entry, c: Clause): Entry {
    match c
    case Description(d) => if Trim(d) == "" then e else e.(description := Some(Trim(d)))
    case MatchIp(v) => e.(matches := e.matches.(ipPrefixList := Some(v)))
    case MatchIpv6(v) => e.(matches := e.matches.(ipv6PrefixList := Some(v)))
    case MatchCommunity(v) => e.(matches := e.matches.(community := Some(v)))
    case MatchMetric(n) => e.(matches := e.matches.(metric := Some(n)))
    case MatchTag(n) => e.(matches := e.matches.(tag := Some(n)))
    case SetLocalPreference(n) => e.(sets := e.sets.(localPreference := Some(n)))
    case SetMetric(n) => e.(sets := e.sets.(metric := Some(n)))
    case SetCommunity(v) => if Tokens(v) == [] then e else e.(sets := e.sets.(community := Some(Unwords(Tokens(v)))))
    case SetAsPath(v) => if Tokens(v) == [] then e else e.(sets := e.sets.(asPathPrepend := Some(Unwords(Tokens(v)))))
    case SetNextHop(v) => e.(sets := e.sets.(ipNextHop := Some(v)))
    case SetOrigin(v) => e.(sets := e.sets.(origin := Some(v)))
    case SetTag(n) => e.(sets := e.sets.(tag := Some(n)))
  }

  /** A line inside an entry that is no definition and no end goes to the entry. */
  lemma InnerLine(st: ParseState, name: string, e: Entry, raw: string)
    requires st.open == Some((name, e))
    requires raw != "" && raw[0] in {'m', 's', 'd'}
    ensures Trim(raw) != "" && Trim(raw)[0] == raw[0]
    ensures ParseLine(st, raw) == st.(open := Some((name, ParseEntryLine(Trim(raw), e))))
  {
    hide ParseEntryLine, Trim, OpenEntry, ParsePrefixLine, Reference;
    FirstCharStays(raw);
    ClauseLineIsInner(Trim(raw));
  }

  /** Inside an entry, a match or set line acts through its tokens. */
  lemma TokenLine(st: ParseState, name: string, e: Entry, raw: string, t: seq<string>)
    requires st.open == Some((name, e))
    requires raw != "" && raw[0] in {'m', 's'} && Tokens(raw) == t && t != []
    ensures t[0] == "match" ==> ParseLine(st, raw) == st.(open := Some((name, e.(matches := ParseMatch(t, e.matches)))))
    ensures t[0] == "set" ==> ParseLine(st, raw) == st.(open := Some((name, e.(sets := ParseSet(t, e.sets)))))
  {
    hide ParseMatch, ParseSet, ParseLine, Tokens, Trim;
    InnerLine(st, name, e, raw);
    TokensTrim(raw);
    assert "description "[0] == 'd' && "match"[0] == 'm' && "set"[0] == 's';
  }

  lemma WordsLine(ws: seq<string>)
    requires ws != [] && AllWords(ws)
    ensures Unwords(ws) != "" && Unwords(ws)[0] == ws[0][0] && Tokens(Unwords(ws)) == ws
  {
    UnwordsTrimmed(ws);
    TokensOfUnwords(ws);
  }

  lemma TextLine(ws: seq<string>, tail: string)
    requires ws != [] && AllWords(ws)
    ensures var line := Unwords(ws) + " " + tail;
      line != "" && line[0] == ws[0][0] && Tokens(line) == ws + Tokens(tail)
  {
    UnwordsTrimmed(ws);
    TokensOfUnwordsThen(ws, tail);
  }

  lemma Keywords()
    ensures IsWord("match") && IsWord("set") && IsWord("ip") && IsWord("ipv6") && IsWord("address")
    ensures IsWord("prefix-list") && IsWord("community")
  {
    hide IsSpace;
    Keywords1();
    Keywords2();
  }

  lemma Keywords1()
    ensures IsWord("match") && IsWord("set") && IsWord("ip") && IsWord("ipv6") && IsWord("address")
  {
  }

  lemma Keywords2()
    ensures IsWord("prefix-list") && IsWord("community")
  {
  }

  lemma Keywords3()
    ensures IsWord("metric") && IsWord("tag") && IsWord("origin") && IsWord("as-path") && IsWord("next-hop")
  {
  }

  lemma Keywords4()
    ensures IsWord("local-preference") && IsWord("prepend")
  {
  }

  lemma OriginIsWord(o: string)
    requires IsOrigin(o)
    ensures IsWord(o)
  {
  }

  lemma MatchNameParses(st: ParseState, name: string, e: Entry, family: string, v: string)
    requires st.open == Some((name, e)) && IsWord(v) && family in {"ip", "ipv6"}
    ensures ParseLine(st, Unwords(["match", family, "address", "prefix-list", v]))
         == st.(open := Some((name, ApplyClause(e, if family == "ip" then MatchIp(v) else MatchIpv6(v)))))
  {
    hide ParseLine;
    Keywords();
    var ws := ["match", family, "address", "prefix-list", v];
    assert AllWords(ws);
    WordsLine(ws);
    TokenLine(st, name, e, Unwords(ws), ws);
  }

  lemma MatchCommunityParses(st: ParseState, name: string, e: Entry, v: string)
    requires st.open == Some((name, e)) && IsWord(v)
    ensures ParseLine(st, ClauseLine(MatchCommunity(v))) == st.(open := Some((name, ApplyClause(e, MatchCommunity(v)))))
  {
    hide ParseLine, IsWord;
    Keywords();
    var ws := ["match", "community", v];
    assert AllWords(ws);
    WordsLine(ws);
    TokenLine(st, name, e, Unwords(ws), ws);
  }

  lemma MatchNumberParses(st: ParseState, name: string, e: Entry, c: Clause)
    requires st.open == Some((name, e)) && ValidClause(c) && (c.MatchMetric? || c.MatchTag?)
    ensures ParseLine(st, ClauseLine(c)) == st.(open := Some((name, ApplyClause(e, c))))
  {
    hide ParseLine, Render, ParseUnsigned, IsWord;
    Keywords();
    Keywords3();
    var word := if c.MatchMetric? then "metric" else "tag";
    NumberLine(["match", word], c.n);
    assert ["match", word] + [Render(c.n)] == ["match", word, Render(c.n)];
    TokenLine(st, name, e, ClauseLine(c), ["match", word, Render(c.n)]);
  }

  /** A line ending in a number: it comes back as a token that parses to it. */
  lemma NumberLine(ws: seq<string>, n: nat)
    requires ws != [] && AllWords(ws) && n <= U64_MAX
    ensures var line := Unwords(ws + [Render(n)]);
      line != "" && line[0] == ws[0][0] && Tokens(line) == ws + [Render(n)]
    ensures ParseUnsigned(Render(n), U64_MAX) == Some(n)
  {
    RenderIsWord(n);
    WordsLine(ws + [Render(n)]);
    ParseOfRender(n, U64_MAX);
  }

  lemma SetNumberParses(st: ParseState, name: string, e: Entry, c: Clause)
    requires st.open == Some((name, e)) && ValidClause(c) && (c.SetLocalPreference? || c.SetMetric? || c.SetTag?)
    ensures ParseLine(st, ClauseLine(c)) == st.(open := Some((name, ApplyClause(e, c))))
  {
    hide ParseLine, Render, ParseUnsigned, IsWord;
    Keywords();
    Keywords3();
    Keywords4();
    var word := match c case SetLocalPreference(_) => "local-preference" case SetMetric(_) => "metric" case _ => "tag";
    NumberLine(["set", word], c.n);
    assert ["set", word] + [Render(c.n)] == ["set", word, Render(c.n)];
    TokenLine(st, name, e, ClauseLine(c), ["set", word, Render(c.n)]);
  }

  lemma SetNextHopParses(st: ParseState, name: string, e: Entry, v: string)
    requires st.open == Some((name, e)) && IsWord(v)
    ensures ParseLine(st, ClauseLine(SetNextHop(v))) == st.(open := Some((name, ApplyClause(e, SetNextHop(v)))))
  {
    hide ParseLine, IsWord;
    Keywords();
    Keywords3();
    var ws := ["set", "ip", "next-hop", v];
    assert AllWords(ws);
    WordsLine(ws);
    TokenLine(st, name, e, Unwords(ws), ws);
  }

  lemma SetOriginParses(st: ParseState, name: string, e: Entry, v: string)
    requires st.open == Some((name, e)) && IsOrigin(v)
    ensures ParseLine(st, ClauseLine(SetOrigin(v))) == st.(open := Some((name, ApplyClause(e, SetOrigin(v)))))
  {
    hide ParseLine, IsWord, IsOrigin;
    Keywords();
    Keywords3();
    OriginIsWord(v);
    var ws := ["set", "origin", v];
    assert AllWords(ws);
    WordsLine(ws);
    TokenLine(st, name, e, Unwords(ws), ws);
  }

  lemma SetCommunityParses(st: ParseState, name: string, e: Entry, v: string)
    requires st.open == Some((name, e))
    ensures ParseLine(st, ClauseLine(SetCommunity(v))) == st.(open := Some((name, ApplyClause(e, SetCommunity(v)))))
  {
    hide ParseLine, IsWord;
    Keywords();
    var ws := ["set", "community"];
    TextLine(ws, v);
    TokenLine(st, name, e, Unwords(ws) + " " + v, ws + Tokens(v));
    assert (ws + Tokens(v))[2..] == Tokens(v);
  }

  lemma SetAsPathParses(st: ParseState, name: string, e: Entry, v: string)
    requires st.open == Some((name, e))
    ensures ParseLine(st, ClauseLine(SetAsPath(v))) == st.(open := Some((name, ApplyClause(e, SetAsPath(v)))))
  {
    hide ParseLine, IsWord;
    Keywords();
    Keywords3();
    Keywords4();
    var ws := ["set", "as-path", "prepend"];
    TextLine(ws, v);
    TokenLine(st, name, e, Unwords(ws) + " " + v, ws + Tokens(v));
    assert (ws + Tokens(v))[3..] == Tokens(v);
  }

  lemma DescriptionWord()
    ensures Tokens("description") == ["description"]
  {
    assert IsWord("description");
    TokensOfUnwords(["description"]);
  }

  const DESCRIPTION := "description "

  lemma DescriptionEnd()
    ensures TrimEnd(DESCRIPTION) == "description" && !(DESCRIPTION <= "description")
  {
    assert DESCRIPTION[|DESCRIPTION| - 2] == 'n';
    assert DESCRIPTION[..|DESCRIPTION| - 1] == "description";
  }

  lemma DescriptionLine(d: string)
    ensures ClauseLine(Description(d)) == DESCRIPTION + d
    ensures TrimEnd(DESCRIPTION) == "description" && !(DESCRIPTION <= "description")
    ensures Tokens("description") == ["description"] && "description" != "match" && "description" != "set"
  {
    hide Tokens, TrimEnd;
    DescriptionWord();
    DescriptionEnd();
    assert "description" + " " == DESCRIPTION;
  }

  lemma DescriptionParses(st: ParseState, name: string, e: Entry, d: string)
    requires st.open == Some((name, e))
    ensures ParseLine(st, ClauseLine(Description(d))) == st.(open := Some((name, ApplyClause(e, Description(d)))))
  {
    hide ParseLine, ClauseLine, TrimEnd, TrimStart, Tokens, ParseMatch, ParseSet;
    var raw := DESCRIPTION + d;
    DescriptionLine(d);
    InnerLine(st, name, e, raw);
    assert TrimStart(raw) == raw;
    if TrimEnd(d) == "" {
      OnlySpaces(d);
      TrimEndAllSpace(DESCRIPTION, d);
    } else {
      TrimEndSuffix(DESCRIPTION, d);
      assert Trim(raw)[|DESCRIPTION|..] == TrimEnd(d);
      TrimEndTwice(d);
    }
  }

  lemma {:induction false} OnlySpaces(d: string)
    requires TrimEnd(d) == ""
    ensures Trim(d) == ""
    decreases |d|
  {
    TrimCommutes(d);
  }

  /** Trimming the right end first changes nothing. */
  lemma TrimEndTwice(d: string)
    ensures Trim(TrimEnd(d)) == Trim(d)
    ensures TrimEnd(d) != "" ==> Trim(d) != ""
  {
    TrimCommutes(d);
    TrimCommutes(TrimEnd(d));
    assert TrimEnd(TrimEnd(d)) == TrimEnd(d);
    if TrimEnd(d) != "" {
      LastStays(TrimEnd(d));
    }
  }

  lemma {:induction false} LastStays(s: string)
    requires s != "" && !IsSpace(s[|s| - 1])
    ensures TrimStart(s) != ""
  {
    if IsSpace(s[0]) {
      LastStays(s[1..]);
    }
  }

  /** Every clause line means its clause. */
  lemma ClauseParses(st: ParseState, name: string, e: Entry, c: Clause)
    requires st.open == Some((name, e)) && ValidClause(c)
    ensures ParseLine(st, ClauseLine(c)) == st.(open := Some((name, ApplyClause(e, c))))
  {
    hide ParseLine, ApplyClause, Tokens, Trim;
    match c
    case Description(d) => DescriptionParses(st, name, e, d);
    case MatchIp(v) => MatchNameParses(st, name, e, "ip", v);
    case MatchIpv6(v) => MatchNameParses(st, name, e, "ipv6", v);
    case MatchCommunity(v) => MatchCommunityParses(st, name, e, v);
    case MatchMetric(_) => MatchNumberParses(st, name, e, c);
    case MatchTag(_) => MatchNumberParses(st, name, e, c);
    case SetLocalPreference(_) => SetNumberParses(st, name, e, c);
    case SetMetric(_) => SetNumberParses(st, name, e, c);
    case SetCommunity(v) => SetCommunityParses(st, name, e, v);
    case SetAsPath(v) => SetAsPathParses(st, name, e, v);
    case SetNextHop(v) => SetNextHopParses(st, name, e, v);
    case SetOrigin(v) => SetOriginParses(st, name, e, v);
    case SetTag(_) => SetNumberParses(st, name, e, c);
  }
}
