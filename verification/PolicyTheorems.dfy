/** The round trip of whole policies: from lines to entries, lists, maps and text. */
module PolicyTheorems {
  import opened Common
  import opened Text
  import opened Policy
  import opened PolicyRoundTrip

  // ------------------------------------------------------------ entries: clauses

  function ApplyAll(e: Entry, cs: seq<Clause>): Entry
    decreases |cs|
  {
    if cs == [] then e else ApplyAll(ApplyClause(e, cs[0]), cs[1..])
  }

  lemma {:induction false} ApplyAllAppend(e: Entry, a: seq<Clause>, b: seq<Clause>)
    ensures ApplyAll(e, a + b) == ApplyAll(ApplyAll(e, a), b)
    decreases |a|
  {
    hide ApplyClause;
    if a == [] {
      assert a + b == b;
    } else {
      ApplyAllAppend(ApplyClause(e, a[0]), a[1..], b);
      assert (a + b)[1..] == a[1..] + b;
    }
  }

  predicate AllValid(cs: seq<Clause>) {
    forall c :: c in cs ==> ValidClause(c)
  }

  lemma {:induction false} ClausesParse(st: ParseState, name: string, e: Entry, cs: seq<Clause>)
    requires st.open == Some((name, e)) && AllValid(cs)
    ensures ParseLines(st, ClauseLines(cs)) == st.(open := Some((name, ApplyAll(e, cs))))
    decreases |cs|
  {
    hide ParseLine, ClauseLine, ApplyClause, ValidClause;
    if cs != [] {
      ClauseParses(st, name, e, cs[0]);
      var st' := ParseLine(st, ClauseLine(cs[0]));
      ClausesParse(st', name, ApplyClause(e, cs[0]), cs[1..]);
      assert ClauseLines(cs)[1..] == ClauseLines(cs[1..]);
    }
  }

  /** An optional clause applied, or nothing. */
  lemma ApplyOpt<T>(e: Entry, o: Option<T>, f: T -> Clause)
    ensures ApplyAll(e, Opt(o, f)) == if o.Some? then ApplyClause(e, f(o.value)) else e
  {
    hide ApplyClause;
    if o.Some? {
      assert [f(o.value)][1..] == [];
    }
  }

  lemma ApplyMatchClauses(e: Entry, m: MatchClauses)
    requires e.matches == NO_MATCH
    ensures ApplyAll(e, MatchClausesOf(m)) == e.(matches := m)
  {
    hide ApplyAll, Opt;
    var a, b, c, d, t := Opt(m.ipPrefixList, v => MatchIp(v)), Opt(m.ipv6PrefixList, v => MatchIpv6(v)),
      Opt(m.community, v => MatchCommunity(v)), Opt(m.metric, v => MatchMetric(v)), Opt(m.tag, v => MatchTag(v));
    ApplyAllAppend(e, a + b + c + d, t);
    ApplyAllAppend(e, a + b + c, d);
    ApplyAllAppend(e, a + b, c);
    ApplyAllAppend(e, a, b);
    var e1 := ApplyAll(e, a);
    ApplyOpt(e, m.ipPrefixList, v => MatchIp(v));
    assert e1 == e.(matches := NO_MATCH.(ipPrefixList := m.ipPrefixList));
    var e2 := ApplyAll(e1, b);
    ApplyOpt(e1, m.ipv6PrefixList, v => MatchIpv6(v));
    assert e2 == e.(matches := MatchClauses(m.ipPrefixList, m.ipv6PrefixList, None, None, None));
    var e3 := ApplyAll(e2, c);
    ApplyOpt(e2, m.community, v => MatchCommunity(v));
    assert e3 == e.(matches := MatchClauses(m.ipPrefixList, m.ipv6PrefixList, m.community, None, None));
    var e4 := ApplyAll(e3, d);
    ApplyOpt(e3, m.metric, v => MatchMetric(v));
    assert e4 == e.(matches := MatchClauses(m.ipPrefixList, m.ipv6PrefixList, m.community, m.metric, None));
    ApplyOpt(e4, m.tag, v => MatchTag(v));
  }

  lemma ApplyFirstClauses(e: Entry, s: SetClauses)
    requires e.sets == NO_SET
    ensures ApplyAll(e, Opt(s.localPreference, v => SetLocalPreference(v)) + Opt(s.metric, v => SetMetric(v))
                        + Opt(s.community, v => SetCommunity(v)) + Opt(s.asPathPrepend, v => SetAsPath(v)))
         == e.(sets := SetClauses(s.localPreference, s.metric, NormWords(s.community), NormWords(s.asPathPrepend), None, None, None))
  {
    hide ApplyAll, Opt, Tokens, Unwords;
    var a, b, c, d := Opt(s.localPreference, v => SetLocalPreference(v)), Opt(s.metric, v => SetMetric(v)),
      Opt(s.community, v => SetCommunity(v)), Opt(s.asPathPrepend, v => SetAsPath(v));
    ApplyAllAppend(e, a + b + c, d);
    ApplyAllAppend(e, a + b, c);
    ApplyAllAppend(e, a, b);
    var e1 := ApplyAll(e, a);
    ApplyOpt(e, s.localPreference, v => SetLocalPreference(v));
    assert e1 == e.(sets := SetClauses(s.localPreference, None, None, None, None, None, None));
    var e2 := ApplyAll(e1, b);
    ApplyOpt(e1, s.metric, v => SetMetric(v));
    assert e2 == e.(sets := SetClauses(s.localPreference, s.metric, None, None, None, None, None));
    var e3 := ApplyAll(e2, c);
    ApplyOpt(e2, s.community, v => SetCommunity(v));
    assert e3 == e.(sets := SetClauses(s.localPreference, s.metric, NormWords(s.community), None, None, None, None));
    ApplyOpt(e3, s.asPathPrepend, v => SetAsPath(v));
  }

  lemma ApplySetClauses(e: Entry, s: SetClauses)
    requires e.sets == NO_SET
    ensures ApplyAll(e, SetClausesOf(s)) == e.(sets := s.(community := NormWords(s.community), asPathPrepend := NormWords(s.asPathPrepend)))
  {
    hide ApplyAll, Opt, Tokens, Unwords, NormWords;
    var a, b, c, d := Opt(s.localPreference, v => SetLocalPreference(v)), Opt(s.metric, v => SetMetric(v)),
      Opt(s.community, v => SetCommunity(v)), Opt(s.asPathPrepend, v => SetAsPath(v));
    var f, g, h := Opt(s.ipNextHop, v => SetNextHop(v)), Opt(s.origin, v => SetOrigin(v)), Opt(s.tag, v => SetTag(v));
    var com, path := NormWords(s.community), NormWords(s.asPathPrepend);
    ApplyAllAppend(e, a + b + c + d + f + g, h);
    ApplyAllAppend(e, a + b + c + d + f, g);
    ApplyAllAppend(e, a + b + c + d, f);
    ApplyFirstClauses(e, s);
    var e4 := ApplyAll(e, a + b + c + d);
    assert e4 == e.(sets := SetClauses(s.localPreference, s.metric, com, path, None, None, None));
    var e5 := ApplyAll(e4, f);
    ApplyOpt(e4, s.ipNextHop, v => SetNextHop(v));
    assert e5 == e.(sets := SetClauses(s.localPreference, s.metric, com, path, s.ipNextHop, None, None));
    var e6 := ApplyAll(e5, g);
    ApplyOpt(e5, s.origin, v => SetOrigin(v));
    assert e6 == e.(sets := SetClauses(s.localPreference, s.metric, com, path, s.ipNextHop, s.origin, None));
    ApplyOpt(e6, s.tag, v => SetTag(v));
  }

  function Blank(e: Entry): Entry {
    Entry(e.seqNo, e.action, None, NO_MATCH, NO_SET)
  }

  /** Read back clause by clause, a blank entry becomes the normalised one. */
  lemma ApplyClausesOf(e: Entry)
    ensures ApplyAll(Blank(e), ClausesOf(e)) == NormEntry(e)
  {
    hide ApplyAll, Opt, MatchClausesOf, SetClausesOf, Trim, Tokens;
    var a := Opt(e.description, v => Description(v));
    ApplyAllAppend(Blank(e), a + MatchClausesOf(e.matches), SetClausesOf(e.sets));
    ApplyAllAppend(Blank(e), a, MatchClausesOf(e.matches));
    ApplyOpt(Blank(e), e.description, v => Description(v));
    var e1 := ApplyAll(Blank(e), a);
    ApplyMatchClauses(e1, e.matches);
    ApplySetClauses(ApplyAll(e1, MatchClausesOf(e.matches)), e.sets);
  }

  lemma ClausesValid(e: Entry)
    requires ValidEntry(e)
    ensures AllValid(ClausesOf(e))
  {
    hide ValidName, ValidText, IsWord, IsOrigin, OneLine, MatchClausesOf, SetClausesOf;
    if e.matches.ipPrefixList.Some? { NameIsWord(e.matches.ipPrefixList.value); }
    if e.matches.ipv6PrefixList.Some? { NameIsWord(e.matches.ipv6PrefixList.value); }
    if e.matches.community.Some? { NameIsWord(e.matches.community.value); }
    if e.description.Some? { TextIsOneLine(e.description.value, 100); }
    if e.sets.community.Some? { TextIsOneLine(e.sets.community.value, 200); }
    if e.sets.asPathPrepend.Some? { TextIsOneLine(e.sets.asPathPrepend.value, 200); }
    MatchClausesValid(e.matches);
    SetClausesValid(e.sets);
  }

  lemma TextIsOneLine(v: string, max: nat)
    requires ValidText(v, max)
    ensures OneLine(v)
  {
  }

  lemma OptValid<T>(o: Option<T>, f: T -> Clause)
    requires o.Some? ==> ValidClause(f(o.value))
    ensures AllValid(Opt(o, f))
  {
  }

  lemma AllValidAppend(a: seq<Clause>, b: seq<Clause>)
    requires AllValid(a) && AllValid(b)
    ensures AllValid(a + b)
  {
  }

  lemma MatchClausesValid(m: MatchClauses)
    requires m.ipPrefixList.Some? ==> IsWord(m.ipPrefixList.value)
    requires m.ipv6PrefixList.Some? ==> IsWord(m.ipv6PrefixList.value)
    requires m.community.Some? ==> IsWord(m.community.value)
    requires FitsU64(m.metric) && FitsU64(m.tag)
    ensures AllValid(MatchClausesOf(m))
  {
    hide IsWord, Opt, AllValid;
    var a, b, c, d, t := Opt(m.ipPrefixList, v => MatchIp(v)), Opt(m.ipv6PrefixList, v => MatchIpv6(v)),
      Opt(m.community, v => MatchCommunity(v)), Opt(m.metric, v => MatchMetric(v)), Opt(m.tag, v => MatchTag(v));
    OptValid(m.ipPrefixList, v => MatchIp(v));
    OptValid(m.ipv6PrefixList, v => MatchIpv6(v));
    OptValid(m.community, v => MatchCommunity(v));
    OptValid(m.metric, v => MatchMetric(v));
    OptValid(m.tag, v => MatchTag(v));
    AllValidAppend(a, b);
    AllValidAppend(a + b, c);
    AllValidAppend(a + b + c, d);
    AllValidAppend(a + b + c + d, t);
  }

  lemma SetClausesValid(s: SetClauses)
    requires FitsU64(s.localPreference) && FitsU64(s.metric) && FitsU64(s.tag)
    requires s.ipNextHop.Some? ==> IsWord(s.ipNextHop.value)
    requires s.origin.Some? ==> IsOrigin(s.origin.value)
    requires s.community.Some? ==> OneLine(s.community.value)
    requires s.asPathPrepend.Some? ==> OneLine(s.asPathPrepend.value)
    ensures AllValid(SetClausesOf(s))
  {
    hide IsWord, IsOrigin, Opt, AllValid, OneLine;
    var a, b, c, d := Opt(s.localPreference, v => SetLocalPreference(v)), Opt(s.metric, v => SetMetric(v)),
      Opt(s.community, v => SetCommunity(v)), Opt(s.asPathPrepend, v => SetAsPath(v));
    var f, g, h := Opt(s.ipNextHop, v => SetNextHop(v)), Opt(s.origin, v => SetOrigin(v)), Opt(s.tag, v => SetTag(v));
    OptValid(s.localPreference, v => SetLocalPreference(v));
    OptValid(s.metric, v => SetMetric(v));
    OptValid(s.community, v => SetCommunity(v));
    OptValid(s.asPathPrepend, v => SetAsPath(v));
    OptValid(s.ipNextHop, v => SetNextHop(v));
    OptValid(s.origin, v => SetOrigin(v));
    OptValid(s.tag, v => SetTag(v));
    AllValidAppend(a, b);
    AllValidAppend(a + b, c);
    AllValidAppend(a + b + c, d);
    AllValidAppend(a + b + c + d, f);
    AllValidAppend(a + b + c + d + f, g);
    AllValidAppend(a + b + c + d + f + g, h);
  }

  // -------------------------------------------------- entries: header and ending

  /** A line made of a fixed opening and words: it is trimmed, and the words come back
      from what follows the opening. */
  lemma PrefixedLine(head: string, words: seq<string>)
    requires head != "" && !IsSpace(head[0]) && words != [] && AllWords(words)
    ensures var line := head + Unwords(words);
      Trim(line) == line && head <= line && line[0] == head[0] && Tokens(line[|head|..]) == words
  {
    hide IsSpace, IsWord, Tokens, TrimEnd, TrimStart, Unwords;
    UnwordsTrimmed(words);
    TokensOfUnwords(words);
    var line := head + Unwords(words);
    assert line[|head|..] == Unwords(words);
    assert line[|line| - 1] == Unwords(words)[|Unwords(words)| - 1];
    TrimOfTrimmed(line);
  }

  lemma HeaderLine(name: string, rest: seq<string>)
    requires IsWord(name) && AllWords(rest) && rest != []
    ensures var line := Unwords(["route-map", name] + rest);
      && Trim(line) == line && MAP_PREFIX <= line && !(IP_PREFIX <= line) && !(IPV6_PREFIX <= line)
      && Tokens(line[|MAP_PREFIX|..]) == [name] + rest
  {
    hide IsWord, Tokens, Trim, Unwords;
    var tail := [name] + rest;
    assert AllWords(tail);
    UnwordsFirst("route-map", tail);
    assert ["route-map", name] + rest == ["route-map"] + tail;
    assert "route-map" + " " == MAP_PREFIX;
    PrefixedLine(MAP_PREFIX, tail);
    assert IP_PREFIX[0] == 'i' && IPV6_PREFIX[0] == 'i' && MAP_PREFIX[0] == 'r';
  }

  lemma HeaderParses(st: ParseState, name: string, e: Entry)
    requires ValidName(name) && e.seqNo <= 65535 && IsAction(e.action)
    ensures ParseLine(st, EntryHeader(name, e)) == Finish(st).(open := Some((name, Blank(e))))
  {
    hide Trim, Tokens, Unwords, IsWord, Finish, ValidName;
    NameIsWord(name);
    ActionIsWord(e.action);
    RenderIsWord(e.seqNo);
    ParseOfRender(e.seqNo, U32_MAX);
    var rest := [e.action, Render(e.seqNo)];
    assert ["route-map", name] + rest == ["route-map", name, e.action, Render(e.seqNo)];
    assert [name] + rest == [name, e.action, Render(e.seqNo)];
    HeaderLine(name, rest);
  }

  lemma ActionIsWord(action: string)
    requires IsAction(action)
    ensures IsWord(action) && action != "ge" && action != "le"
  {
  }

  lemma ExitParses(st: ParseState)
    ensures ParseLine(st, "exit") == Finish(st)
  {
    hide Trim, OpenEntry, ParsePrefixLine, Reference, ParseEntryLine, Finish;
    TrimOfTrimmed("exit");
    assert "exit"[0] == 'e' && IP_PREFIX[0] == 'i' && IPV6_PREFIX[0] == 'i' && MAP_PREFIX[0] == 'r';
  }

  /** One printed entry files exactly its normalised entry. */
  lemma EntryParses(st: ParseState, name: string, e: Entry)
    requires st.open == None && ValidName(name) && ValidEntry(e)
    ensures ParseLines(st, EntryText(name, e))
         == ParseState(st.out.(routeMaps := AddEntry(st.out.routeMaps, name, NormEntry(e))), None)
  {
    hide ParseLine, EntryHeader, ClausesOf, ValidName, NormEntry, ClauseLines, AllValid, AddEntry;
    var body := ClauseLines(ClausesOf(e));
    ParseLinesAppend(st, [EntryHeader(name, e)] + body, ["exit"]);
    ParseLinesAppend(st, [EntryHeader(name, e)], body);
    ParseLinesOne(st, EntryHeader(name, e));
    HeaderParses(st, name, e);
    var st1 := ParseLine(st, EntryHeader(name, e));
    ClausesValid(e);
    ClausesParse(st1, name, Blank(e), ClausesOf(e));
    ApplyClausesOf(e);
    var st2 := ParseLines(st1, body);
    ParseLinesOne(st2, "exit");
    ExitParses(st2);
  }

  // ----------------------------------------------------------------- route maps

  ghost predicate NoMapNamed(maps: seq<RouteMap>, name: string) {
    forall i :: 0 <= i < |maps| ==> maps[i].name != name
  }

  lemma {:induction false} AddEntryNew(maps: seq<RouteMap>, name: string, e: Entry)
    requires NoMapNamed(maps, name)
    ensures AddEntry(maps, name, e) == maps + [RouteMap(name, [e])]
  {
    if maps != [] {
      AddEntryNew(maps[1..], name, e);
      assert maps == [maps[0]] + maps[1..];
    }
  }

  lemma {:induction false} AddEntryLast(maps: seq<RouteMap>, name: string, es: seq<Entry>, e: Entry)
    requires NoMapNamed(maps, name)
    ensures AddEntry(maps + [RouteMap(name, es)], name, e) == maps + [RouteMap(name, es + [e])]
  {
    var all := maps + [RouteMap(name, es)];
    if maps != [] {
      AddEntryLast(maps[1..], name, es, e);
      assert all[1..] == maps[1..] + [RouteMap(name, es)];
      assert [maps[0]] + (maps[1..] + [RouteMap(name, es + [e])]) == maps + [RouteMap(name, es + [e])];
    } else {
      assert all[1..] == [];
    }
  }

  /** The remaining entries of a map whose first entries are already filed. */
  lemma {:induction false} MapRestParses(st: ParseState, before: seq<RouteMap>, name: string, done: seq<Entry>, es: seq<Entry>)
    requires st.open == None && ValidName(name) && NoMapNamed(before, name)
    requires forall i :: 0 <= i < |es| ==> ValidEntry(es[i])
    requires st.out.routeMaps == before + [RouteMap(name, done)]
    ensures ParseLines(st, MapText(name, es))
         == ParseState(st.out.(routeMaps := before + [RouteMap(name, done + NormEntries(es))]), None)
    decreases |es|
  {
    hide EntryText, ValidName, ValidEntry, NormEntry, AddEntry, ParseLine;
    if es == [] {
      assert done + NormEntries(es) == done;
    } else {
      EntryParses(st, name, es[0]);
      AddEntryLast(before, name, done, NormEntry(es[0]));
      ParseLinesAppend(st, EntryText(name, es[0]), MapText(name, es[1..]));
      var st' := ParseLines(st, EntryText(name, es[0]));
      MapRestParses(st', before, name, done + [NormEntry(es[0])], es[1..]);
      assert done + [NormEntry(es[0])] + NormEntries(es[1..]) == done + NormEntries(es);
    }
  }

  lemma MapParses(st: ParseState, m: RouteMap)
    requires st.open == None && ValidMap(m) && NoMapNamed(st.out.routeMaps, m.name)
    ensures ParseLines(st, MapText(m.name, m.entries))
         == ParseState(st.out.(routeMaps := st.out.routeMaps + [NormMap(m)]), None)
  {
    hide EntryText, ValidName, ValidEntry, NormEntry, AddEntry, ParseLine;
    var e, rest := m.entries[0], m.entries[1..];
    assert ValidEntry(e);
    EntryParses(st, m.name, e);
    AddEntryNew(st.out.routeMaps, m.name, NormEntry(e));
    ParseLinesAppend(st, EntryText(m.name, e), MapText(m.name, rest));
    MapRestParses(ParseLines(st, EntryText(m.name, e)), st.out.routeMaps, m.name, [NormEntry(e)], rest);
  }

  function NormMaps(maps: seq<RouteMap>): (r: seq<RouteMap>)
    ensures |r| == |maps|
  {
    seq(|maps|, i requires 0 <= i < |maps| => NormMap(maps[i]))
  }

  lemma {:induction false} MapsParse(st: ParseState, maps: seq<RouteMap>)
    requires st.open == None && DistinctMaps(maps)
    requires forall i :: 0 <= i < |maps| ==> ValidMap(maps[i]) && NoMapNamed(st.out.routeMaps, maps[i].name)
    ensures ParseLines(st, MapsText(maps)) == ParseState(st.out.(routeMaps := st.out.routeMaps + NormMaps(maps)), None)
    decreases |maps|
  {
    hide MapText, ValidMap, ParseLine;
    if maps == [] {
      assert st.out.routeMaps + NormMaps(maps) == st.out.routeMaps;
    } else {
      var m := maps[0];
      MapParses(st, m);
      ParseLinesAppend(st, MapText(m.name, m.entries), MapsText(maps[1..]));
      MapsParse(ParseLines(st, MapText(m.name, m.entries)), maps[1..]);
      assert st.out.routeMaps + [NormMap(m)] + NormMaps(maps[1..]) == st.out.routeMaps + NormMaps(maps);
    }
  }

  // --------------------------------------------------------------- prefix lists

  lemma {:induction false} PositionSkips(a: seq<string>, b: seq<string>, key: string)
    requires key !in a
    ensures Position(a + b, key) == |a| + Position(b, key)
  {
    if a == [] {
      assert a + b == b;
    } else {
      PositionSkips(a[1..], b, key);
      assert (a + b)[1..] == a[1..] + b;
    }
  }

  lemma RenderIsNoKeyword(n: nat)
    ensures Render(n) != "ge" && Render(n) != "le"
  {
    assert IsDigit(Render(n)[0]);
  }

  lemma NoNumber(s: string, max: nat)
    requires s != "" && s[0] != '+' && !IsDigit(s[0])
    ensures ParseUnsigned(s, max) == None
  {
  }

  /** The words before the bounds hold no keyword but possibly the list's name. */
  lemma HeadWords(name: string, r: PrefixRule)
    requires ValidRule(r)
    ensures var head := [name, "seq", Render(r.seqNo), r.action, r.prefix];
      && [name] + RuleWords(r) == head + OptNum("ge", r.ge) + OptNum("le", r.le)
      && [name] + RuleWords(r) == head + (OptNum("ge", r.ge) + OptNum("le", r.le))
      && (name != "ge" ==> "ge" !in head) && (name != "le" ==> "le" !in head)
  {
    hide Render, IsWord;
    RenderIsNoKeyword(r.seqNo);
    ActionIsWord(r.action);
    PrefixIsNoKeyword(r.prefix);
  }

  /** A named first word is where the search for the keyword stops. */
  lemma NameShadows(name: string, words: seq<string>)
    requires words != [] && words[0] == "seq"
    ensures ParseNumToken([name] + words, name) == None
  {
    hide ParseUnsigned;
    NoNumber("seq", U64_MAX);
  }

  lemma GeParses(name: string, r: PrefixRule)
    requires ValidRule(r)
    ensures AsU32(ParseNumToken([name] + RuleWords(r), "ge")) == NormRule(name, r).ge
  {
    hide ParseUnsigned, Render, IsWord;
    var head := [name, "seq", Render(r.seqNo), r.action, r.prefix];
    var ge, le := OptNum("ge", r.ge), OptNum("le", r.le);
    if name == "ge" {
      NameShadows(name, RuleWords(r));
    } else {
      HeadWords(name, r);
      PositionSkips(head, ge + le, "ge");
      if r.ge.Some? {
        ParseOfRender(r.ge.value, U64_MAX);
        assert (ge + le)[0] == "ge";
      } else {
        if r.le.Some? { RenderIsNoKeyword(r.le.value); }
        assert ge + le == le && le + [] == le && "ge" != "le";
        PositionSkips(le, [], "ge");
      }
    }
  }

  lemma LeParses(name: string, r: PrefixRule)
    requires ValidRule(r)
    ensures AsU32(ParseNumToken([name] + RuleWords(r), "le")) == NormRule(name, r).le
  {
    hide ParseUnsigned, Render, IsWord;
    var head := [name, "seq", Render(r.seqNo), r.action, r.prefix];
    var ge, le := OptNum("ge", r.ge), OptNum("le", r.le);
    if name == "le" {
      NameShadows(name, RuleWords(r));
    } else {
      HeadWords(name, r);
      if r.ge.Some? { RenderIsNoKeyword(r.ge.value); }
      assert "le" !in head + ge;
      PositionSkips(head + ge, le, "le");
      if r.le.Some? {
        ParseOfRender(r.le.value, U64_MAX);
      }
    }
  }

  /** The bounds come back, unless the list's own name is read as the keyword. */
  lemma BoundsParse(name: string, r: PrefixRule)
    requires ValidRule(r)
    ensures var t := [name] + RuleWords(r);
      && AsU32(ParseNumToken(t, "ge")) == NormRule(name, r).ge
      && AsU32(ParseNumToken(t, "le")) == NormRule(name, r).le
  {
    hide *;
    GeParses(name, r);
    LeParses(name, r);
  }

  lemma PrefixIsNoKeyword(p: string)
    requires !Lacks(p, '/')
    ensures p != "ge" && p != "le" && p != "any"
  {
    assert Lacks("ge", '/') && Lacks("le", '/') && Lacks("any", '/');
  }

  lemma RuleParses(family: string, name: string, r: PrefixRule)
    requires ValidRule(r)
    ensures ParseRule(family, [name] + RuleWords(r)) == Some(NormRule(name, r))
  {
    hide ParseUnsigned, Render, IsWord, ParseNumToken;
    BoundsParse(name, r);
    ParseOfRender(r.seqNo, U32_MAX);
    PrefixIsNoKeyword(r.prefix);
    var t := [name] + RuleWords(r);
    assert t[0] == name && t[1] == "seq" && t[2] == Render(r.seqNo) && t[3] == r.action && t[4] == r.prefix;
  }

  lemma RuleWordsAreWords(name: string, r: PrefixRule)
    requires ValidName(name) && ValidRule(r)
    ensures AllWords([name] + RuleWords(r))
  {
    hide IsWord, Render;
    NameIsWord(name);
    RenderIsWord(r.seqNo);
    ActionIsWord(r.action);
    BoundKeywords();
    if r.ge.Some? { RenderIsWord(r.ge.value); }
    if r.le.Some? { RenderIsWord(r.le.value); }
    assert AllWords(OptNum("ge", r.ge)) && AllWords(OptNum("le", r.le));
  }

  lemma BoundKeywords()
    ensures IsWord("seq") && IsWord("ge") && IsWord("le") && IsWord("ip") && IsWord("ipv6") && IsWord("prefix-list")
  {
  }

  /** A prefix-list command: its keyword, and its words after it. */
  lemma PrefixCommand(family: string, words: seq<string>)
    requires family in {"ipv4", "ipv6"} && words != [] && AllWords(words)
    ensures var line := Unwords([FamilyKeyword(family), "prefix-list"] + words);
      && Trim(line) == line
      && (family == "ipv4" ==> IP_PREFIX <= line && Tokens(line[|IP_PREFIX|..]) == words)
      && (family == "ipv6" ==> !(IP_PREFIX <= line) && IPV6_PREFIX <= line && Tokens(line[|IPV6_PREFIX|..]) == words)
  {
    hide IsWord, Tokens, Trim;
    var head := if family == "ipv4" then IP_PREFIX else IPV6_PREFIX;
    CommandHead(family, words);
    PrefixedLine(head, words);
    var line := head + Unwords(words);
    assert family == "ipv6" ==> line[2] == IPV6_PREFIX[2] == 'v' && IP_PREFIX[2] == ' ';
  }

  lemma CommandHead(family: string, words: seq<string>)
    requires family in {"ipv4", "ipv6"} && words != []
    ensures Unwords([FamilyKeyword(family), "prefix-list"] + words)
         == (if family == "ipv4" then IP_PREFIX else IPV6_PREFIX) + Unwords(words)
  {
    var kw := FamilyKeyword(family);
    UnwordsFirst("prefix-list", words);
    UnwordsFirst(kw, ["prefix-list"] + words);
    assert [kw, "prefix-list"] + words == [kw] + (["prefix-list"] + words);
    KeywordHeads();
    var tail := Unwords(words);
    assert kw + " " + ("prefix-list" + " " + tail) == kw + " " + "prefix-list" + " " + tail;
  }

  lemma KeywordHeads()
    ensures "ip" + " " + "prefix-list" + " " == IP_PREFIX
    ensures "ipv6" + " " + "prefix-list" + " " == IPV6_PREFIX
  {
  }

  lemma RuleLineParses(st: ParseState, l: PrefixList, r: PrefixRule)
    requires st.open == None && ValidName(l.name) && l.family in {"ipv4", "ipv6"} && ValidRule(r)
    ensures ParseLine(st, PrefixLine(l, r))
         == st.(out := st.out.(prefixLists := AddRule(st.out.prefixLists, l.name, l.family, NormRule(l.name, r))))
  {
    hide ValidName, ValidRule, RuleWords, ParseRule, AddRule, NormRule, Trim, Tokens, Unwords;
    var words := [l.name] + RuleWords(r);
    RuleWordsAreWords(l.name, r);
    PrefixCommand(l.family, words);
    RuleParses(l.family, l.name, r);
    assert [FamilyKeyword(l.family), "prefix-list", l.name] + RuleWords(r) == [FamilyKeyword(l.family), "prefix-list"] + words;
  }

  ghost predicate NoListNamed(lists: seq<PrefixList>, l: PrefixList) {
    forall i :: 0 <= i < |lists| ==> lists[i].name != l.name || lists[i].family != l.family
  }

  lemma {:induction false} AddRuleNew(lists: seq<PrefixList>, l: PrefixList, r: PrefixRule)
    requires NoListNamed(lists, l)
    ensures AddRule(lists, l.name, l.family, r) == lists + [l.(rules := [r])]
  {
    if lists != [] {
      AddRuleNew(lists[1..], l, r);
      assert lists == [lists[0]] + lists[1..];
    }
  }

  lemma {:induction false} AddRuleLast(lists: seq<PrefixList>, l: PrefixList, rs: seq<PrefixRule>, r: PrefixRule)
    requires NoListNamed(lists, l)
    ensures AddRule(lists + [l.(rules := rs)], l.name, l.family, r) == lists + [l.(rules := rs + [r])]
  {
    var all := lists + [l.(rules := rs)];
    if lists != [] {
      AddRuleLast(lists[1..], l, rs, r);
      assert all[1..] == lists[1..] + [l.(rules := rs)];
      assert [lists[0]] + (lists[1..] + [l.(rules := rs + [r])]) == lists + [l.(rules := rs + [r])];
    } else {
      assert all[1..] == [];
    }
  }

  lemma {:induction false} ListRestParses(st: ParseState, before: seq<PrefixList>, l: PrefixList, done: seq<PrefixRule>, rs: seq<PrefixRule>)
    requires st.open == None && ValidName(l.name) && l.family in {"ipv4", "ipv6"} && NoListNamed(before, l)
    requires forall i :: 0 <= i < |rs| ==> ValidRule(rs[i])
    requires st.out.prefixLists == before + [l.(rules := done)]
    ensures ParseLines(st, PrefixListLines(l, rs))
         == st.(out := st.out.(prefixLists := before + [l.(rules := done + NormRules(l.name, rs))]))
    decreases |rs|
  {
    hide PrefixLine, ValidName, ValidRule, NormRule, AddRule, ParseLine;
    if rs == [] {
      assert done + NormRules(l.name, rs) == done;
    } else {
      var r := NormRule(l.name, rs[0]);
      RuleLineParses(st, l, rs[0]);
      AddRuleLast(before, l, done, r);
      var st' := ParseLine(st, PrefixLine(l, rs[0]));
      ListRestParses(st', before, l, done + [r], rs[1..]);
      assert done + [r] + NormRules(l.name, rs[1..]) == done + NormRules(l.name, rs);
      assert PrefixListLines(l, rs)[1..] == PrefixListLines(l, rs[1..]);
    }
  }

  lemma ListParses(st: ParseState, l: PrefixList)
    requires st.open == None && ValidList(l) && NoListNamed(st.out.prefixLists, l)
    ensures ParseLines(st, PrefixListLines(l, l.rules))
         == st.(out := st.out.(prefixLists := st.out.prefixLists + [NormList(l)]))
  {
    hide PrefixLine, ValidName, ValidRule, NormRule, AddRule, ParseLine;
    var r, rest := l.rules[0], l.rules[1..];
    assert ValidRule(r);
    RuleLineParses(st, l, r);
    AddRuleNew(st.out.prefixLists, l, NormRule(l.name, r));
    assert PrefixListLines(l, l.rules)[1..] == PrefixListLines(l, rest);
    ListRestParses(ParseLine(st, PrefixLine(l, r)), st.out.prefixLists, l, [NormRule(l.name, r)], rest);
  }

  function NormLists(lists: seq<PrefixList>): (r: seq<PrefixList>)
    ensures |r| == |lists|
  {
    seq(|lists|, i requires 0 <= i < |lists| => NormList(lists[i]))
  }

  lemma {:induction false} ListsParse(st: ParseState, lists: seq<PrefixList>)
    requires st.open == None && DistinctLists(lists)
    requires forall i :: 0 <= i < |lists| ==> ValidList(lists[i]) && NoListNamed(st.out.prefixLists, lists[i])
    ensures ParseLines(st, ListsText(lists)) == st.(out := st.out.(prefixLists := st.out.prefixLists + NormLists(lists)))
    decreases |lists|
  {
    hide PrefixListLines, ValidList, ParseLine;
    if lists == [] {
      assert st.out.prefixLists + NormLists(lists) == st.out.prefixLists;
    } else {
      var l := lists[0];
      ListParses(st, l);
      ParseLinesAppend(st, PrefixListLines(l, l.rules), ListsText(lists[1..]));
      ListsParse(ParseLines(st, PrefixListLines(l, l.rules)), lists[1..]);
      assert st.out.prefixLists + [NormList(l)] + NormLists(lists[1..]) == st.out.prefixLists + NormLists(lists);
    }
  }

  // ------------------------------------------------------------------ whole texts

  ghost predicate ValidPolicy(lists: seq<PrefixList>, maps: seq<RouteMap>) {
    && DistinctLists(lists) && DistinctMaps(maps)
    && (forall i :: 0 <= i < |lists| ==> ValidList(lists[i]))
    && (forall i :: 0 <= i < |maps| ==> ValidMap(maps[i]))
  }

  function Printed(lists: seq<PrefixList>, maps: seq<RouteMap>): seq<string> {
    ListsText(lists) + MapsText(maps)
  }

  /** Indentation does not matter: a line acts through its trimmed form. */
  lemma {:induction false} IndentationIgnored(st: ParseState, a: seq<string>, b: seq<string>)
    requires |a| == |b| && forall i :: 0 <= i < |a| ==> Trim(a[i]) == Trim(b[i])
    ensures ParseLines(st, a) == ParseLines(st, b)
    decreases |a|
  {
    hide Trim, ParsePrefixLine, ParseEntryLine, OpenEntry, Reference, Finish;
    if a != [] {
      assert ParseLine(st, a[0]) == ParseLine(st, b[0]);
      IndentationIgnored(ParseLine(st, a[0]), a[1..], b[1..]);
    }
  }

  /** For every validated policy, and any text that prints it with any indentation, the
      parser gives back the lists and maps, normalised, and no reference at all: a
      definition is never taken for one. */
  lemma ParseOfPrinted(lists: seq<PrefixList>, maps: seq<RouteMap>, text: string)
    requires ValidPolicy(lists, maps)
    requires |Lines(text)| == |Printed(lists, maps)|
    requires forall i :: 0 <= i < |Lines(text)| ==> Trim(Lines(text)[i]) == Trim(Printed(lists, maps)[i])
    ensures ParsePolicy(text) == Running(NormLists(lists), NormMaps(maps), [])
  {
    hide ParseLine, ValidList, ValidMap, ListsText, MapsText, Lines, Trim;
    IndentationIgnored(START, Lines(text), Printed(lists, maps));
    ParseLinesAppend(START, ListsText(lists), MapsText(maps));
    ListsParse(START, lists);
    MapsParse(ParseLines(START, ListsText(lists)), maps);
    assert [] + NormLists(lists) == NormLists(lists) && [] + NormMaps(maps) == NormMaps(maps);
  }

  /** A line of the rest of the configuration: no definition of this module. */
  predicate Elsewhere(raw: string) {
    var line := Trim(raw);
    !(IP_PREFIX <= line) && !(IPV6_PREFIX <= line) && !(MAP_PREFIX <= line)
  }

  /** The route maps that such lines refer to, in order. */
  function References(lines: seq<string>): seq<string>
    decreases |lines|
  {
    if lines == [] then []
    else (if ClosesBlock(Trim(lines[0])) then [] else Reference(Trim(lines[0]))) + References(lines[1..])
  }

  lemma {:induction false} RestParses(st: ParseState, lines: seq<string>)
    requires st.open == None && forall i :: 0 <= i < |lines| ==> Elsewhere(lines[i])
    ensures ParseLines(st, lines) == st.(out := st.out.(refs := st.out.refs + References(lines)))
    decreases |lines|
  {
    hide Reference, Trim;
    if lines == [] {
      assert st.out.refs + [] == st.out.refs;
    } else {
      var one := if ClosesBlock(Trim(lines[0])) then [] else Reference(Trim(lines[0]));
      assert Elsewhere(lines[0]);
      assert st.out.refs + [] == st.out.refs;
      var next := st.(out := st.out.(refs := st.out.refs + one));
      assert ParseLine(st, lines[0]) == next;
      RestParses(next, lines[1..]);
      assert (st.out.refs + one) + References(lines[1..]) == st.out.refs + References(lines);
    }
  }

  /** Amid the rest of a running configuration the policy comes back too, and exactly the
      route maps that the rest refers to are the references. */
  lemma ParseOfRunning(before: seq<string>, lists: seq<PrefixList>, maps: seq<RouteMap>, after: seq<string>, text: string)
    requires ValidPolicy(lists, maps)
    requires forall i :: 0 <= i < |before| ==> Elsewhere(before[i])
    requires forall i :: 0 <= i < |after| ==> Elsewhere(after[i])
    requires var lines := before + Printed(lists, maps) + after;
      |Lines(text)| == |lines| && forall i :: 0 <= i < |lines| ==> Trim(Lines(text)[i]) == Trim(lines[i])
    ensures ParsePolicy(text) == Running(NormLists(lists), NormMaps(maps), References(before) + References(after))
  {
    hide ParseLine, ValidList, ValidMap, ListsText, MapsText, Lines, Trim, Elsewhere, References;
    var printed := Printed(lists, maps);
    IndentationIgnored(START, Lines(text), before + printed + after);
    ParseLinesAppend(START, before + printed, after);
    ParseLinesAppend(START, before, printed);
    RestParses(START, before);
    var st := ParseLines(START, before);
    assert st.out.refs == References(before) by { assert [] + References(before) == References(before); }
    ParseLinesAppend(st, ListsText(lists), MapsText(maps));
    ListsParse(st, lists);
    MapsParse(ParseLines(st, ListsText(lists)), maps);
    assert [] + NormLists(lists) == NormLists(lists) && [] + NormMaps(maps) == NormMaps(maps);
    RestParses(ParseLines(st, printed), after);
  }

  lemma WordsOneLine(ws: seq<string>)
    requires ws != [] && AllWords(ws)
    ensures OneLine(Unwords(ws))
  {
    UnwordsTrimmed(ws);
    assert forall i :: 0 <= i < |Unwords(ws)| ==> Unwords(ws)[i] in Unwords(ws);
    assert IsSpace('\n') && IsSpace('\r');
  }

  lemma TextOneLine(ws: seq<string>, v: string)
    requires ws != [] && AllWords(ws) && OneLine(v)
    ensures OneLine(Unwords(ws) + " " + v)
  {
    WordsOneLine(ws);
  }

  lemma ClauseOneLine(c: Clause)
    requires ValidClause(c)
    ensures OneLine(ClauseLine(c))
  {
    hide OneLine, Unwords, IsWord, Render, IsOrigin;
    Keywords();
    Keywords3();
    Keywords4();
    match c
    case Description(v) => assert IsWord("description") by { DescriptionKeyword(); } TextOneLine(["description"], v);
    case MatchIp(v) => WordsOneLine(["match", "ip", "address", "prefix-list", v]);
    case MatchIpv6(v) => WordsOneLine(["match", "ipv6", "address", "prefix-list", v]);
    case MatchCommunity(v) => WordsOneLine(["match", "community", v]);
    case MatchMetric(n) => RenderIsWord(n); WordsOneLine(["match", "metric", Render(n)]);
    case MatchTag(n) => RenderIsWord(n); WordsOneLine(["match", "tag", Render(n)]);
    case SetLocalPreference(n) => RenderIsWord(n); WordsOneLine(["set", "local-preference", Render(n)]);
    case SetMetric(n) => RenderIsWord(n); WordsOneLine(["set", "metric", Render(n)]);
    case SetCommunity(v) => TextOneLine(["set", "community"], v);
    case SetAsPath(v) => TextOneLine(["set", "as-path", "prepend"], v);
    case SetNextHop(v) => WordsOneLine(["set", "ip", "next-hop", v]);
    case SetOrigin(v) => OriginIsWord(v); WordsOneLine(["set", "origin", v]);
    case SetTag(n) => RenderIsWord(n); WordsOneLine(["set", "tag", Render(n)]);
  }

  lemma DescriptionKeyword()
    ensures IsWord("description")
  {
  }

  predicate AllOneLine(ls: seq<string>) {
    forall i :: 0 <= i < |ls| ==> OneLine(ls[i])
  }

  lemma {:induction false} ClausesOneLine(cs: seq<Clause>)
    requires AllValid(cs)
    ensures AllOneLine(ClauseLines(cs))
  {
    hide ValidClause, ClauseLine, OneLine;
    if cs != [] {
      ClauseOneLine(cs[0]);
      ClausesOneLine(cs[1..]);
    }
  }

  lemma EntryOneLine(name: string, e: Entry)
    requires ValidName(name) && ValidEntry(e)
    ensures AllOneLine(EntryText(name, e))
  {
    hide ValidName, ClausesOf, Render, IsWord, AllValid, OneLine, ClauseLines;
    NameIsWord(name);
    ActionIsWord(e.action);
    RenderIsWord(e.seqNo);
    assert IsWord("route-map") by { MapKeyword(); }
    WordsOneLine(["route-map", name, e.action, Render(e.seqNo)]);
    ClausesValid(e);
    ClausesOneLine(ClausesOf(e));
    ExitOneLine();
  }

  lemma MapKeyword()
    ensures IsWord("route-map")
  {
  }

  lemma ExitOneLine()
    ensures OneLine("exit")
  {
  }

  lemma {:induction false} MapTextOneLine(name: string, es: seq<Entry>)
    requires ValidName(name) && forall i :: 0 <= i < |es| ==> ValidEntry(es[i])
    ensures AllOneLine(MapText(name, es))
  {
    hide ValidName, ValidEntry, EntryText, OneLine;
    if es != [] {
      EntryOneLine(name, es[0]);
      MapTextOneLine(name, es[1..]);
    }
  }

  lemma {:induction false} MapsTextOneLine(maps: seq<RouteMap>)
    requires forall i :: 0 <= i < |maps| ==> ValidMap(maps[i])
    ensures AllOneLine(MapsText(maps))
  {
    hide ValidName, ValidEntry, MapText, OneLine;
    if maps != [] {
      assert ValidMap(maps[0]);
      MapTextOneLine(maps[0].name, maps[0].entries);
      MapsTextOneLine(maps[1..]);
    }
  }

  lemma {:induction false} ListTextOneLine(l: PrefixList, rs: seq<PrefixRule>)
    requires ValidName(l.name) && forall i :: 0 <= i < |rs| ==> ValidRule(rs[i])
    ensures AllOneLine(PrefixListLines(l, rs))
  {
    hide ValidName, ValidRule, IsWord, RuleWords, OneLine, Unwords;
    if rs != [] {
      var words := [l.name] + RuleWords(rs[0]);
      RuleWordsAreWords(l.name, rs[0]);
      BoundKeywords();
      assert [FamilyKeyword(l.family), "prefix-list", l.name] + RuleWords(rs[0]) == [FamilyKeyword(l.family), "prefix-list"] + words;
      WordsOneLine([FamilyKeyword(l.family), "prefix-list"] + words);
      ListTextOneLine(l, rs[1..]);
    }
  }

  lemma {:induction false} ListsTextOneLine(lists: seq<PrefixList>)
    requires forall i :: 0 <= i < |lists| ==> ValidList(lists[i])
    ensures AllOneLine(ListsText(lists))
  {
    hide ValidName, ValidRule, PrefixListLines, OneLine;
    if lists != [] {
      assert ValidList(lists[0]);
      ListTextOneLine(lists[0], lists[0].rules);
      ListsTextOneLine(lists[1..]);
    }
  }

  /** Printed as text, one command a line. */
  lemma ParseOfPrintedText(lists: seq<PrefixList>, maps: seq<RouteMap>)
    requires ValidPolicy(lists, maps)
    ensures ParsePolicy(Unlines(Printed(lists, maps))) == Running(NormLists(lists), NormMaps(maps), [])
  {
    hide ValidList, ValidMap, ListsText, MapsText, Lines, Trim, OneLine, Unlines;
    ListsTextOneLine(lists);
    MapsTextOneLine(maps);
    var lines := Printed(lists, maps);
    LinesOfUnlines(lines, "");
    assert Unlines(lines) + "" == Unlines(lines);
    assert lines + Lines("") == lines by { NoLines(); }
    ParseOfPrinted(lists, maps, Unlines(lines));
  }

  lemma NoLines()
    ensures Lines("") == []
  {
  }

  // --------------------------------------------------- when nothing is normalised

  /** No outer spaces and no two spaces in a row. */
  predicate SingleSpaced(v: string) {
    Trimmed(v) && forall i :: 0 <= i < |v| - 1 ==> v[i] != ' ' || v[i + 1] != ' '
  }

  /** The only white space is the space character. */
  predicate PlainSpaces(v: string) {
    forall i :: 0 <= i < |v| && IsSpace(v[i]) ==> v[i] == ' '
  }

  lemma {:induction false} UnwordsSingleSpaced(ws: seq<string>)
    requires ws != [] && AllWords(ws)
    ensures SingleSpaced(Unwords(ws))
  {
    UnwordsTrimmed(ws);
    if |ws| > 1 {
      var rest := Unwords(ws[1..]);
      assert AllWords(ws[1..]);
      UnwordsSingleSpaced(ws[1..]);
      UnwordsTrimmed(ws[1..]);
      var u := Unwords(ws);
      assert u == ws[0] + " " + rest;
      forall i | 0 <= i < |u| - 1 ensures u[i] != ' ' || u[i + 1] != ' ' {
        if i < |ws[0]| {
          assert u[i] == ws[0][i];
        } else if i == |ws[0]| {
          assert u[i + 1] == rest[0];
        } else {
          assert u[i] == rest[i - |ws[0]| - 1] && u[i + 1] == rest[i - |ws[0]|];
        }
      }
    }
  }

  lemma {:induction false} SingleSpacedRejoins(v: string)
    requires v != "" && PlainSpaces(v) && SingleSpaced(v)
    ensures Tokens(v) != [] && Unwords(Tokens(v)) == v
    decreases |v|
  {
    var n := WordLen(v);
    FirstToken(v);
    if n < |v| {
      TailIsSingleSpaced(v);
      hide SingleSpaced, PlainSpaces, Trimmed, Tokens, WordLen, Unwords;
      var w, tail := v[..n], v[n..][1..];
      SingleSpacedRejoins(tail);
      UnwordsFirst(w, Tokens(tail));
      assert v == w + " " + tail;
    } else {
      assert v[..n] == v;
      UnwordsOne(v);
    }
  }

  lemma FirstToken(v: string)
    requires v != "" && !IsSpace(v[0])
    ensures var n := WordLen(v);
      Tokens(v) == [v[..n]] + if n < |v| then Tokens(v[n..][1..]) else []
  {
    var n := WordLen(v);
    if n < |v| {
      assert v[n..][0] == v[n];
    } else {
      assert v[n..] == "";
    }
  }

  lemma UnwordsOne(w: string)
    ensures Unwords([w]) == w
  {
  }

  /** What follows the first word and its one space. */
  lemma TailIsSingleSpaced(v: string)
    requires v != "" && PlainSpaces(v) && SingleSpaced(v) && WordLen(v) < |v|
    ensures v[WordLen(v)] == ' ' && WordLen(v) + 1 < |v|
    ensures var tail := v[WordLen(v)..][1..];
      tail != "" && PlainSpaces(tail) && SingleSpaced(tail) && !IsSpace(tail[0])
  {
    var n := WordLen(v);
    assert v[n] == ' ';
    hide WordLen, Tokens, Unwords;
    assert !IsSpace(v[|v| - 1]) && IsSpace(v[n]);
    var tail := v[n..][1..];
    assert |tail| == |v| - n - 1 > 0;
    hide IsSpace;
    TailKeeps(v, n);
    TailSteps(v, n);
  }

  lemma TailKeeps(v: string, n: nat)
    requires n + 1 < |v| && PlainSpaces(v)
    ensures PlainSpaces(v[n..][1..]) && forall i :: 0 <= i < |v| - n - 1 ==> v[n..][1..][i] == v[n + 1 + i]
  {
  }

  lemma TailSteps(v: string, n: nat)
    requires n + 1 < |v| && PlainSpaces(v) && SingleSpaced(v) && v[n] == ' '
    ensures SingleSpaced(v[n..][1..]) && !IsSpace(v[n..][1..][0])
  {
    TailKeeps(v, n);
    var tail := v[n..][1..];
    assert v[n] != ' ' || v[n + 1] != ' ';
    assert tail[0] == v[n + 1] && tail[|tail| - 1] == v[|v| - 1];
    forall i | 0 <= i < |tail| - 1 ensures tail[i] != ' ' || tail[i + 1] != ' ' {
      assert tail[i] == v[n + 1 + i] && tail[i + 1] == v[n + 1 + i + 1];
    }
  }

  /** Free text comes back unchanged exactly when it is single-spaced. */
  lemma WordsUnchangedExactly(v: string)
    requires v != "" && PlainSpaces(v)
    ensures NormWords(Some(v)) == Some(v) <==> SingleSpaced(v)
  {
    if SingleSpaced(v) {
      SingleSpacedRejoins(v);
    }
    if NormWords(Some(v)) == Some(v) {
      TokensAreWords(v);
      UnwordsSingleSpaced(Tokens(v));
    }
  }

  /** Text a caller can check before the call. */
  predicate CleanEntry(e: Entry) {
    && (e.description.Some? ==> Trimmed(e.description.value))
    && (e.sets.community.Some? ==> SingleSpaced(e.sets.community.value))
    && (e.sets.asPathPrepend.Some? ==> SingleSpaced(e.sets.asPathPrepend.value))
  }

  predicate CleanRule(name: string, r: PrefixRule) {
    (name == "ge" ==> r.ge == None) && (name == "le" ==> r.le == None)
  }

  ghost predicate CleanPolicy(lists: seq<PrefixList>, maps: seq<RouteMap>) {
    && (forall i, j :: 0 <= i < |lists| && 0 <= j < |lists[i].rules| ==> CleanRule(lists[i].name, lists[i].rules[j]))
    && (forall i, j :: 0 <= i < |maps| && 0 <= j < |maps[i].entries| ==> CleanEntry(maps[i].entries[j]))
  }

  lemma EntryUnchangedExactly(e: Entry)
    requires ValidEntry(e)
    ensures NormEntry(e) == e <==> CleanEntry(e)
  {
    hide Tokens, Unwords, ValidName, SingleSpaced, Trim, Trimmed, PlainSpaces, ValidText, IsWord, IsOrigin, NormWords;
    assert NormWords(None) == None by { NothingNormalises(); }
    if e.description.Some? {
      DescriptionNotEmpty(e.description.value);
      TrimOfTrimmed(e.description.value);
    }
    if e.sets.community.Some? {
      TextIsPlain(e.sets.community.value, 200);
      WordsUnchangedExactly(e.sets.community.value);
    }
    if e.sets.asPathPrepend.Some? {
      TextIsPlain(e.sets.asPathPrepend.value, 200);
      WordsUnchangedExactly(e.sets.asPathPrepend.value);
    }
  }

  lemma NothingNormalises()
    ensures NormWords(None) == None
  {
  }

  lemma DescriptionNotEmpty(d: string)
    requires ValidText(d, 100)
    ensures d != ""
  {
  }

  lemma TextIsPlain(v: string, max: nat)
    requires ValidText(v, max)
    ensures PlainSpaces(v) && v != ""
  {
  }

  lemma {:induction false} NormEntriesAt(es: seq<Entry>)
    ensures |NormEntries(es)| == |es| && forall i :: 0 <= i < |es| ==> NormEntries(es)[i] == NormEntry(es[i])
  {
    hide NormEntry;
    if es != [] {
      NormEntriesAt(es[1..]);
    }
  }

  lemma {:induction false} NormRulesAt(name: string, rs: seq<PrefixRule>)
    ensures |NormRules(name, rs)| == |rs| && forall i :: 0 <= i < |rs| ==> NormRules(name, rs)[i] == NormRule(name, rs[i])
  {
    hide NormRule;
    if rs != [] {
      NormRulesAt(name, rs[1..]);
    }
  }

  lemma MapUnchangedExactly(m: RouteMap)
    requires ValidMap(m)
    ensures NormMap(m) == m <==> forall j :: 0 <= j < |m.entries| ==> CleanEntry(m.entries[j])
  {
    hide NormEntry, CleanEntry, ValidEntry;
    NormEntriesAt(m.entries);
    forall j | 0 <= j < |m.entries| ensures NormEntries(m.entries)[j] == m.entries[j] <==> CleanEntry(m.entries[j]) {
      EntryUnchangedExactly(m.entries[j]);
    }
    if forall j :: 0 <= j < |m.entries| ==> CleanEntry(m.entries[j]) {
      assert NormEntries(m.entries) == m.entries;
    }
  }

  lemma ListUnchangedExactly(l: PrefixList)
    ensures NormList(l) == l <==> forall j :: 0 <= j < |l.rules| ==> CleanRule(l.name, l.rules[j])
  {
    NormRulesAt(l.name, l.rules);
    if forall j :: 0 <= j < |l.rules| ==> CleanRule(l.name, l.rules[j]) {
      assert NormRules(l.name, l.rules) == l.rules;
    } else {
      var j :| 0 <= j < |l.rules| && !CleanRule(l.name, l.rules[j]);
      assert NormRules(l.name, l.rules)[j] != l.rules[j];
    }
  }

  /** The round trip is the identity exactly on clean policies. */
  lemma RoundTripExactly(lists: seq<PrefixList>, maps: seq<RouteMap>)
    requires ValidPolicy(lists, maps)
    ensures ParsePolicy(Unlines(Printed(lists, maps))) == Running(lists, maps, []) <==> CleanPolicy(lists, maps)
  {
    hide ParsePolicy, Printed, NormMap, NormList, CleanRule, CleanEntry, ValidList, ValidMap;
    ParseOfPrintedText(lists, maps);
    forall i | 0 <= i < |lists|
      ensures NormLists(lists)[i] == lists[i] <==> forall j :: 0 <= j < |lists[i].rules| ==> CleanRule(lists[i].name, lists[i].rules[j])
    {
      ListUnchangedExactly(lists[i]);
    }
    forall i | 0 <= i < |maps|
      ensures NormMaps(maps)[i] == maps[i] <==> forall j :: 0 <= j < |maps[i].entries| ==> CleanEntry(maps[i].entries[j])
    {
      MapUnchangedExactly(maps[i]);
    }
    if CleanPolicy(lists, maps) {
      assert NormLists(lists) == lists && NormMaps(maps) == maps;
    }
  }
}
