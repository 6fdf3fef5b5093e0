/** The commands sent to FRR word by word, as FRR reads them (`src/sonic/policy.rs`,
    `src/sonic/bfd.rs`): which value stands behind which keyword. */
module CommandWords {
  import opened Common
  import opened Text
  import opened Policy
  import opened PolicyRoundTrip
  import opened PolicyWrites
  import Bfd

  /** A keyword and its number, when there is one. */
  function Bound(keyword: string, n: Option<nat>): seq<string> {
    if n.Some? then [keyword, Render(n.value)] else []
  }

  /** A prefix-list command: the family, the list, the sequence number, the action, the
      prefix, and the bounds behind their keywords. */
  lemma PrefixLineWords(l: PrefixList, r: PrefixRule)
    requires ValidName(l.name) && ValidRule(r)
    ensures Tokens(PrefixLine(l, r))
         == [if l.family == "ipv4" then "ip" else "ipv6", "prefix-list", l.name, "seq", Render(r.seqNo), r.action, r.prefix]
            + Bound("ge", r.ge) + Bound("le", r.le)
  {
    hide Tokens, Unwords, Render;
    var ws := [FamilyKeyword(l.family), "prefix-list", l.name] + RuleWords(r);
    RulesAreWords(l, r);
    hide IsWord, AllWords;
    assert ws == [if l.family == "ipv4" then "ip" else "ipv6", "prefix-list", l.name, "seq", Render(r.seqNo), r.action, r.prefix]
                 + Bound("ge", r.ge) + Bound("le", r.le);
    TokensOfUnwords(ws);
  }

  lemma RulesAreWords(l: PrefixList, r: PrefixRule)
    requires ValidName(l.name) && ValidRule(r)
    ensures AllWords([FamilyKeyword(l.family), "prefix-list", l.name] + RuleWords(r))
  {
    NameIsWord(l.name);
    RenderIsWord(r.seqNo);
    RenderIsWord(r.ge.GetOr(0));
    RenderIsWord(r.le.GetOr(0));
    assert IsWord("ip") && IsWord("ipv6") && IsWord("prefix-list") && IsWord("seq") && IsWord("ge") && IsWord("le");
    assert IsWord("permit") && IsWord("deny");
    hide IsWord, Render;
  }

  /** What opens an entry, and what removes an object. */
  lemma HeaderWords(name: string, action: string, n: nat, family: string)
    requires ValidName(name) && IsWord(action)
    ensures Tokens(CommandLine(EnterEntry(name, action, n))) == ["route-map", name, action, Render(n)]
    ensures Tokens(CommandLine(NoRouteMap(name))) == ["no", "route-map", name]
    ensures Tokens(CommandLine(NoPrefixList(family, name))) == ["no", if family == "ipv4" then "ip" else "ipv6", "prefix-list", name]
  {
    hide Tokens, Unwords;
    NameIsWord(name);
    RenderIsWord(n);
    assert IsWord("ip") && IsWord("ipv6") && IsWord("prefix-list") && IsWord("no") && IsWord("route-map");
    hide IsWord, Render;
    TokensOfUnwords(["route-map", name, action, Render(n)]);
    TokensOfUnwords(["no", "route-map", name]);
    TokensOfUnwords(["no", if family == "ipv4" then "ip" else "ipv6", "prefix-list", name]);
  }

  /** The words of a clause; free text comes last. */
  function ClauseWords(c: Clause): seq<string> {
    match c
    case Description(d) => ["description"] + Tokens(d)
    case MatchIp(v) => ["match", "ip", "address", "prefix-list", v]
    case MatchIpv6(v) => ["match", "ipv6", "address", "prefix-list", v]
    case MatchCommunity(v) => ["match", "community", v]
    case MatchMetric(n) => ["match", "metric", Render(n)]
    case MatchTag(n) => ["match", "tag", Render(n)]
    case SetLocalPreference(n) => ["set", "local-preference", Render(n)]
    case SetMetric(n) => ["set", "metric", Render(n)]
    case SetCommunity(v) => ["set", "community"] + Tokens(v)
    case SetAsPath(v) => ["set", "as-path", "prepend"] + Tokens(v)
    case SetNextHop(v) => ["set", "ip", "next-hop", v]
    case SetOrigin(v) => ["set", "origin", v]
    case SetTag(n) => ["set", "tag", Render(n)]
  }

  lemma ClauseLineWords(c: Clause)
    requires ValidClause(c)
    ensures Tokens(ClauseLine(c)) == ClauseWords(c)
  {
    hide Tokens, Unwords, ClauseLine, ClauseWords, ValidClause;
    if c.Description? || c.SetCommunity? || c.SetAsPath? {
      TextLineWords(c);
    } else if c.MatchIp? || c.MatchIpv6? || c.MatchCommunity? || c.MatchMetric? || c.MatchTag? {
      MatchLineWords(c);
    } else {
      SetLineWords(c);
    }
  }

  lemma TextLineWords(c: Clause)
    requires c.Description? || c.SetCommunity? || c.SetAsPath?
    ensures Tokens(ClauseLine(c)) == ClauseWords(c)
  {
    hide Tokens, Unwords;
    assert IsWord("set") && IsWord("community") && IsWord("as-path") && IsWord("prepend") && IsWord("description");
    hide IsWord;
    match c
    case Description(d) => TokensOfUnwordsThen(["description"], d);
    case SetCommunity(v) => TokensOfUnwordsThen(["set", "community"], v);
    case SetAsPath(v) => TokensOfUnwordsThen(["set", "as-path", "prepend"], v);
  }

  lemma MatchLineWords(c: Clause)
    requires ValidClause(c) && (c.MatchIp? || c.MatchIpv6? || c.MatchCommunity? || c.MatchMetric? || c.MatchTag?)
    ensures Tokens(ClauseLine(c)) == ClauseWords(c)
  {
    hide Tokens, Unwords;
    assert IsWord("match") && IsWord("ip") && IsWord("ipv6") && IsWord("address") && IsWord("prefix-list");
    assert IsWord("community") && IsWord("metric") && IsWord("tag");
    if c.MatchMetric? || c.MatchTag? { RenderIsWord(c.n); }
    hide IsWord, Render;
    TokensOfUnwords(ClauseWords(c));
  }

  lemma SetLineWords(c: Clause)
    requires ValidClause(c)
    requires c.SetLocalPreference? || c.SetMetric? || c.SetNextHop? || c.SetOrigin? || c.SetTag?
    ensures Tokens(ClauseLine(c)) == ClauseWords(c)
  {
    hide Tokens, Unwords;
    assert IsWord("set") && IsWord("ip") && IsWord("local-preference") && IsWord("next-hop") && IsWord("origin");
    assert IsWord("metric") && IsWord("tag");
    if c.SetOrigin? { OriginIsWord(c.origin); }
    if c.SetLocalPreference? || c.SetMetric? || c.SetTag? { RenderIsWord(c.n); }
    hide IsWord, Render;
    TokensOfUnwords(ClauseWords(c));
  }

  /** What an entry's lines say: for each part that is given its own clause, and no other. */
  lemma ClausesAre(e: Entry, c: Clause)
    ensures c in ClausesOf(e) <==>
              match c
              case Description(d) => e.description == Some(d)
              case MatchIp(v) => e.matches.ipPrefixList == Some(v)
              case MatchIpv6(v) => e.matches.ipv6PrefixList == Some(v)
              case MatchCommunity(v) => e.matches.community == Some(v)
              case MatchMetric(n) => e.matches.metric == Some(n)
              case MatchTag(n) => e.matches.tag == Some(n)
              case SetLocalPreference(n) => e.sets.localPreference == Some(n)
              case SetMetric(n) => e.sets.metric == Some(n)
              case SetCommunity(v) => e.sets.community == Some(v)
              case SetAsPath(v) => e.sets.asPathPrepend == Some(v)
              case SetNextHop(v) => e.sets.ipNextHop == Some(v)
              case SetOrigin(v) => e.sets.origin == Some(v)
              case SetTag(n) => e.sets.tag == Some(n)
  {
    MatchClausesAre(e.matches, c);
    SetClausesAre(e.sets, c);
    hide MatchClausesOf, SetClausesOf;
  }

  lemma MatchClausesAre(m: MatchClauses, c: Clause)
    ensures c in MatchClausesOf(m) <==>
              match c
              case MatchIp(v) => m.ipPrefixList == Some(v)
              case MatchIpv6(v) => m.ipv6PrefixList == Some(v)
              case MatchCommunity(v) => m.community == Some(v)
              case MatchMetric(n) => m.metric == Some(n)
              case MatchTag(n) => m.tag == Some(n)
              case _ => false
  {
  }

  lemma SetClausesAre(s: SetClauses, c: Clause)
    ensures c in SetClausesOf(s) <==>
              match c
              case SetLocalPreference(n) => s.localPreference == Some(n)
              case SetMetric(n) => s.metric == Some(n)
              case SetCommunity(v) => s.community == Some(v)
              case SetAsPath(v) => s.asPathPrepend == Some(v)
              case SetNextHop(v) => s.ipNextHop == Some(v)
              case SetOrigin(v) => s.origin == Some(v)
              case SetTag(n) => s.tag == Some(n)
              case _ => false
  {
  }

  // ------------------------------------------------------------------ BFD peers

  function Named(keyword: string, v: Option<string>): seq<string> {
    if v.Some? then [keyword, v.value] else []
  }

  /** The identity line of a peer: what is given behind its keyword. */
  lemma IdentityLineWords(p: Bfd.Peer)
    requires Bfd.Valid(p)
    ensures Tokens(Bfd.IdentityLine(p))
         == ["peer", p.peer] + (if p.multihop then ["multihop"] else [])
            + Named("local-address", p.local) + Named("interface", p.iface) + Named("vrf", p.vrf)
  {
    hide Tokens, Unwords;
    var ws := Bfd.IdentityWords(p);
    IdentitiesAreWords(p);
    hide IsWord, AllWords;
    TokensOfWordThen("peer", Unwords(ws));
    TokensOfUnwords(ws);
    assert "peer " == "peer" + " ";
    assert Bfd.IdentityLine(p) == "peer" + " " + Unwords(ws);
    assert ["peer"] + ws == ["peer", p.peer] + (if p.multihop then ["multihop"] else [])
            + Named("local-address", p.local) + Named("interface", p.iface) + Named("vrf", p.vrf);
  }

  lemma IdentitiesAreWords(p: Bfd.Peer)
    requires Bfd.Valid(p)
    ensures AllWords(Bfd.IdentityWords(p)) && IsWord("peer")
  {
    assert IsWord("peer") && IsWord("multihop") && IsWord("local-address") && IsWord("interface") && IsWord("vrf");
    hide IsWord;
  }

  /** The setting lines. */
  lemma SettingLineWords(s: Bfd.Setting)
    ensures Tokens(Bfd.SettingLine(s))
         == match s
            case Multiplier(n) => ["detect-multiplier", Render(n)]
            case Receive(n) => ["receive-interval", Render(n)]
            case Transmit(n) => ["transmit-interval", Render(n)]
            case Passive(on) => if on then ["passive-mode"] else ["no", "passive-mode"]
            case Shutdown(on) => if on then ["shutdown"] else ["no", "shutdown"]
  {
    hide Tokens, Unwords;
    assert IsWord("detect-multiplier") && IsWord("receive-interval") && IsWord("transmit-interval");
    assert IsWord("passive-mode") && IsWord("shutdown") && IsWord("no");
    if s.Multiplier? || s.Receive? || s.Transmit? { RenderIsWord(s.n); }
    hide IsWord, Render;
    TokensOfUnwords(Bfd.SettingWords(s));
  }
}
