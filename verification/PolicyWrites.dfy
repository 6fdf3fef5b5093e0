/** The four policy writes (`src/sonic/policy.rs`) against an interpreter of the FRR
    commands they emit. */
module PolicyWrites {
  import opened Common
  import opened Text
  import opened Policy
  import opened PolicyRoundTrip
  import opened PolicyTheorems

  // -------------------------------------------------------- commands and daemon

  datatype Command =
    | NoPrefixList(family: string, name: string)
    | AddPrefixRule(family: string, name: string, rule: PrefixRule)
    | NoRouteMap(name: string)
    | EnterEntry(name: string, action: string, seqNo: nat)
    | InEntry(clause: Clause)
    | LeaveEntry

  /** The daemon's policy objects, and the entry being edited. */
  datatype Frr = Frr(lists: seq<PrefixList>, maps: seq<RouteMap>, at: Option<(string, nat)>)

  function WithoutList(lists: seq<PrefixList>, family: string, name: string): seq<PrefixList> {
    if lists == [] then []
    else if lists[0].name == name && lists[0].family == family then WithoutList(lists[1..], family, name)
    else [lists[0]] + WithoutList(lists[1..], family, name)
  }

  function WithoutMap(maps: seq<RouteMap>, name: string): seq<RouteMap> {
    if maps == [] then []
    else if maps[0].name == name then WithoutMap(maps[1..], name)
    else [maps[0]] + WithoutMap(maps[1..], name)
  }

  /** A rule replaces the one with its sequence number, or joins the list. */
  function PutRule(rules: seq<PrefixRule>, r: PrefixRule): seq<PrefixRule> {
    if rules == [] then [r]
    else if rules[0].seqNo == r.seqNo then [r] + rules[1..]
    else [rules[0]] + PutRule(rules[1..], r)
  }

  function PutInList(lists: seq<PrefixList>, family: string, name: string, r: PrefixRule): seq<PrefixList> {
    if lists == [] then [PrefixList(name, family, [r])]
    else if lists[0].name == name && lists[0].family == family then
      [lists[0].(rules := PutRule(lists[0].rules, r))] + lists[1..]
    else [lists[0]] + PutInList(lists[1..], family, name, r)
  }

  function BlankEntry(action: string, seqNo: nat): Entry {
    Entry(seqNo, action, None, NO_MATCH, NO_SET)
  }

  /** Entering an entry creates it or changes its action. */
  function Enter(entries: seq<Entry>, action: string, seqNo: nat): seq<Entry> {
    if entries == [] then [BlankEntry(action, seqNo)]
    else if entries[0].seqNo == seqNo then [entries[0].(action := action)] + entries[1..]
    else [entries[0]] + Enter(entries[1..], action, seqNo)
  }

  function EnterMap(maps: seq<RouteMap>, name: string, action: string, seqNo: nat): seq<RouteMap> {
    if maps == [] then [RouteMap(name, [BlankEntry(action, seqNo)])]
    else if maps[0].name == name then [maps[0].(entries := Enter(maps[0].entries, action, seqNo))] + maps[1..]
    else [maps[0]] + EnterMap(maps[1..], name, action, seqNo)
  }

  /** A clause as the daemon stores it. */
  function SetClause(e: Entry, c: Clause): Entry {
    match c
    case Description(d) => e.(description := Some(d))
    case SetCommunity(v) => e.(sets := e.sets.(community := Some(v)))
    case SetAsPath(v) => e.(sets := e.sets.(asPathPrepend := Some(v)))
    case _ => ApplyClause(e, c)
  }

  function Edit(entries: seq<Entry>, seqNo: nat, c: Clause): seq<Entry> {
    if entries == [] then []
    else if entries[0].seqNo == seqNo then [SetClause(entries[0], c)] + entries[1..]
    else [entries[0]] + Edit(entries[1..], seqNo, c)
  }

  function EditMap(maps: seq<RouteMap>, name: string, seqNo: nat, c: Clause): seq<RouteMap> {
    if maps == [] then []
    else if maps[0].name == name then [maps[0].(entries := Edit(maps[0].entries, seqNo, c))] + maps[1..]
    else [maps[0]] + EditMap(maps[1..], name, seqNo, c)
  }

  function Interpret(st: Frr, cmd: Command): Frr {
    match cmd
    case NoPrefixList(family, name) => st.(lists := WithoutList(st.lists, family, name))
    case AddPrefixRule(family, name, r) => st.(lists := PutInList(st.lists, family, name, r))
    case NoRouteMap(name) => st.(maps := WithoutMap(st.maps, name))
    case EnterEntry(name, action, n) => st.(maps := EnterMap(st.maps, name, action, n), at := Some((name, n)))
    case InEntry(c) =>
      (match st.at
       case None => st
       case Some((name, n)) => st.(maps := EditMap(st.maps, name, n, c)))
    case LeaveEntry => st.(at := None)
  }

  function InterpretAll(st: Frr, cmds: seq<Command>): Frr
    decreases |cmds|
  {
    if cmds == [] then st else InterpretAll(Interpret(st, cmds[0]), cmds[1..])
  }

  lemma {:induction false} InterpretAppend(st: Frr, a: seq<Command>, b: seq<Command>)
    ensures InterpretAll(st, a + b) == InterpretAll(InterpretAll(st, a), b)
    decreases |a|
  {
    hide Interpret;
    if a == [] {
      assert a + b == b;
    } else {
      InterpretAppend(Interpret(st, a[0]), a[1..], b);
      assert (a + b)[1..] == a[1..] + b;
    }
  }

  /** The command line of a command: what the printer of `Policy` prints. */
  function CommandLine(cmd: Command): string {
    match cmd
    case NoPrefixList(family, name) => Unwords(["no", FamilyKeyword(family), "prefix-list", name])
    case AddPrefixRule(family, name, r) => PrefixLine(PrefixList(name, family, []), r)
    case NoRouteMap(name) => Unwords(["no", "route-map", name])
    case EnterEntry(name, action, n) => EntryHeader(name, BlankEntry(action, n))
    case InEntry(c) => ClauseLine(c)
    case LeaveEntry => "exit"
  }

  function CommandLines(cmds: seq<Command>): (r: seq<string>)
    ensures |r| == |cmds|
  {
    seq(|cmds|, i requires 0 <= i < |cmds| => CommandLine(cmds[i]))
  }

  lemma CommandLinesAppend(a: seq<Command>, b: seq<Command>)
    ensures CommandLines(a + b) == CommandLines(a) + CommandLines(b)
  {
    hide CommandLine;
  }

  // ------------------------------------------------------------- prefix lists

  function RuleCommands(family: string, name: string, rules: seq<PrefixRule>): seq<Command> {
    if rules == [] then []
    else RuleCommands(family, name, rules[..|rules| - 1]) + [AddPrefixRule(family, name, rules[|rules| - 1])]
  }

  /** No name occurs twice, in one family or in both. */
  ghost predicate OneFamily(lists: seq<PrefixList>) {
    forall i, j :: 0 <= i < j < |lists| ==> lists[i].name != lists[j].name
  }

  ghost predicate Unused(lists: seq<PrefixList>, name: string) {
    forall i :: 0 <= i < |lists| ==> lists[i].name != name
  }

  ghost predicate DistinctSeqs(rules: seq<PrefixRule>) {
    forall i, j :: 0 <= i < j < |rules| ==> rules[i].seqNo != rules[j].seqNo
  }

  lemma {:induction false} PutRuleLast(rules: seq<PrefixRule>, r: PrefixRule)
    requires forall i :: 0 <= i < |rules| ==> rules[i].seqNo != r.seqNo
    ensures PutRule(rules, r) == rules + [r]
  {
    if rules != [] {
      PutRuleLast(rules[1..], r);
      assert rules == [rules[0]] + rules[1..];
    }
  }

  lemma {:induction false} PutInLast(lists: seq<PrefixList>, family: string, name: string, rules: seq<PrefixRule>, r: PrefixRule)
    requires Unused(lists, name)
    requires forall i :: 0 <= i < |rules| ==> rules[i].seqNo != r.seqNo
    ensures PutInList(lists + [PrefixList(name, family, rules)], family, name, r) == lists + [PrefixList(name, family, rules + [r])]
    ensures PutInList(lists, family, name, r) == lists + [PrefixList(name, family, [r])]
  {
    var all := lists + [PrefixList(name, family, rules)];
    if lists == [] {
      PutRuleLast(rules, r);
      assert all[1..] == [];
    } else {
      PutInLast(lists[1..], family, name, rules, r);
      assert all[1..] == lists[1..] + [PrefixList(name, family, rules)];
      assert [lists[0]] + (lists[1..] + [PrefixList(name, family, rules + [r])]) == lists + [PrefixList(name, family, rules + [r])];
      assert [lists[0]] + (lists[1..] + [PrefixList(name, family, [r])]) == lists + [PrefixList(name, family, [r])];
    }
  }

  /** On an unused name the rule commands build exactly the list. */
  lemma {:induction false} RuleCommandsBuild(st: Frr, family: string, name: string, rules: seq<PrefixRule>)
    requires Unused(st.lists, name) && rules != [] && DistinctSeqs(rules)
    ensures InterpretAll(st, RuleCommands(family, name, rules)) == st.(lists := st.lists + [PrefixList(name, family, rules)])
    decreases |rules|
  {
    var n := |rules| - 1;
    var front, r := rules[..n], rules[n];
    var cmd := AddPrefixRule(family, name, r);
    InterpretAppend(st, RuleCommands(family, name, front), [cmd]);
    var mid := InterpretAll(st, RuleCommands(family, name, front));
    assert InterpretAll(mid, [cmd]) == Interpret(mid, cmd) by { assert [cmd][1..] == []; }
    PutInLast(st.lists, family, name, front, r);
    if n > 0 {
      RuleCommandsBuild(st, family, name, front);
      assert front + [r] == rules;
    } else {
      assert rules == [r] && front == [];
    }
  }

  function WithoutName(lists: seq<PrefixList>, name: string): seq<PrefixList> {
    if lists == [] then []
    else if lists[0].name == name then WithoutName(lists[1..], name)
    else [lists[0]] + WithoutName(lists[1..], name)
  }

  function FindList(lists: seq<PrefixList>, name: string): (i: nat)
    ensures i <= |lists|
    ensures i < |lists| ==> lists[i].name == name
    ensures forall j :: 0 <= j < i ==> lists[j].name != name
  {
    if lists == [] || lists[0].name == name then 0 else 1 + FindList(lists[1..], name)
  }

  lemma {:induction false} WithoutUnused(lists: seq<PrefixList>, family: string, name: string)
    requires Unused(lists, name)
    ensures WithoutList(lists, family, name) == lists && WithoutName(lists, name) == lists
  {
    if lists != [] {
      WithoutUnused(lists[1..], family, name);
      assert lists == [lists[0]] + lists[1..];
    }
  }

  /** With one family a name, removing the found family's list removes the name. */
  lemma {:induction false} WithoutFound(lists: seq<PrefixList>, name: string)
    requires OneFamily(lists) && FindList(lists, name) < |lists|
    ensures WithoutList(lists, lists[FindList(lists, name)].family, name) == WithoutName(lists, name)
  {
    if lists[0].name == name {
      WithoutUnused(lists[1..], lists[0].family, name);
    } else {
      WithoutFound(lists[1..], name);
    }
  }

  lemma {:induction false} WithoutNameMembers(lists: seq<PrefixList>, name: string, l: PrefixList)
    ensures l in WithoutName(lists, name) <==> l in lists && l.name != name
  {
    if lists != [] {
      WithoutNameMembers(lists[1..], name, l);
      assert l in lists <==> l == lists[0] || l in lists[1..];
    }
  }

  lemma {:induction false} WithoutNameFacts(lists: seq<PrefixList>, name: string)
    requires OneFamily(lists)
    ensures OneFamily(WithoutName(lists, name)) && Unused(WithoutName(lists, name), name)
    ensures forall l :: l in WithoutName(lists, name) <==> l in lists && l.name != name
  {
    forall l ensures l in WithoutName(lists, name) <==> l in lists && l.name != name {
      WithoutNameMembers(lists, name, l);
    }
    if lists != [] {
      WithoutNameFacts(lists[1..], name);
      var w := WithoutName(lists[1..], name);
      forall i | 0 <= i < |w| ensures w[i].name != lists[0].name {
        assert w[i] in w;
        assert w[i] in lists[1..];
      }
    }
  }

  // ----------------------------------------------------------------- route maps

  function SetAll(e: Entry, cs: seq<Clause>): Entry
    decreases |cs|
  {
    if cs == [] then e else SetAll(SetClause(e, cs[0]), cs[1..])
  }

  lemma {:induction false} SetAllAppend(e: Entry, a: seq<Clause>, b: seq<Clause>)
    ensures SetAll(e, a + b) == SetAll(SetAll(e, a), b)
    decreases |a|
  {
    hide SetClause;
    if a == [] {
      assert a + b == b;
    } else {
      SetAllAppend(SetClause(e, a[0]), a[1..], b);
      assert (a + b)[1..] == a[1..] + b;
    }
  }

  lemma SetOpt<T>(e: Entry, o: Option<T>, f: T -> Clause)
    ensures SetAll(e, Opt(o, f)) == if o.Some? then SetClause(e, f(o.value)) else e
  {
    hide SetClause;
    if o.Some? {
      assert [f(o.value)][1..] == [];
    }
  }

  predicate IsText(c: Clause) {
    c.Description? || c.SetCommunity? || c.SetAsPath?
  }

  lemma {:induction false} SetAllIsApplyAll(e: Entry, cs: seq<Clause>)
    requires forall c :: c in cs ==> !IsText(c)
    ensures SetAll(e, cs) == ApplyAll(e, cs)
    decreases |cs|
  {
    hide ApplyClause;
    if cs != [] {
      assert !IsText(cs[0]);
      SetAllIsApplyAll(SetClause(e, cs[0]), cs[1..]);
    }
  }

  lemma SetFirstClauses(e: Entry, s: SetClauses)
    requires e.sets == NO_SET
    ensures SetAll(e, Opt(s.localPreference, v => SetLocalPreference(v)) + Opt(s.metric, v => SetMetric(v))
                      + Opt(s.community, v => SetCommunity(v)) + Opt(s.asPathPrepend, v => SetAsPath(v)))
         == e.(sets := SetClauses(s.localPreference, s.metric, s.community, s.asPathPrepend, None, None, None))
  {
    hide SetAll, Opt, Tokens, Unwords, Trim;
    var a, b, c, d := Opt(s.localPreference, v => SetLocalPreference(v)), Opt(s.metric, v => SetMetric(v)),
      Opt(s.community, v => SetCommunity(v)), Opt(s.asPathPrepend, v => SetAsPath(v));
    SetAllAppend(e, a + b + c, d);
    SetAllAppend(e, a + b, c);
    SetAllAppend(e, a, b);
    var e1 := SetAll(e, a);
    SetOpt(e, s.localPreference, v => SetLocalPreference(v));
    assert e1 == e.(sets := SetClauses(s.localPreference, None, None, None, None, None, None));
    var e2 := SetAll(e1, b);
    SetOpt(e1, s.metric, v => SetMetric(v));
    assert e2 == e.(sets := SetClauses(s.localPreference, s.metric, None, None, None, None, None));
    var e3 := SetAll(e2, c);
    SetOpt(e2, s.community, v => SetCommunity(v));
    assert e3 == e.(sets := SetClauses(s.localPreference, s.metric, s.community, None, None, None, None));
    SetOpt(e3, s.asPathPrepend, v => SetAsPath(v));
  }

  lemma SetSetClauses(e: Entry, s: SetClauses)
    requires e.sets == NO_SET
    ensures SetAll(e, SetClausesOf(s)) == e.(sets := s)
  {
    hide SetAll, Opt, Tokens, Unwords, Trim;
    var front := Opt(s.localPreference, v => SetLocalPreference(v)) + Opt(s.metric, v => SetMetric(v))
      + Opt(s.community, v => SetCommunity(v)) + Opt(s.asPathPrepend, v => SetAsPath(v));
    var f, g, h := Opt(s.ipNextHop, v => SetNextHop(v)), Opt(s.origin, v => SetOrigin(v)), Opt(s.tag, v => SetTag(v));
    SetAllAppend(e, front + f + g, h);
    SetAllAppend(e, front + f, g);
    SetAllAppend(e, front, f);
    SetFirstClauses(e, s);
    var e4 := SetAll(e, front);
    var e5 := SetAll(e4, f);
    SetOpt(e4, s.ipNextHop, v => SetNextHop(v));
    assert e5 == e.(sets := SetClauses(s.localPreference, s.metric, s.community, s.asPathPrepend, s.ipNextHop, None, None));
    var e6 := SetAll(e5, g);
    SetOpt(e5, s.origin, v => SetOrigin(v));
    assert e6 == e.(sets := SetClauses(s.localPreference, s.metric, s.community, s.asPathPrepend, s.ipNextHop, s.origin, None));
    SetOpt(e6, s.tag, v => SetTag(v));
  }

  /** Clause by clause, a blank entry becomes exactly the requested one. */
  lemma SetClausesBuild(e: Entry)
    ensures SetAll(BlankEntry(e.action, e.seqNo), ClausesOf(e)) == e
  {
    hide SetAll, Opt, SetClausesOf;
    var blank := BlankEntry(e.action, e.seqNo);
    var a := Opt(e.description, v => Description(v));
    SetAllAppend(blank, a + MatchClausesOf(e.matches), SetClausesOf(e.sets));
    SetAllAppend(blank, a, MatchClausesOf(e.matches));
    SetOpt(blank, e.description, v => Description(v));
    var e1 := SetAll(blank, a);
    NoTextInMatches(e.matches);
    SetAllIsApplyAll(e1, MatchClausesOf(e.matches));
    ApplyMatchClauses(e1, e.matches);
    SetSetClauses(SetAll(e1, MatchClausesOf(e.matches)), e.sets);
  }

  lemma NoTextInMatches(m: MatchClauses)
    ensures forall c :: c in MatchClausesOf(m) ==> !IsText(c)
  {
  }

  function ClauseCommands(cs: seq<Clause>): seq<Command> {
    if cs == [] then [] else [InEntry(cs[0])] + ClauseCommands(cs[1..])
  }

  function EntryCommands(name: string, e: Entry): seq<Command> {
    [EnterEntry(name, e.action, e.seqNo)] + ClauseCommands(ClausesOf(e)) + [LeaveEntry]
  }

  function MapCommands(name: string, entries: seq<Entry>): seq<Command> {
    if entries == [] then []
    else MapCommands(name, entries[..|entries| - 1]) + EntryCommands(name, entries[|entries| - 1])
  }

  ghost predicate FreshSeq(entries: seq<Entry>, n: nat) {
    forall i :: 0 <= i < |entries| ==> entries[i].seqNo != n
  }

  lemma {:induction false} EnterLast(entries: seq<Entry>, action: string, n: nat)
    requires FreshSeq(entries, n)
    ensures Enter(entries, action, n) == entries + [BlankEntry(action, n)]
  {
    if entries != [] {
      EnterLast(entries[1..], action, n);
      assert entries == [entries[0]] + entries[1..];
    }
  }

  lemma {:induction false} EditLast(entries: seq<Entry>, e: Entry, c: Clause)
    requires FreshSeq(entries, e.seqNo)
    ensures Edit(entries + [e], e.seqNo, c) == entries + [SetClause(e, c)]
  {
    hide SetClause;
    var all := entries + [e];
    if entries != [] {
      EditLast(entries[1..], e, c);
      assert all[1..] == entries[1..] + [e];
      assert [entries[0]] + (entries[1..] + [SetClause(e, c)]) == entries + [SetClause(e, c)];
    } else {
      assert all[1..] == [];
    }
  }

  /** The map under construction: absent before its first entry. */
  function Building(before: seq<RouteMap>, name: string, done: seq<Entry>): seq<RouteMap> {
    if done == [] then before else before + [RouteMap(name, done)]
  }

  lemma {:induction false} EnterMapLast(before: seq<RouteMap>, name: string, done: seq<Entry>, action: string, n: nat)
    requires NoMapNamed(before, name) && FreshSeq(done, n)
    ensures EnterMap(Building(before, name, done), name, action, n) == before + [RouteMap(name, done + [BlankEntry(action, n)])]
  {
    hide Enter;
    var all := Building(before, name, done);
    var target := RouteMap(name, done + [BlankEntry(action, n)]);
    if before == [] {
      EnterLast(done, action, n);
      if done != [] {
        assert all[1..] == [];
      } else {
        assert done + [BlankEntry(action, n)] == [BlankEntry(action, n)];
      }
    } else {
      EnterMapLast(before[1..], name, done, action, n);
      assert all[0] == before[0] && all[1..] == Building(before[1..], name, done);
      assert [before[0]] + (before[1..] + [target]) == before + [target];
    }
  }

  lemma {:induction false} EditMapLast(before: seq<RouteMap>, name: string, done: seq<Entry>, e: Entry, c: Clause)
    requires NoMapNamed(before, name) && FreshSeq(done, e.seqNo)
    ensures EditMap(before + [RouteMap(name, done + [e])], name, e.seqNo, c) == before + [RouteMap(name, done + [SetClause(e, c)])]
  {
    hide Edit, SetClause;
    var all := before + [RouteMap(name, done + [e])];
    var target := RouteMap(name, done + [SetClause(e, c)]);
    if before == [] {
      EditLast(done, e, c);
      assert all[1..] == [];
    } else {
      EditMapLast(before[1..], name, done, e, c);
      assert all[1..] == before[1..] + [RouteMap(name, done + [e])];
      assert [before[0]] + (before[1..] + [target]) == before + [target];
    }
  }

  lemma SetClauseKeepsSeq(e: Entry, c: Clause)
    ensures SetClause(e, c).seqNo == e.seqNo
  {
  }

  lemma {:induction false} ClauseCommandsBuild(st: Frr, before: seq<RouteMap>, name: string, done: seq<Entry>, e: Entry, cs: seq<Clause>)
    requires NoMapNamed(before, name) && FreshSeq(done, e.seqNo)
    requires st.maps == before + [RouteMap(name, done + [e])] && st.at == Some((name, e.seqNo))
    ensures InterpretAll(st, ClauseCommands(cs)) == st.(maps := before + [RouteMap(name, done + [SetAll(e, cs)])])
    decreases |cs|
  {
    hide EditMap, SetClause;
    if cs != [] {
      EditMapLast(before, name, done, e, cs[0]);
      SetClauseKeepsSeq(e, cs[0]);
      var st' := Interpret(st, InEntry(cs[0]));
      ClauseCommandsBuild(st', before, name, done, SetClause(e, cs[0]), cs[1..]);
      assert ClauseCommands(cs)[1..] == ClauseCommands(cs[1..]);
    }
  }

  lemma EntryCommandsBuild(st: Frr, before: seq<RouteMap>, name: string, done: seq<Entry>, e: Entry)
    requires NoMapNamed(before, name) && FreshSeq(done, e.seqNo) && st.maps == Building(before, name, done)
    ensures InterpretAll(st, EntryCommands(name, e)) == st.(maps := before + [RouteMap(name, done + [e])], at := None)
  {
    hide EnterMap, ClausesOf, SetAll, ClauseCommands;
    var enter := EnterEntry(name, e.action, e.seqNo);
    var body := ClauseCommands(ClausesOf(e));
    InterpretAppend(st, [enter] + body, [LeaveEntry]);
    InterpretAppend(st, [enter], body);
    EnterMapLast(before, name, done, e.action, e.seqNo);
    var st1 := Interpret(st, enter);
    assert InterpretAll(st, [enter]) == st1 by { assert [enter][1..] == []; }
    ClauseCommandsBuild(st1, before, name, done, BlankEntry(e.action, e.seqNo), ClausesOf(e));
    SetClausesBuild(e);
    var st2 := InterpretAll(st1, body);
    assert InterpretAll(st2, [LeaveEntry]) == Interpret(st2, LeaveEntry) by { assert [LeaveEntry][1..] == []; }
  }

  ghost predicate DistinctEntrySeqs(entries: seq<Entry>) {
    forall i, j :: 0 <= i < j < |entries| ==> entries[i].seqNo != entries[j].seqNo
  }

  lemma {:induction false} MapCommandsBuild(st: Frr, name: string, entries: seq<Entry>)
    requires NoMapNamed(st.maps, name) && DistinctEntrySeqs(entries) && entries != []
    ensures InterpretAll(st, MapCommands(name, entries)) == st.(maps := st.maps + [RouteMap(name, entries)], at := None)
    decreases |entries|
  {
    hide EntryCommands;
    var n := |entries| - 1;
    var front, e := entries[..n], entries[n];
    InterpretAppend(st, MapCommands(name, front), EntryCommands(name, e));
    var mid := InterpretAll(st, MapCommands(name, front));
    if n > 0 {
      MapCommandsBuild(st, name, front);
    }
    EntryCommandsBuild(mid, st.maps, name, front, e);
    assert front + [e] == entries;
    assert mid.(maps := st.maps + [RouteMap(name, entries)], at := None) == st.(maps := st.maps + [RouteMap(name, entries)], at := None);
  }

  lemma {:induction false} WithoutMapMembers(maps: seq<RouteMap>, name: string, m: RouteMap)
    ensures m in WithoutMap(maps, name) <==> m in maps && m.name != name
  {
    if maps != [] {
      WithoutMapMembers(maps[1..], name, m);
      assert m in maps <==> m == maps[0] || m in maps[1..];
    }
  }

  lemma {:induction false} WithoutMapDistinct(maps: seq<RouteMap>, name: string)
    requires DistinctMaps(maps)
    ensures DistinctMaps(WithoutMap(maps, name)) && NoMapNamed(WithoutMap(maps, name), name)
  {
    if maps != [] {
      WithoutMapDistinct(maps[1..], name);
      var w := WithoutMap(maps[1..], name);
      forall i | 0 <= i < |w| ensures w[i].name != maps[0].name {
        WithoutMapMembers(maps[1..], name, w[i]);
        assert w[i] in w;
      }
    }
  }

  lemma {:induction false} WithoutAbsentMap(maps: seq<RouteMap>, name: string)
    requires NoMapNamed(maps, name)
    ensures WithoutMap(maps, name) == maps
  {
    if maps != [] {
      WithoutAbsentMap(maps[1..], name);
      assert maps == [maps[0]] + maps[1..];
    }
  }

  // ----------------------------------------------------------------- validation

  /** `check_prefix_rule`. */
  predicate CheckRule(ip: string -> Option<bool>, family: string, r: PrefixRule) {
    var max := if family == "ipv4" then 32 else 128;
    && r.seqNo != 0 && IsAction(r.action)
    && SplitOnce(r.prefix, '/').Some?
    && (var (addr, len) := SplitOnce(r.prefix, '/').value;
        && ip(addr).Some?
        && ParseUnsigned(len, U32_MAX).Some?
        && (var n := ParseUnsigned(len, U32_MAX).value;
            && n <= max && ip(addr).value == (family == "ipv4")
            && (r.ge.Some? ==> n <= r.ge.value <= max)
            && (r.le.Some? ==> n <= r.le.value <= max)
            && (r.ge.Some? && r.le.Some? ==> r.ge.value <= r.le.value)))
  }

  lemma DigitsAreNoSpace(s: string)
    requires ParseUnsigned(s, U32_MAX).Some?
    ensures IsWord(s)
  {
    var digits := if s != "" && s[0] == '+' then s[1..] else s;
    assert AllDigits(digits);
    forall i | 0 <= i < |s| ensures !IsSpace(s[i]) {
      if s[0] == '+' {
        if i > 0 { assert s[i] == digits[i - 1]; }
      } else {
        assert s[i] == digits[i];
      }
    }
  }

  /** A checked rule satisfies what the round trip assumes. */
  lemma CheckedRuleIsValid(ip: string -> Option<bool>, family: string, r: PrefixRule)
    requires ParsesWords(ip) && r.seqNo <= U32_MAX && CheckRule(ip, family, r)
    ensures ValidRule(r)
  {
    hide ParseUnsigned, IsAction, IsSpace;
    var (addr, len) := SplitOnce(r.prefix, '/').value;
    SplitOnceInverse(r.prefix, '/');
    DigitsAreNoSpace(len);
    assert r.prefix == addr + ['/'] + len;
    assert r.prefix[|addr|] == '/' && !IsSpace('/') by { SlashIsNoSpace(); }
  }

  lemma SlashIsNoSpace()
    ensures !IsSpace('/')
  {
  }

  /** `check_entry`. */
  predicate CheckEntry(ip: string -> Option<bool>, e: Entry) {
    && 1 <= e.seqNo <= 65535 && IsAction(e.action)
    && (e.description.Some? ==> ValidText(e.description.value, 100))
    && ValidOptName(e.matches.ipPrefixList) && ValidOptName(e.matches.ipv6PrefixList) && ValidOptName(e.matches.community)
    && (e.sets.community.Some? ==> ValidText(e.sets.community.value, 200))
    && (e.sets.asPathPrepend.Some? ==>
          && ValidText(e.sets.asPathPrepend.value, 200)
          && forall t :: t in Tokens(e.sets.asPathPrepend.value) ==> ParseUnsigned(t, U32_MAX).Some?)
    && (e.sets.ipNextHop.Some? ==> ip(e.sets.ipNextHop.value).Some?)
    && (e.sets.origin.Some? ==> IsOrigin(e.sets.origin.value))
  }

  /** The numbers of an entry arrive as 64-bit values. */
  predicate FitsTypes(e: Entry) {
    && FitsU64(e.matches.metric) && FitsU64(e.matches.tag)
    && FitsU64(e.sets.localPreference) && FitsU64(e.sets.metric) && FitsU64(e.sets.tag)
  }

  lemma CheckedEntryIsValid(ip: string -> Option<bool>, e: Entry)
    requires ParsesWords(ip) && FitsTypes(e) && CheckEntry(ip, e)
    ensures ValidEntry(e)
  {
    hide Tokens, ValidName, ValidText, IsWord, IsOrigin, ParseUnsigned;
  }

  // ----------------------------------------------------------------- the writes

  ghost predicate MatchesOn(m: RouteMap, name: string) {
    exists i :: 0 <= i < |m.entries| && (m.entries[i].matches.ipPrefixList == Some(name) || m.entries[i].matches.ipv6PrefixList == Some(name))
  }

  predicate EntryMatchesOn(e: Entry, name: string) {
    e.matches.ipPrefixList == Some(name) || e.matches.ipv6PrefixList == Some(name)
  }

  function PutListCommands(st: Frr, name: string, family: string, rules: seq<PrefixRule>): seq<Command> {
    var i := FindList(st.lists, name);
    (if i < |st.lists| then [NoPrefixList(st.lists[i].family, name)] else []) + RuleCommands(family, name, rules)
  }

  /** The emitted commands leave exactly the requested list and every other object. */
  lemma PutPrefixListEffect(st: Frr, name: string, family: string, rules: seq<PrefixRule>)
    requires rules != [] && DistinctSeqs(rules)
    ensures var after := InterpretAll(st, PutListCommands(st, name, family, rules));
      && after.maps == st.maps && after.at == st.at
      && (OneFamily(st.lists) ==>
            && after == st.(lists := WithoutName(st.lists, name) + [PrefixList(name, family, rules)])
            && OneFamily(after.lists))
  {
    var i := FindList(st.lists, name);
    var cmds := RuleCommands(family, name, rules);
    ListCommandsKeepMaps(st, PutListCommands(st, name, family, rules));
    if OneFamily(st.lists) {
      WithoutNameFacts(st.lists, name);
      var st1 := st.(lists := WithoutName(st.lists, name));
      RuleCommandsBuild(st1, family, name, rules);
      if i < |st.lists| {
        var cmd := NoPrefixList(st.lists[i].family, name);
        WithoutFound(st.lists, name);
        InterpretAppend(st, [cmd], cmds);
        assert InterpretAll(st, [cmd]) == st1 by { assert [cmd][1..] == []; }
      } else {
        WithoutUnused(st.lists, family, name);
        assert [] + cmds == cmds;
      }
    }
  }

  predicate IsListCommand(c: Command) {
    c.NoPrefixList? || c.AddPrefixRule?
  }

  lemma {:induction false} RuleCommandsAreList(family: string, name: string, rules: seq<PrefixRule>)
    ensures forall c :: c in RuleCommands(family, name, rules) ==> IsListCommand(c)
  {
    if rules != [] {
      RuleCommandsAreList(family, name, rules[..|rules| - 1]);
    }
  }

  lemma {:induction false} ListCommandsKeepMaps'(st: Frr, cmds: seq<Command>)
    requires forall c :: c in cmds ==> IsListCommand(c)
    ensures InterpretAll(st, cmds).maps == st.maps && InterpretAll(st, cmds).at == st.at
    decreases |cmds|
  {
    if cmds != [] {
      assert IsListCommand(cmds[0]);
      ListCommandsKeepMaps'(Interpret(st, cmds[0]), cmds[1..]);
    }
  }

  lemma ListCommandsKeepMaps(st: Frr, cmds: seq<Command>)
    requires exists name, family, rules :: cmds == PutListCommands(st, name, family, rules)
    ensures InterpretAll(st, cmds).maps == st.maps && InterpretAll(st, cmds).at == st.at
  {
    var name, family, rules :| cmds == PutListCommands(st, name, family, rules);
    RuleCommandsAreList(family, name, rules);
    ListCommandsKeepMaps'(st, cmds);
  }

  lemma DeletePrefixListEffect(st: Frr, name: string)
    requires FindList(st.lists, name) < |st.lists|
    ensures var after := InterpretAll(st, [NoPrefixList(st.lists[FindList(st.lists, name)].family, name)]);
      && after.maps == st.maps && after.at == st.at
      && (OneFamily(st.lists) ==>
            && after == st.(lists := WithoutName(st.lists, name))
            && OneFamily(after.lists) && Unused(after.lists, name))
  {
    var cmd := NoPrefixList(st.lists[FindList(st.lists, name)].family, name);
    assert [cmd][1..] == [];
    if OneFamily(st.lists) {
      WithoutFound(st.lists, name);
      WithoutNameFacts(st.lists, name);
    }
  }

  lemma PutRouteMapEffect(st: Frr, name: string, entries: seq<Entry>, present: bool)
    requires entries != [] && DistinctEntrySeqs(entries) && DistinctMaps(st.maps) && st.at == None
    requires present <==> exists j :: 0 <= j < |st.maps| && st.maps[j].name == name
    ensures var after := InterpretAll(st, (if present then [NoRouteMap(name)] else []) + MapCommands(name, entries));
      && after == st.(maps := WithoutMap(st.maps, name) + [RouteMap(name, entries)])
      && DistinctMaps(after.maps)
  {
    var cmds := MapCommands(name, entries);
    WithoutMapDistinct(st.maps, name);
    var st1 := st.(maps := WithoutMap(st.maps, name));
    MapCommandsBuild(st1, name, entries);
    if present {
      var cmd := NoRouteMap(name);
      InterpretAppend(st, [cmd], cmds);
      assert InterpretAll(st, [cmd]) == st1 by { assert [cmd][1..] == []; }
    } else {
      WithoutAbsentMap(st.maps, name);
      assert [] + cmds == cmds;
    }
  }
}
