/** Runs of the four policy writes (`src/sonic/policy.rs`), each stopped wherever FRR stops
    taking its commands: what a write leaves, what every run keeps, and that no run leaves a
    route map matching on a prefix list it deleted. */
module PolicyRuns {
  import opened Common
  import opened Text
  import opened Policy
  import opened PolicyRoundTrip
  import opened PolicyWrites

  // --------------------------------------------------------- batches cut short

  /** The list after the first commands of a put. */
  function Begun(name: string, family: string, rules: seq<PrefixRule>): seq<PrefixList> {
    if rules == [] then [] else [PrefixList(name, family, rules)]
  }

  /** However many commands of a list put were taken: nothing happened, or the name's old
      list is gone and a first part of the new one is there. */
  ghost predicate PartlyPut(a: Frr, b: Frr, name: string, family: string, rules: seq<PrefixRule>) {
    b == a || exists m :: 0 <= m <= |rules| && b == a.(lists := WithoutName(a.lists, name) + Begun(name, family, rules[..m]))
  }

  lemma {:induction false} RuleCommandsPrefix(family: string, name: string, rules: seq<PrefixRule>, m: nat)
    requires m <= |rules|
    ensures |RuleCommands(family, name, rules)| == |rules|
    ensures RuleCommands(family, name, rules)[..m] == RuleCommands(family, name, rules[..m])
    decreases |rules|
  {
    if rules != [] {
      var front := rules[..|rules| - 1];
      if m < |rules| {
        RuleCommandsPrefix(family, name, front, m);
        assert front[..m] == rules[..m];
      } else {
        RuleCommandsPrefix(family, name, front, |front|);
        assert rules[..m] == rules;
      }
    }
  }

  lemma ListPutCutShort(st: Frr, name: string, family: string, rules: seq<PrefixRule>, n: nat)
    requires OneFamily(st.lists) && DistinctSeqs(rules) && n <= |PutListCommands(st, name, family, rules)|
    ensures PartlyPut(st, InterpretAll(st, PutListCommands(st, name, family, rules)[..n]), name, family, rules)
  {
    hide Interpret, RuleCommands, FindList;
    var cmds := PutListCommands(st, name, family, rules);
    RuleCommandsPrefix(family, name, rules, |rules|);
    WithoutNameFacts(st.lists, name);
    var gone := st.(lists := WithoutName(st.lists, name));
    var present := FindList(st.lists, name) < |st.lists|;
    var m := if present then n - 1 else n;
    if n == 0 {
      assert cmds[..0] == [];
    } else {
      RuleCommandsPrefix(family, name, rules, m);
      var adds := RuleCommands(family, name, rules[..m]);
      if present {
        var cmd := NoPrefixList(st.lists[FindList(st.lists, name)].family, name);
        WithoutFound(st.lists, name);
        assert cmds[..n] == [cmd] + adds;
        InterpretAppend(st, [cmd], adds);
        OneCommand(st, cmd);
        RemovedIs(st, cmd);
      } else {
        WithoutUnused(st.lists, family, name);
        assert cmds[..n] == adds && gone == st;
      }
      Adding(gone, family, name, rules[..m]);
    }
  }

  lemma OneCommand(st: Frr, cmd: Command)
    ensures InterpretAll(st, [cmd]) == Interpret(st, cmd)
  {
    hide Interpret;
    assert [cmd][1..] == [];
  }

  lemma RemovedIs(st: Frr, cmd: Command)
    requires cmd.NoPrefixList?
    ensures Interpret(st, cmd) == st.(lists := WithoutList(st.lists, cmd.family, cmd.name))
  {
  }

  lemma Adding(st: Frr, family: string, name: string, rules: seq<PrefixRule>)
    requires Unused(st.lists, name) && DistinctSeqs(rules)
    ensures InterpretAll(st, RuleCommands(family, name, rules)) == st.(lists := st.lists + Begun(name, family, rules))
  {
    if rules != [] {
      RuleCommandsBuild(st, family, name, rules);
    } else {
      assert st.lists + [] == st.lists;
    }
  }

  /** A command about this route map, given the entry being edited is of it. */
  predicate AboutMap(c: Command, name: string) {
    match c
    case NoRouteMap(n) => n == name
    case EnterEntry(n, _, _) => n == name
    case InEntry(_) => true
    case LeaveEntry => true
    case _ => false
  }

  predicate Editing(st: Frr, name: string) {
    st.at == None || st.at.value.0 == name
  }

  /** Such a command leaves every other map, and all lists, as they are. */
  lemma MapCommandKeeps(st: Frr, c: Command, name: string)
    requires AboutMap(c, name) && Editing(st, name) && DistinctMaps(st.maps)
    ensures var after := Interpret(st, c);
      && Editing(after, name) && after.lists == st.lists && DistinctMaps(after.maps)
      && WithoutMap(after.maps, name) == WithoutMap(st.maps, name)
  {
    match c
    case NoRouteMap(_) =>
      WithoutMapDistinct(st.maps, name);
      WithoutAbsentMap(WithoutMap(st.maps, name), name);
    case EnterEntry(_, action, n) =>
      EnterKeeps(st.maps, name, action, n);
    case InEntry(clause) =>
      if st.at.Some? {
        EditKeeps(st.maps, name, st.at.value.1, clause);
      }
    case _ =>
  }

  lemma {:induction false} EnterKeeps(maps: seq<RouteMap>, name: string, action: string, n: nat)
    requires DistinctMaps(maps)
    ensures DistinctMaps(EnterMap(maps, name, action, n)) && WithoutMap(EnterMap(maps, name, action, n), name) == WithoutMap(maps, name)
    ensures forall m :: m in EnterMap(maps, name, action, n) ==> m.name == name || m in maps
  {
    hide Enter;
    if maps != [] && maps[0].name != name {
      EnterKeeps(maps[1..], name, action, n);
      var rest := EnterMap(maps[1..], name, action, n);
      forall i | 0 <= i < |rest| ensures rest[i].name != maps[0].name {
        assert rest[i] in rest;
      }
    }
  }

  lemma {:induction false} EditKeeps(maps: seq<RouteMap>, name: string, n: nat, c: Clause)
    requires DistinctMaps(maps)
    ensures DistinctMaps(EditMap(maps, name, n, c)) && WithoutMap(EditMap(maps, name, n, c), name) == WithoutMap(maps, name)
    ensures forall m :: m in EditMap(maps, name, n, c) ==> m.name == name || m in maps
  {
    hide Edit;
    if maps != [] && maps[0].name != name {
      EditKeeps(maps[1..], name, n, c);
      var rest := EditMap(maps[1..], name, n, c);
      forall i | 0 <= i < |rest| ensures rest[i].name != maps[0].name {
        assert rest[i] in rest;
      }
    }
  }

  lemma {:induction false} MapCommandsKeep(st: Frr, cmds: seq<Command>, name: string)
    requires (forall c :: c in cmds ==> AboutMap(c, name)) && Editing(st, name) && DistinctMaps(st.maps)
    ensures var after := InterpretAll(st, cmds);
      after.lists == st.lists && DistinctMaps(after.maps) && WithoutMap(after.maps, name) == WithoutMap(st.maps, name)
    decreases |cmds|
  {
    hide Interpret, AboutMap, Editing;
    if cmds != [] {
      assert cmds[0] in cmds;
      MapCommandKeeps(st, cmds[0], name);
      MapCommandsKeep(Interpret(st, cmds[0]), cmds[1..], name);
    }
  }

  lemma {:induction false} ClauseCommandsAreInner(cs: seq<Clause>)
    ensures forall c :: c in ClauseCommands(cs) ==> c.InEntry?
  {
    if cs != [] {
      ClauseCommandsAreInner(cs[1..]);
    }
  }

  lemma {:induction false} MapCommandsAreAbout(name: string, entries: seq<Entry>)
    ensures forall c :: c in MapCommands(name, entries) ==> AboutMap(c, name)
    decreases |entries|
  {
    hide ClausesOf, ClauseCommands;
    if entries != [] {
      MapCommandsAreAbout(name, entries[..|entries| - 1]);
      ClauseCommandsAreInner(ClausesOf(entries[|entries| - 1]));
    }
  }

  // ------------------------------------------------------------------ the steps

  /** The four writes as calls of a run. */
  datatype Call =
    | PutList(name: string, family: string, rules: seq<PrefixRule>)
    | DeleteList(name: string)
    | PutMap(name: string, entries: seq<Entry>)
    | DeleteMap(name: string)

  function PutMapCommands(st: Frr, name: string, entries: seq<Entry>): seq<Command> {
    (if exists j :: 0 <= j < |st.maps| && st.maps[j].name == name then [NoRouteMap(name)] else []) + MapCommands(name, entries)
  }

  /** A batch of which FRR took the first commands, or all of them. */
  ghost predicate Cut(a: Frr, b: Frr, cmds: seq<Command>) {
    exists n: nat :: n <= |cmds| && b == InterpretAll(a, cmds[..n]).(at := None)
  }

  /** What a write leaves: nothing happened, or a first part of its commands did.  A list
      goes only while no route map matches on it, a map only while nothing else names it. */
  ghost predicate Step(a: Frr, call: Call, b: Frr, refs: seq<string>) {
    || b == a
    || match call
       case PutList(name, family, rules) => DistinctSeqs(rules) && Cut(a, b, PutListCommands(a, name, family, rules))
       case DeleteList(name) =>
         var i := FindList(a.lists, name);
         i < |a.lists| && NoneMatches(a.maps, name) && b == Interpret(a, NoPrefixList(a.lists[i].family, name))
       case PutMap(name, entries) => Cut(a, b, PutMapCommands(a, name, entries))
       case DeleteMap(name) => name !in refs && b == Interpret(a, NoRouteMap(name))
  }

  ghost predicate NoneMatches(maps: seq<RouteMap>, name: string) {
    forall m :: m in maps ==> !MatchesOn(m, name)
  }

  /** A write of lists kept the maps and the lists of other names. */
  ghost predicate OthersOfList(a: Frr, b: Frr, name: string) {
    b.maps == a.maps && b.at == None && WithoutName(b.lists, name) == WithoutName(a.lists, name)
  }

  ghost predicate OthersOfMap(a: Frr, b: Frr, name: string) {
    b.lists == a.lists && b.at == None && WithoutMap(b.maps, name) == WithoutMap(a.maps, name)
  }

  lemma PutListIsAboutLists(st: Frr, name: string, family: string, rules: seq<PrefixRule>)
    ensures forall c :: c in PutListCommands(st, name, family, rules) ==> IsListCommand(c)
  {
    hide FindList;
    RuleCommandsAreList(family, name, rules);
  }

  /** A list put taken in whole or in part leaves no name in two lists. */
  lemma ListPutKeeps(a: Frr, b: Frr, name: string, family: string, rules: seq<PrefixRule>)
    requires a.at == None && OneFamily(a.lists) && DistinctSeqs(rules) && Cut(a, b, PutListCommands(a, name, family, rules))
    ensures PartlyPut(a, b, name, family, rules) && OneFamily(b.lists) && OthersOfList(a, b, name)
  {
    hide Interpret, InterpretAll, FindList, RuleCommands, PartlyPut;
    var cmds := PutListCommands(a, name, family, rules);
    var n: nat :| n <= |cmds| && b == InterpretAll(a, cmds[..n]).(at := None);
    PutListIsAboutLists(a, name, family, rules);
    assert forall c :: c in cmds[..n] ==> c in cmds;
    ListCommandsKeepMaps'(a, cmds[..n]);
    ListPutCutShort(a, name, family, rules, n);
    PartlyPutKeeps(a, b, name, family, rules);
  }

  lemma PartlyPutKeeps(a: Frr, b: Frr, name: string, family: string, rules: seq<PrefixRule>)
    requires a.at == None && OneFamily(a.lists) && PartlyPut(a, b, name, family, rules)
    ensures OneFamily(b.lists) && OthersOfList(a, b, name)
  {
    if b != a {
      var m :| 0 <= m <= |rules| && b == a.(lists := WithoutName(a.lists, name) + Begun(name, family, rules[..m]));
      var rest := WithoutName(a.lists, name);
      WithoutNameFacts(a.lists, name);
      RemovedTwice(a.lists, name);
      NewLastGoes(rest, name, family, rules[..m]);
    }
  }

  lemma {:induction false} NewLastGoes(rest: seq<PrefixList>, name: string, family: string, rules: seq<PrefixRule>)
    requires Unused(rest, name) && OneFamily(rest)
    ensures WithoutName(rest + Begun(name, family, rules), name) == rest && OneFamily(rest + Begun(name, family, rules))
  {
    var more := Begun(name, family, rules);
    if rest == [] {
      assert rest + more == more && (more != [] ==> more[1..] == []);
    } else {
      NewLastGoes(rest[1..], name, family, rules);
      assert (rest + more)[1..] == rest[1..] + more;
      assert rest == [rest[0]] + rest[1..];
    }
  }

  lemma RemovedTwice(lists: seq<PrefixList>, name: string)
    requires OneFamily(lists)
    ensures WithoutName(WithoutName(lists, name), name) == WithoutName(lists, name)
  {
    WithoutNameFacts(lists, name);
    WithoutUnused(WithoutName(lists, name), "", name);
  }

  lemma ListDeleteKeeps(a: Frr, b: Frr, name: string)
    requires a.at == None && OneFamily(a.lists) && FindList(a.lists, name) < |a.lists|
    requires b == Interpret(a, NoPrefixList(a.lists[FindList(a.lists, name)].family, name))
    ensures OneFamily(b.lists) && OthersOfList(a, b, name) && Unused(b.lists, name)
  {
    hide FindList;
    WithoutFound(a.lists, name);
    WithoutNameFacts(a.lists, name);
    RemovedTwice(a.lists, name);
  }

  /** A map put taken in whole or in part leaves no map twice. */
  lemma MapPutKeeps(a: Frr, b: Frr, name: string, entries: seq<Entry>)
    requires a.at == None && DistinctMaps(a.maps) && Cut(a, b, PutMapCommands(a, name, entries))
    ensures DistinctMaps(b.maps) && OthersOfMap(a, b, name)
  {
    hide Interpret, InterpretAll, MapCommands;
    var cmds := PutMapCommands(a, name, entries);
    var n: nat :| n <= |cmds| && b == InterpretAll(a, cmds[..n]).(at := None);
    MapCommandsAreAbout(name, entries);
    assert forall c :: c in cmds[..n] ==> c in cmds;
    MapCommandsKeep(a, cmds[..n], name);
  }

  lemma MapDeleteKeeps(a: Frr, name: string)
    requires a.at == None && DistinctMaps(a.maps)
    ensures var b := Interpret(a, NoRouteMap(name)); DistinctMaps(b.maps) && OthersOfMap(a, b, name)
  {
    WithoutMapDistinct(a.maps, name);
    WithoutAbsentMap(WithoutMap(a.maps, name), name);
  }

  ghost predicate Sound(st: Frr) {
    st.at == None && OneFamily(st.lists) && DistinctMaps(st.maps)
  }

  /** Each step keeps it, and every object of another name. */
  lemma StepKeeps(a: Frr, call: Call, b: Frr, refs: seq<string>)
    requires Sound(a) && Step(a, call, b, refs)
    ensures Sound(b)
    ensures if call.PutList? || call.DeleteList? then OthersOfList(a, b, call.name) else OthersOfMap(a, b, call.name)
  {
    hide OneFamily, DistinctMaps, Interpret, InterpretAll, WithoutName, WithoutMap, PutListCommands, PutMapCommands, NoneMatches;
    if b != a {
      match call
      case PutList(name, family, rules) => ListPutKeeps(a, b, name, family, rules);
      case DeleteList(name) => ListDeleteKeeps(a, b, name);
      case PutMap(name, entries) => MapPutKeeps(a, b, name, entries);
      case DeleteMap(name) => MapDeleteKeeps(a, name);
    }
  }

  // ---------------------------------------------------- what a map put matches on

  /** The command brings no match on this list. */
  predicate NoMatchOn(c: Command, name: string) {
    c != InEntry(MatchIp(name)) && c != InEntry(MatchIpv6(name))
  }

  ghost predicate EntriesMatch(entries: seq<Entry>, name: string) {
    exists e :: e in entries && EntryMatchesOn(e, name)
  }

  lemma MatchesIs(m: RouteMap, name: string)
    ensures MatchesOn(m, name) <==> EntriesMatch(m.entries, name)
  {
    if MatchesOn(m, name) {
      var i :| 0 <= i < |m.entries| && (m.entries[i].matches.ipPrefixList == Some(name) || m.entries[i].matches.ipv6PrefixList == Some(name));
      assert m.entries[i] in m.entries;
    }
  }

  lemma {:induction false} EnterMatchesNone(entries: seq<Entry>, action: string, n: nat, name: string)
    requires !EntriesMatch(entries, name)
    ensures !EntriesMatch(Enter(entries, action, n), name)
  {
    if entries != [] {
      assert entries[0] in entries;
      EnterMatchesNone(entries[1..], action, n, name);
    }
  }

  lemma {:induction false} EditMatchesNone(entries: seq<Entry>, n: nat, c: Clause, name: string)
    requires !EntriesMatch(entries, name) && NoMatchOn(InEntry(c), name)
    ensures !EntriesMatch(Edit(entries, n, c), name)
  {
    hide SetClause;
    if entries != [] {
      assert entries[0] in entries;
      ClauseMatchesNone(entries[0], c, name);
      EditMatchesNone(entries[1..], n, c, name);
    }
  }

  lemma ClauseMatchesNone(e: Entry, c: Clause, name: string)
    requires !EntryMatchesOn(e, name) && NoMatchOn(InEntry(c), name)
    ensures !EntryMatchesOn(SetClause(e, c), name)
  {
    hide Tokens, Trim;
  }

  lemma {:induction false} EnterMapMatchesNone(maps: seq<RouteMap>, m: string, action: string, n: nat, name: string)
    requires NoneMatches(maps, name)
    ensures NoneMatches(EnterMap(maps, m, action, n), name)
  {
    hide Enter, MatchesOn;
    if maps == [] {
      var born := RouteMap(m, [BlankEntry(action, n)]);
      MatchesIs(born, name);
    } else {
      assert maps[0] in maps;
      MatchesIs(maps[0], name);
      EnterMatchesNone(maps[0].entries, action, n, name);
      MatchesIs(maps[0].(entries := Enter(maps[0].entries, action, n)), name);
      EnterMapMatchesNone(maps[1..], m, action, n, name);
    }
  }

  lemma {:induction false} EditMapMatchesNone(maps: seq<RouteMap>, m: string, n: nat, c: Clause, name: string)
    requires NoneMatches(maps, name) && NoMatchOn(InEntry(c), name)
    ensures NoneMatches(EditMap(maps, m, n, c), name)
  {
    hide Edit, MatchesOn, NoMatchOn;
    if maps != [] {
      assert maps[0] in maps;
      MatchesIs(maps[0], name);
      EditMatchesNone(maps[0].entries, n, c, name);
      MatchesIs(maps[0].(entries := Edit(maps[0].entries, n, c)), name);
      EditMapMatchesNone(maps[1..], m, n, c, name);
    }
  }

  lemma WithoutMapMatchesNone(maps: seq<RouteMap>, m: string, name: string)
    requires NoneMatches(maps, name)
    ensures NoneMatches(WithoutMap(maps, m), name)
  {
    hide MatchesOn;
    forall x | x in WithoutMap(maps, m) ensures !MatchesOn(x, name) {
      WithoutMapMembers(maps, m, x);
    }
  }

  /** However many commands were taken, no map matches on a list that none of them names. */
  lemma {:induction false} CommandsMatchNone(st: Frr, cmds: seq<Command>, name: string)
    requires NoneMatches(st.maps, name) && forall c :: c in cmds ==> NoMatchOn(c, name)
    ensures NoneMatches(InterpretAll(st, cmds).maps, name)
    decreases |cmds|
  {
    hide NoneMatches, NoMatchOn, EnterMap, EditMap, WithoutMap, WithoutList, PutInList;
    if cmds != [] {
      assert cmds[0] in cmds;
      match cmds[0] {
        case NoRouteMap(m) => WithoutMapMatchesNone(st.maps, m, name);
        case EnterEntry(m, action, n) => EnterMapMatchesNone(st.maps, m, action, n, name);
        case InEntry(c) =>
          if st.at.Some? {
            EditMapMatchesNone(st.maps, st.at.value.0, st.at.value.1, c, name);
          }
        case _ =>
      }
      CommandsMatchNone(Interpret(st, cmds[0]), cmds[1..], name);
    }
  }

  lemma {:induction false} ClauseCommandsAre(cs: seq<Clause>)
    ensures forall c :: c in ClauseCommands(cs) ==> c.InEntry? && c.clause in cs
  {
    if cs != [] {
      ClauseCommandsAre(cs[1..]);
    }
  }

  lemma EntryClausesMatch(e: Entry, name: string)
    requires !EntryMatchesOn(e, name)
    ensures forall c :: c in ClausesOf(e) ==> NoMatchOn(InEntry(c), name)
  {
    hide NoMatchOn, MatchClausesOf, SetClausesOf;
    MatchClausesMatch(e.matches, name);
    SetClausesMatchNone(e.sets, name);
    DescribingMatchesNone(e.description, name);
  }

  lemma MatchClausesMatch(m: MatchClauses, name: string)
    requires m.ipPrefixList != Some(name) && m.ipv6PrefixList != Some(name)
    ensures forall c :: c in MatchClausesOf(m) ==> NoMatchOn(InEntry(c), name)
  {
  }

  lemma SetClausesMatchNone(s: SetClauses, name: string)
    ensures forall c :: c in SetClausesOf(s) ==> NoMatchOn(InEntry(c), name)
  {
  }

  lemma DescribingMatchesNone(d: Option<string>, name: string)
    ensures forall c :: c in Opt(d, v => Description(v)) ==> NoMatchOn(InEntry(c), name)
  {
  }

  /** The commands of a map match on the lists its entries match on, and no other. */
  lemma {:induction false} MapCommandsMatch(m: string, entries: seq<Entry>, name: string)
    requires !EntriesMatch(entries, name)
    ensures forall c :: c in MapCommands(m, entries) ==> NoMatchOn(c, name)
    decreases |entries|
  {
    hide ClausesOf, ClauseCommands, EntryMatchesOn, MapCommands;
    MapCommandsEnd(m, entries);
    if entries != [] {
      var front, e := entries[..|entries| - 1], entries[|entries| - 1];
      assert e in entries;
      MapCommandsMatch(m, front, name);
      ClauseCommandsAre(ClausesOf(e));
      EntryClausesMatch(e, name);
    }
  }

  lemma MapCommandsEnd(m: string, entries: seq<Entry>)
    ensures entries == [] ==> MapCommands(m, entries) == []
    ensures entries != [] ==>
              MapCommands(m, entries) == MapCommands(m, entries[..|entries| - 1]) + EntryCommands(m, entries[|entries| - 1])
  {
  }

  /** The call puts a route map that matches on this list. */
  ghost predicate BringsMatch(call: Call, name: string) {
    call.PutMap? && EntriesMatch(call.entries, name)
  }

  /** Only a map put that asks for it brings a match on a list. */
  lemma StepMatchesNone(a: Frr, call: Call, b: Frr, refs: seq<string>, name: string)
    requires a.at == None && Step(a, call, b, refs) && NoneMatches(a.maps, name) && !BringsMatch(call, name)
    ensures NoneMatches(b.maps, name)
  {
    hide Interpret, InterpretAll, NoneMatches, EntriesMatch, NoMatchOn, FindList, MapCommands, RuleCommands;
    if b != a {
      match call
      case PutList(n, family, rules) =>
        var cmds := PutListCommands(a, n, family, rules);
        var k: nat :| k <= |cmds| && b == InterpretAll(a, cmds[..k]).(at := None);
        PutListIsAboutLists(a, n, family, rules);
        assert forall c :: c in cmds[..k] ==> c in cmds;
        ListCommandsKeepMaps'(a, cmds[..k]);
      case DeleteList(n) =>
        OneCommand(a, NoPrefixList(a.lists[FindList(a.lists, n)].family, n));
        ListCommandsKeepMaps'(a, [NoPrefixList(a.lists[FindList(a.lists, n)].family, n)]);
      case PutMap(n, entries) =>
        var cmds := PutMapCommands(a, n, entries);
        var k: nat :| k <= |cmds| && b == InterpretAll(a, cmds[..k]).(at := None);
        MapCommandsMatch(n, entries, name);
        forall c | c in cmds[..k] ensures NoMatchOn(c, name) {
          assert c in cmds;
          NoRouteMapMatchesNone(n, name);
        }
        CommandsMatchNone(a, cmds[..k], name);
      case DeleteMap(n) =>
        OneCommand(a, NoRouteMap(n));
        NoRouteMapMatchesNone(n, name);
        CommandsMatchNone(a, [NoRouteMap(n)], name);
    }
  }

  lemma NoRouteMapMatchesNone(m: string, name: string)
    ensures NoMatchOn(NoRouteMap(m), name)
  {
  }

  // -------------------------------------------------------------- runs of writes

  /** The lists of a name, and the maps. */
  function ListsNamed(lists: seq<PrefixList>, name: string): seq<PrefixList> {
    if lists == [] then []
    else (if lists[0].name == name then [lists[0]] else []) + ListsNamed(lists[1..], name)
  }

  function MapsNamed(maps: seq<RouteMap>, name: string): seq<RouteMap> {
    if maps == [] then []
    else (if maps[0].name == name then [maps[0]] else []) + MapsNamed(maps[1..], name)
  }

  lemma {:induction false} OtherListsStay(lists: seq<PrefixList>, name: string, other: string)
    requires other != name
    ensures ListsNamed(WithoutName(lists, name), other) == ListsNamed(lists, other)
  {
    if lists != [] {
      OtherListsStay(lists[1..], name, other);
      var rest := WithoutName(lists[1..], name);
      assert ([lists[0]] + rest)[1..] == rest;
    }
  }

  lemma {:induction false} OtherMapsStay(maps: seq<RouteMap>, name: string, other: string)
    requires other != name
    ensures MapsNamed(WithoutMap(maps, name), other) == MapsNamed(maps, other)
  {
    if maps != [] {
      OtherMapsStay(maps[1..], name, other);
      var rest := WithoutMap(maps[1..], name);
      assert ([maps[0]] + rest)[1..] == rest;
    }
  }

  /** The states of a run: each call starts from what the last one left. */
  ghost predicate IsRun(states: seq<Frr>, calls: seq<Call>, refs: seq<string>) {
    && |states| == |calls| + 1
    && Sound(states[0])
    && forall i :: 0 <= i < |calls| ==> Step(states[i], calls[i], states[i + 1], refs)
  }

  ghost predicate PutsList(calls: seq<Call>, name: string) {
    exists c :: c in calls && c.PutList? && c.name == name
  }

  ghost predicate WritesList(calls: seq<Call>, name: string) {
    PutsList(calls, name) || exists c :: c in calls && c.DeleteList? && c.name == name
  }

  /** A map that something outside the policy names is only ever put. */
  ghost predicate WritesMap(calls: seq<Call>, name: string, refs: seq<string>) {
    || (exists c :: c in calls && c.PutMap? && c.name == name)
    || (name !in refs && exists c :: c in calls && c.DeleteMap? && c.name == name)
  }

  lemma CallsGrow(calls: seq<Call>, call: Call, name: string, refs: seq<string>)
    ensures PutsList(calls + [call], name) <==> PutsList(calls, name) || (call.PutList? && call.name == name)
    ensures WritesList(calls + [call], name) <==> WritesList(calls, name) || ((call.PutList? || call.DeleteList?) && call.name == name)
    ensures WritesMap(calls + [call], name, refs)
       <==> WritesMap(calls, name, refs) || (call.name == name && (call.PutMap? || (call.DeleteMap? && name !in refs)))
  {
    assert call in calls + [call];
    assert forall c :: c in calls + [call] <==> c in calls || c == call;
  }

  lemma StepKeepsLists(a: Frr, call: Call, b: Frr, refs: seq<string>, name: string)
    requires Sound(a) && Step(a, call, b, refs) && !((call.PutList? || call.DeleteList?) && call.name == name)
    ensures ListsNamed(b.lists, name) == ListsNamed(a.lists, name)
  {
    hide Step, Sound, ListsNamed, WithoutName, WithoutMap;
    StepKeeps(a, call, b, refs);
    if call.PutList? || call.DeleteList? {
      OtherListsStay(a.lists, call.name, name);
      OtherListsStay(b.lists, call.name, name);
    }
  }

  lemma StepKeepsMaps(a: Frr, call: Call, b: Frr, refs: seq<string>, name: string)
    requires Sound(a) && Step(a, call, b, refs) && !(call.name == name && (call.PutMap? || (call.DeleteMap? && name !in refs)))
    ensures MapsNamed(b.maps, name) == MapsNamed(a.maps, name)
  {
    hide Sound, MapsNamed, WithoutName, WithoutMap, Interpret, Cut, NoneMatches;
    StepKeeps(a, call, b, refs);
    if call.PutMap? || (call.DeleteMap? && call.name != name) {
      OtherMapsStay(a.maps, call.name, name);
      OtherMapsStay(b.maps, call.name, name);
    }
  }

  /** Over every run of the four writes, each stopped anywhere: no prefix-list name comes
      into two lists, of one family or both, no route map stands twice, and a list or map
      that no call of the run writes is what it was. */
  lemma {:induction false} EveryRunKeeps(states: seq<Frr>, calls: seq<Call>, refs: seq<string>, n: nat)
    requires IsRun(states, calls, refs) && n <= |calls|
    ensures Sound(states[n])
    ensures forall name :: !WritesList(calls[..n], name) ==> ListsNamed(states[n].lists, name) == ListsNamed(states[0].lists, name)
    ensures forall name :: !WritesMap(calls[..n], name, refs) ==> MapsNamed(states[n].maps, name) == MapsNamed(states[0].maps, name)
    decreases n
  {
    hide Sound, ListsNamed, MapsNamed, Step, WritesList, WritesMap;
    if n > 0 {
      EveryRunKeeps(states, calls, refs, n - 1);
      var a, call, b := states[n - 1], calls[n - 1], states[n];
      assert Step(a, call, b, refs);
      StepKeeps(a, call, b, refs);
      assert calls[..n] == calls[..n - 1] + [call];
      forall name | !WritesList(calls[..n], name) ensures ListsNamed(b.lists, name) == ListsNamed(states[0].lists, name) {
        CallsGrow(calls[..n - 1], call, name, refs);
        StepKeepsLists(a, call, b, refs, name);
      }
      forall name | !WritesMap(calls[..n], name, refs) ensures MapsNamed(b.maps, name) == MapsNamed(states[0].maps, name) {
        CallsGrow(calls[..n - 1], call, name, refs);
        StepKeepsMaps(a, call, b, refs, name);
      }
    }
  }

  lemma {:induction false} InMapsNamed(maps: seq<RouteMap>, m: RouteMap)
    ensures m in MapsNamed(maps, m.name) <==> m in maps
  {
    if maps != [] {
      InMapsNamed(maps[1..], m);
      assert m in maps <==> m == maps[0] || m in maps[1..];
    }
  }

  /** A list that a route map matches on is never lost: while no call of the run writes that
      map or puts the list, the list is what it was, whatever deletions were asked for. */
  lemma {:induction false} MatchedListStays(states: seq<Frr>, calls: seq<Call>, refs: seq<string>, n: nat, m: RouteMap, name: string)
    requires IsRun(states, calls, refs) && n <= |calls|
    requires m in states[0].maps && MatchesOn(m, name) && !WritesMap(calls[..n], m.name, refs) && !PutsList(calls[..n], name)
    ensures m in states[n].maps && ListsNamed(states[n].lists, name) == ListsNamed(states[0].lists, name)
    decreases n
  {
    hide Sound, ListsNamed, MapsNamed, WritesList, WritesMap, PutsList, MatchesOn, Interpret, Cut, FindList;
    if n > 0 {
      var a, call, b := states[n - 1], calls[n - 1], states[n];
      assert calls[..n] == calls[..n - 1] + [call];
      CallsGrow(calls[..n - 1], call, name, refs);
      CallsGrow(calls[..n - 1], call, m.name, refs);
      MatchedListStays(states, calls, refs, n - 1, m, name);
      EveryRunKeeps(states, calls, refs, n - 1);
      EveryRunKeeps(states, calls, refs, n);
      InMapsNamed(states[0].maps, m);
      InMapsNamed(b.maps, m);
      assert Step(a, call, b, refs);
      if call.DeleteList? && call.name == name {
        assert b == a;
      } else {
        StepKeepsLists(a, call, b, refs, name);
      }
    }
  }

  lemma {:induction false} NoneNamed(lists: seq<PrefixList>, name: string)
    ensures ListsNamed(lists, name) == [] <==> Unused(lists, name)
  {
    if lists != [] {
      NoneNamed(lists[1..], name);
      assert lists == [lists[0]] + lists[1..];
    }
  }

  /** No run leaves a route map matching on a list it deleted: after a deletion that took
      effect the list stays away until it is put again, and no map matches on it until a map
      is put that asks for it. */
  lemma {:induction false} DeletedListUnmatched(states: seq<Frr>, calls: seq<Call>, refs: seq<string>, i: nat, n: nat)
    requires IsRun(states, calls, refs) && i < n <= |calls| && calls[i].DeleteList? && states[i + 1] != states[i]
    ensures (forall c :: c in calls[i + 1..n] ==> !BringsMatch(c, calls[i].name)) ==> NoneMatches(states[n].maps, calls[i].name)
    ensures !PutsList(calls[i + 1..n], calls[i].name) ==> Unused(states[n].lists, calls[i].name)
    decreases n
  {
    hide Sound, OneFamily, ListsNamed, PutsList, NoneMatches, BringsMatch, Interpret, InterpretAll, PutListCommands, PutMapCommands, FindList;
    var name := calls[i].name;
    var a, call, b := states[n - 1], calls[n - 1], states[n];
    EveryRunKeeps(states, calls, refs, n - 1);
    assert Step(a, call, b, refs);
    SoundAtRest(a);
    if n == i + 1 {
      StepKeeps(a, call, b, refs);
      ListDeleteKeeps(a, b, name);
    } else {
      DeletedListUnmatched(states, calls, refs, i, n - 1);
      assert calls[i + 1..n] == calls[i + 1..n - 1] + [call];
      CallsGrow(calls[i + 1..n - 1], call, name, refs);
      if forall c :: c in calls[i + 1..n] ==> !BringsMatch(c, name) {
        StepMatchesNone(a, call, b, refs, name);
      }
      NoneNamed(a.lists, name);
      NoneNamed(b.lists, name);
      if !PutsList(calls[i + 1..n], name) {
        UnusedStays(a, call, b, refs, name);
      }
    }
  }

  lemma SoundAtRest(st: Frr)
    requires Sound(st)
    ensures st.at == None && OneFamily(st.lists) && DistinctMaps(st.maps)
  {
  }

  lemma UnusedStays(a: Frr, call: Call, b: Frr, refs: seq<string>, name: string)
    requires Sound(a) && Step(a, call, b, refs) && Unused(a.lists, name) && !(call.PutList? && call.name == name)
    ensures Unused(b.lists, name)
  {
    hide Sound, OneFamily, Cut, NoneMatches, Interpret;
    if call.DeleteList? && call.name == name {
      assert b == a;
    } else {
      StepKeepsLists(a, call, b, refs, name);
      NoneNamed(a.lists, name);
      NoneNamed(b.lists, name);
    }
  }
}
