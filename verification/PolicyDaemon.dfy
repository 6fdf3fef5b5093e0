/** The four policy writes (`src/sonic/policy.rs`) as the agent runs them: FRR is seen
    through the text of its running configuration and driven by command lines, which it may
    stop taking at any point. */
module PolicyDaemon {
  import opened Common
  import opened Text
  import opened Policy
  import opened PolicyRoundTrip
  import opened PolicyTheorems
  import opened PolicyWrites
  import opened PolicyRuns

  // ---------------------------------------------------------- the emitted text

  /** The rule commands read, line by line, as the printed list. */
  lemma {:induction false} RuleLines(family: string, name: string, rules: seq<PrefixRule>)
    ensures CommandLines(RuleCommands(family, name, rules)) == PrefixListLines(PrefixList(name, family, rules), rules)
    decreases |rules|
  {
    hide PrefixLine, CommandLine;
    if rules != [] {
      var front, r := rules[..|rules| - 1], rules[|rules| - 1];
      var cmd := AddPrefixRule(family, name, r);
      RuleLines(family, name, front);
      CommandLinesAppend(RuleCommands(family, name, front), [cmd]);
      RuleLine(family, name, rules, r);
      SameLines(PrefixList(name, family, front), PrefixList(name, family, rules), front);
      LinesAppend(PrefixList(name, family, rules), front, r);
      assert front + [r] == rules;
    }
  }

  lemma RuleLine(family: string, name: string, rules: seq<PrefixRule>, r: PrefixRule)
    ensures CommandLine(AddPrefixRule(family, name, r)) == PrefixLine(PrefixList(name, family, rules), r)
  {
  }

  lemma {:induction false} SameLines(a: PrefixList, b: PrefixList, rules: seq<PrefixRule>)
    requires a.name == b.name && a.family == b.family
    ensures PrefixListLines(a, rules) == PrefixListLines(b, rules)
  {
    if rules != [] {
      SameLines(a, b, rules[1..]);
    }
  }

  lemma {:induction false} LinesAppend(l: PrefixList, rules: seq<PrefixRule>, r: PrefixRule)
    ensures PrefixListLines(l, rules + [r]) == PrefixListLines(l, rules) + [PrefixLine(l, r)]
  {
    hide PrefixLine;
    if rules == [] {
      assert [r][1..] == [] && rules + [r] == [r];
    } else {
      LinesAppend(l, rules[1..], r);
      assert (rules + [r])[1..] == rules[1..] + [r];
    }
  }

  lemma {:induction false} ClauseCommandLines(cs: seq<Clause>)
    ensures CommandLines(ClauseCommands(cs)) == ClauseLines(cs)
  {
    hide ClauseLine;
    if cs != [] {
      ClauseCommandLines(cs[1..]);
      assert ClauseCommands(cs) == [InEntry(cs[0])] + ClauseCommands(cs[1..]);
      CommandLinesAppend([InEntry(cs[0])], ClauseCommands(cs[1..]));
    }
  }

  /** The commands of an entry read as its printed text. */
  lemma EntryLines(name: string, e: Entry)
    ensures CommandLines(EntryCommands(name, e)) == EntryText(name, e)
  {
    hide ClauseLine, ClausesOf, EntryHeader;
    var enter := EnterEntry(name, e.action, e.seqNo);
    var body := ClauseCommands(ClausesOf(e));
    CommandLinesAppend([enter] + body, [LeaveEntry]);
    CommandLinesAppend([enter], body);
    ClauseCommandLines(ClausesOf(e));
    EntryHeaderLine(name, e);
  }

  lemma EntryHeaderLine(name: string, e: Entry)
    ensures CommandLine(EnterEntry(name, e.action, e.seqNo)) == EntryHeader(name, e)
  {
  }

  lemma {:induction false} MapLines(name: string, entries: seq<Entry>)
    ensures CommandLines(MapCommands(name, entries)) == MapText(name, entries)
    decreases |entries|
  {
    hide EntryCommands, EntryText;
    if entries != [] {
      var front, e := entries[..|entries| - 1], entries[|entries| - 1];
      MapLines(name, front);
      CommandLinesAppend(MapCommands(name, front), EntryCommands(name, e));
      EntryLines(name, e);
      MapTextAppend(name, front, e);
      assert front + [e] == entries;
    }
  }

  lemma {:induction false} MapTextAppend(name: string, entries: seq<Entry>, e: Entry)
    ensures MapText(name, entries + [e]) == MapText(name, entries) + EntryText(name, e)
  {
    hide EntryText;
    if entries == [] {
      assert [e][1..] == [] && entries + [e] == [e];
    } else {
      MapTextAppend(name, entries[1..], e);
      assert (entries + [e])[1..] == entries[1..] + [e];
    }
  }

  // --------------------------------------------------------- what the text shows

  /** The parser's normal form changes no name, family or match. */
  lemma {:induction false} ListsShown(lists: seq<PrefixList>, name: string)
    ensures |NormLists(lists)| == |lists|
    ensures forall i :: 0 <= i < |lists| ==> NormLists(lists)[i].name == lists[i].name && NormLists(lists)[i].family == lists[i].family
    ensures FindList(NormLists(lists), name) == FindList(lists, name)
  {
    hide NormRules;
    if lists != [] {
      ListsShown(lists[1..], name);
      assert NormLists(lists)[1..] == NormLists(lists[1..]);
    }
  }

  lemma MapsShown(maps: seq<RouteMap>)
    ensures |NormMaps(maps)| == |maps|
    ensures forall i :: 0 <= i < |maps| ==> NormMaps(maps)[i].name == maps[i].name
    ensures forall i, name :: 0 <= i < |maps| ==> (MatchesOn(NormMaps(maps)[i], name) <==> MatchesOn(maps[i], name))
  {
    hide MatchesOn;
    forall i, name | 0 <= i < |maps| ensures MatchesOn(NormMaps(maps)[i], name) <==> MatchesOn(maps[i], name) {
      MatchShown(maps[i], name);
    }
  }

  lemma MatchShown(m: RouteMap, name: string)
    ensures MatchesOn(NormMap(m), name) <==> MatchesOn(m, name)
  {
    hide NormEntry;
    EntriesShown(m.entries);
  }

  lemma {:induction false} EntriesShown(es: seq<Entry>)
    ensures |NormEntries(es)| == |es| && forall i :: 0 <= i < |es| ==> NormEntries(es)[i].matches == es[i].matches
  {
    if es != [] {
      EntriesShown(es[1..]);
    }
  }

  // ------------------------------------------------------------------ the daemon

  /** FRR: its policy objects and the route-map names that its other configuration uses.
      The agent sees neither, only the running configuration printed from them. */
  class Daemon {
    ghost var frr: Frr
    ghost var refs: seq<string>

    ghost predicate Valid()
      reads this
    {
      frr.at == None && DistinctMaps(frr.maps)
    }

    /** The text parses to the objects, in the parser's normal form, and the references;
        `PolicyTheorems.ParseOfRunning` says that printing them amid the rest of a
        configuration gives such a text. */
    ghost predicate Shows(running: string)
      reads this
    {
      ParsePolicy(running) == Running(NormLists(frr.lists), NormMaps(frr.maps), refs)
    }

    constructor (ghost refs: seq<string>)
      ensures Valid() && frr == Frr([], [], None) && this.refs == refs
    {
      this.frr := Frr([], [], None);
      this.refs := refs;
    }

    /** One vtysh batch: FRR takes the commands these lines spell, or the first of them. */
    method Configure(lines: seq<string>, v: Vtysh, ghost cmds: seq<Command>) returns (r: WriteResult)
      requires lines == CommandLines(cmds)
      modifies this`frr
      ensures r == if v.stops == None then Done else Internal
      ensures frr == InterpretAll(old(frr), Taken(cmds, v.stops)).(at := None)
    {
      frr := InterpretAll(frr, Taken(cmds, v.stops)).(at := None);
      r := if v.stops == None then Done else Internal;
    }

    /** Replace one prefix list; `lines` is what is emitted. */
    method PutPrefixList(ip: string -> Option<bool>, supported: bool, v: Vtysh, name: string, family: string, rules: seq<PrefixRule>)
      returns (r: WriteResult, lines: seq<string>)
      requires Valid() && (v.shown.Some? ==> Shows(v.shown.value))
      modifies this`frr
      ensures Valid()
      ensures r == if !supported then Conflict
                   else if !(ValidName(name) && family in {"ipv4", "ipv6"} && rules != [] && DistinctSeqs(rules)
                             && forall i :: 0 <= i < |rules| ==> CheckRule(ip, family, rules[i])) then BadRequest
                   else if v.shown == None || v.stops.Some? then Internal else Done
      ensures r !in {Done, Internal} ==> frr == old(frr)
      // wherever the session stopped taking commands
      ensures Step(old(frr), PutList(name, family, rules), frr, refs)
      // the old list goes whatever its family, and the rest is the printed list
      ensures r.Done? ==>
                var i := FindList(old(frr).lists, name);
                lines == (if i < |old(frr).lists| then [CommandLine(NoPrefixList(old(frr).lists[i].family, name))] else [])
                         + PrefixListLines(PrefixList(name, family, rules), rules)
      // exactly the requested list, every other object as before
      ensures r.Done? && OneFamily(old(frr).lists) ==>
                frr == old(frr).(lists := WithoutName(old(frr).lists, name) + [PrefixList(name, family, rules)])
      ensures frr.maps == old(frr).maps
    {
      hide ValidName, CheckRule, InterpretAll, RuleCommands, OneFamily, WithoutName, PrefixListLines, CommandLine, NormLists, NormMaps,
           Lines, Trim, FindList;
      lines := [];
      if !supported {
        r := Conflict;
        return;
      }
      if !ValidName(name) || family !in {"ipv4", "ipv6"} || rules == [] {
        r := BadRequest;
        return;
      }
      var ok := RulesOk(ip, family, rules);
      if !ok {
        r := BadRequest;
        return;
      }
      if v.shown == None {
        r := Internal;
        return;
      }
      var running := ParseRunningConfig(v.shown.value);
      ListsShown(frr.lists, name);
      var i := FindList(running.prefixLists, name);
      if i < |running.prefixLists| {
        lines := [CommandLine(NoPrefixList(running.prefixLists[i].family, name))];
      }
      ghost var before, head := frr, lines;
      ghost var cmds := PutListCommands(frr, name, family, rules);
      var adds := EmitRules(family, name, rules);
      lines := lines + adds;
      PutListLines(frr, name, family, rules);
      PutPrefixListEffect(frr, name, family, rules);
      r := Configure(lines, v, cmds);
      TakenIsCut(before, frr, cmds, v.stops);
      PutListKeepsMaps(before, name, family, rules, v.stops);
    }

    /** Refused while a route map matches on the list. */
    method DeletePrefixList(supported: bool, v: Vtysh, name: string) returns (r: WriteResult)
      requires Valid() && (v.shown.Some? ==> Shows(v.shown.value))
      modifies this`frr
      ensures Valid()
      ensures r == if !supported then Conflict
                   else if !ValidName(name) then BadRequest
                   else if v.shown == None then Internal
                   else if forall l :: l in old(frr).lists ==> l.name != name then NotFound
                   else if exists m :: m in old(frr).maps && MatchesOn(m, name) then Conflict
                   else if v.stops.Some? then Internal else Done
      ensures r !in {Done, Internal} ==> frr == old(frr)
      ensures frr == old(frr) || forall m :: m in frr.maps ==> !MatchesOn(m, name)
      ensures r.Done? && OneFamily(old(frr).lists) ==>
                frr == old(frr).(lists := WithoutName(old(frr).lists, name)) && Unused(frr.lists, name)
      // taken or not
      ensures Step(old(frr), DeleteList(name), frr, refs)
      ensures frr.maps == old(frr).maps
    {
      hide ValidName, InterpretAll, OneFamily, WithoutName, NormLists, NormMaps, MatchesOn, Lines, Trim, CommandLine;
      if !supported { return Conflict; }
      if !ValidName(name) { return BadRequest; }
      if v.shown == None { return Internal; }
      var running := ParseRunningConfig(v.shown.value);
      ListsShown(frr.lists, name);
      MapsShown(frr.maps);
      var i := FindList(running.prefixLists, name);
      if i == |running.prefixLists| { return NotFound; }
      assert frr.lists[i] in frr.lists;
      var used := SomeMapMatches(running.routeMaps, name);
      if used {
        ghost var j :| 0 <= j < |running.routeMaps| && MatchesOn(running.routeMaps[j], name);
        assert frr.maps[j] in frr.maps;
        return Conflict;
      }
      ghost var before := frr;
      ghost var cmd := NoPrefixList(frr.lists[i].family, name);
      OneCommandLine(cmd);
      DeleteTaken(before, name, v.stops);
      r := Configure([CommandLine(NoPrefixList(running.prefixLists[i].family, name))], v, [cmd]);
      assert NoneMatches(before.maps, name);
    }

    /** Replace one route map; `lines` is what is emitted. */
    method PutRouteMap(ip: string -> Option<bool>, supported: bool, v: Vtysh, name: string, entries: seq<Entry>)
      returns (r: WriteResult, lines: seq<string>)
      requires Valid() && (v.shown.Some? ==> Shows(v.shown.value))
      modifies this`frr
      ensures Valid()
      ensures r == if !supported then Conflict
                   else if !(ValidName(name) && entries != [] && DistinctEntrySeqs(entries)
                             && forall i :: 0 <= i < |entries| ==> CheckEntry(ip, entries[i])) then BadRequest
                   else if v.shown == None || v.stops.Some? then Internal else Done
      ensures r !in {Done, Internal} ==> frr == old(frr)
      ensures r.Done? ==>
                lines == (if NoMapNamed(old(frr).maps, name) then [] else [CommandLine(NoRouteMap(name))]) + MapText(name, entries)
      // exactly the requested map, every other object as before
      ensures r.Done? ==> frr == old(frr).(maps := WithoutMap(old(frr).maps, name) + [RouteMap(name, entries)])
      // wherever the session stopped taking commands
      ensures Step(old(frr), PutMap(name, entries), frr, refs)
    {
      hide ValidName, CheckEntry, InterpretAll, MapCommands, WithoutMap, NormLists, NormMaps, MapText, EntryText, CommandLine, Lines, Trim,
           MatchesOn;
      lines := [];
      if !supported {
        r := Conflict;
        return;
      }
      if !ValidName(name) || entries == [] {
        r := BadRequest;
        return;
      }
      var ok := EntriesOk(ip, entries);
      if !ok {
        r := BadRequest;
        return;
      }
      if v.shown == None {
        r := Internal;
        return;
      }
      var running := ParseRunningConfig(v.shown.value);
      MapsShown(frr.maps);
      var present := exists j :: 0 <= j < |running.routeMaps| && running.routeMaps[j].name == name;
      assert present <==> exists j :: 0 <= j < |frr.maps| && frr.maps[j].name == name;
      if present {
        lines := [CommandLine(NoRouteMap(name))];
      }
      var adds := EmitEntries(name, entries);
      lines := lines + adds;
      ghost var before := frr;
      ghost var cmds := PutMapCommands(frr, name, entries);
      PutMapLines(name, entries, present);
      PutRouteMapEffect(frr, name, entries, present);
      r := Configure(lines, v, cmds);
      TakenIsCut(before, frr, cmds, v.stops);
      PutMapTaken(before, frr, name, entries);
    }

    /** Refused while the map is applied somewhere. */
    method DeleteRouteMap(supported: bool, v: Vtysh, name: string) returns (r: WriteResult)
      requires Valid() && (v.shown.Some? ==> Shows(v.shown.value))
      modifies this`frr
      ensures Valid()
      ensures r == if !supported then Conflict
                   else if !ValidName(name) then BadRequest
                   else if v.shown == None then Internal
                   else if NoMapNamed(old(frr).maps, name) then NotFound
                   else if name in refs then Conflict
                   else if v.stops.Some? then Internal else Done
      ensures r !in {Done, Internal} ==> frr == old(frr)
      ensures frr == old(frr) || (name !in refs && frr == old(frr).(maps := WithoutMap(old(frr).maps, name)) && NoMapNamed(frr.maps, name))
      ensures r.Done? ==> frr == old(frr).(maps := WithoutMap(old(frr).maps, name))
      // taken or not
      ensures Step(old(frr), DeleteMap(name), frr, refs)
    {
      hide ValidName, NormLists, NormMaps, Lines, Trim, CommandLine, MatchesOn;
      if !supported { return Conflict; }
      if !ValidName(name) { return BadRequest; }
      if v.shown == None { return Internal; }
      var running := ParseRunningConfig(v.shown.value);
      MapsShown(frr.maps);
      if !exists j :: 0 <= j < |running.routeMaps| && running.routeMaps[j].name == name { return NotFound; }
      assert !NoMapNamed(frr.maps, name);
      if name in running.refs { return Conflict; }
      WithoutMapDistinct(frr.maps, name);
      WithoutAbsentMap(WithoutMap(frr.maps, name), name);
      ghost var cmd := NoRouteMap(name);
      OneCommandLine(cmd);
      OneCommand(frr, cmd);
      assert [cmd][..0] == [];
      r := Configure([CommandLine(NoRouteMap(name))], v, [cmd]);
    }
  }

  lemma TakenIsCut(a: Frr, b: Frr, cmds: seq<Command>, stops: Option<nat>)
    requires b == InterpretAll(a, Taken(cmds, stops)).(at := None)
    ensures Cut(a, b, cmds)
  {
    hide InterpretAll;
    var n := |Taken(cmds, stops)|;
    assert Taken(cmds, stops) == cmds[..n];
  }

  /** The deletion of a list is one command, taken or not. */
  lemma DeleteTaken(st: Frr, name: string, stops: Option<nat>)
    requires st.at == None && FindList(st.lists, name) < |st.lists|
    ensures var cmd := NoPrefixList(st.lists[FindList(st.lists, name)].family, name);
      var after := InterpretAll(st, Taken([cmd], stops));
      && after.maps == st.maps && after.at == None
      && (after == st || after == Interpret(st, cmd))
      && (OneFamily(st.lists) && stops == None ==> after == st.(lists := WithoutName(st.lists, name)) && Unused(after.lists, name))
  {
    hide FindList;
    var cmd := NoPrefixList(st.lists[FindList(st.lists, name)].family, name);
    assert [cmd][..0] == [];
    OneCommand(st, cmd);
    if OneFamily(st.lists) {
      WithoutFound(st.lists, name);
      WithoutNameFacts(st.lists, name);
    }
  }

  lemma PutListKeepsMaps(st: Frr, name: string, family: string, rules: seq<PrefixRule>, stops: Option<nat>)
    ensures InterpretAll(st, Taken(PutListCommands(st, name, family, rules), stops)).maps == st.maps
  {
    hide InterpretAll, FindList, RuleCommands;
    var cmds := PutListCommands(st, name, family, rules);
    PutListIsAboutLists(st, name, family, rules);
    assert forall c :: c in Taken(cmds, stops) ==> c in cmds;
    ListCommandsKeepMaps'(st, Taken(cmds, stops));
  }

  lemma PutMapTaken(a: Frr, b: Frr, name: string, entries: seq<Entry>)
    requires a.at == None && DistinctMaps(a.maps) && Cut(a, b, PutMapCommands(a, name, entries))
    ensures b.lists == a.lists && b.at == None && DistinctMaps(b.maps)
  {
    hide Cut, DistinctMaps;
    MapPutKeeps(a, b, name, entries);
  }

  lemma OneCommandLine(cmd: Command)
    ensures CommandLines([cmd]) == [CommandLine(cmd)]
  {
    hide CommandLine;
  }

  lemma PutListLines(st: Frr, name: string, family: string, rules: seq<PrefixRule>)
    ensures var i := FindList(st.lists, name);
      CommandLines(PutListCommands(st, name, family, rules))
      == (if i < |st.lists| then [CommandLine(NoPrefixList(st.lists[i].family, name))] else [])
         + PrefixListLines(PrefixList(name, family, rules), rules)
  {
    hide CommandLine, FindList;
    RuleLines(family, name, rules);
    var i := FindList(st.lists, name);
    var head := if i < |st.lists| then [NoPrefixList(st.lists[i].family, name)] else [];
    CommandLinesAppend(head, RuleCommands(family, name, rules));
    if i < |st.lists| {
      OneCommandLine(head[0]);
    }
  }

  lemma PutMapLines(name: string, entries: seq<Entry>, present: bool)
    ensures CommandLines((if present then [NoRouteMap(name)] else []) + MapCommands(name, entries))
         == (if present then [CommandLine(NoRouteMap(name))] else []) + MapText(name, entries)
  {
    hide CommandLine, MapCommands;
    MapLines(name, entries);
    var head := if present then [NoRouteMap(name)] else [];
    CommandLinesAppend(head, MapCommands(name, entries));
    if present {
      OneCommandLine(head[0]);
    }
  }

  // ----------------------------------------------------------------- the loops

  method SomeMapMatches(maps: seq<RouteMap>, name: string) returns (used: bool)
    ensures used <==> exists j :: 0 <= j < |maps| && MatchesOn(maps[j], name)
  {
    used := exists j, k :: 0 <= j < |maps| && 0 <= k < |maps[j].entries| && EntryMatchesOn(maps[j].entries[k], name);
  }

  /** The loop that prints the rules. */
  method EmitRules(family: string, name: string, rules: seq<PrefixRule>) returns (lines: seq<string>)
    ensures lines == PrefixListLines(PrefixList(name, family, rules), rules)
  {
    hide PrefixLine;
    var l := PrefixList(name, family, rules);
    lines := [];
    for j := 0 to |rules|
      invariant lines == PrefixListLines(l, rules[..j])
    {
      assert rules[..j + 1] == rules[..j] + [rules[j]];
      LinesAppend(l, rules[..j], rules[j]);
      lines := lines + [PrefixLine(l, rules[j])];
    }
    assert rules[..|rules|] == rules;
  }

  method EmitEntries(name: string, entries: seq<Entry>) returns (lines: seq<string>)
    ensures lines == MapText(name, entries)
  {
    hide EntryText;
    lines := [];
    for j := 0 to |entries|
      invariant lines == MapText(name, entries[..j])
    {
      assert entries[..j + 1] == entries[..j] + [entries[j]];
      MapTextAppend(name, entries[..j], entries[j]);
      lines := lines + EntryText(name, entries[j]);
    }
    assert entries[..|entries|] == entries;
  }

  method RulesOk(ip: string -> Option<bool>, family: string, rules: seq<PrefixRule>) returns (ok: bool)
    ensures ok <==> DistinctSeqs(rules) && forall i :: 0 <= i < |rules| ==> CheckRule(ip, family, rules[i])
  {
    hide CheckRule;
    var seen: set<nat> := {};
    for i := 0 to |rules|
      invariant forall j :: 0 <= j < i ==> CheckRule(ip, family, rules[j])
      invariant forall j, k :: 0 <= j < k < i ==> rules[j].seqNo != rules[k].seqNo
      invariant forall n :: n in seen <==> exists j :: 0 <= j < i && rules[j].seqNo == n
    {
      if !CheckRule(ip, family, rules[i]) { return false; }
      if rules[i].seqNo in seen { return false; }
      seen := seen + {rules[i].seqNo};
    }
    ok := true;
  }

  method EntriesOk(ip: string -> Option<bool>, entries: seq<Entry>) returns (ok: bool)
    ensures ok <==> DistinctEntrySeqs(entries) && forall i :: 0 <= i < |entries| ==> CheckEntry(ip, entries[i])
  {
    hide CheckEntry;
    var seen: set<nat> := {};
    for i := 0 to |entries|
      invariant forall j :: 0 <= j < i ==> CheckEntry(ip, entries[j])
      invariant forall j, k :: 0 <= j < k < i ==> entries[j].seqNo != entries[k].seqNo
      invariant forall n :: n in seen <==> exists j :: 0 <= j < i && entries[j].seqNo == n
    {
      if !CheckEntry(ip, entries[i]) { return false; }
      if entries[i].seqNo in seen { return false; }
      seen := seen + {entries[i].seqNo};
    }
    ok := true;
  }
}
