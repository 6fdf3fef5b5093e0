/** BFD peers read back from FRR's running configuration (`src/sonic/bfd.rs`): the
    identity-line parser, the block parser, and the printer they undo. */
module Bfd {
  import opened Common
  import opened Text

  datatype Peer = Peer(
    peer: string,
    iface: Option<string>,
    local: Option<string>,
    multihop: bool,
    vrf: Option<string>,
    rx: Option<nat>,
    tx: Option<nat>,
    multiplier: Option<nat>,
    passive: bool,
    shutdown: bool)

  /** A peer with an address and every other field at its default. */
  function Fresh(address: string): Peer {
    Peer(address, None, None, false, None, None, None, None, false, false)
  }

  /** The identity of a peer, its settings at their defaults. */
  function Bare(p: Peer): Peer {
    Fresh(p.peer).(iface := p.iface, local := p.local, multihop := p.multihop, vrf := p.vrf)
  }

  // ------------------------------------------------------------ identity lines

  function Drop(ts: seq<string>, n: nat): seq<string> {
    if n <= |ts| then ts[n..] else []
  }

  function Second(ts: seq<string>): Option<string> {
    if |ts| > 1 then Some(ts[1]) else None
  }

  /** Keyword by keyword, a keyword with an argument consuming the token after it
      whatever that token is. */
  function Scan(p: Peer, ts: seq<string>): Peer
    decreases |ts|
  {
    if ts == [] then p
    else if ts[0] == "multihop" then Scan(p.(multihop := true), ts[1..])
    else if ts[0] == "local-address" then Scan(p.(local := Second(ts)), Drop(ts, 2))
    else if ts[0] == "interface" then Scan(p.(iface := Second(ts)), Drop(ts, 2))
    else if ts[0] == "vrf" then Scan(p.(vrf := Second(ts)), Drop(ts, 2))
    else Scan(p, ts[1..])
  }

  function PeerOfTokens(ts: seq<string>): Option<Peer> {
    if ts == [] then None else Some(Scan(Fresh(ts[0]), ts[1..]))
  }

  method ParsePeerLine(rest: string) returns (r: Option<Peer>)
    ensures r == PeerOfTokens(Tokens(rest))
  {
    var tokens := Tokens(rest);
    if |tokens| == 0 {
      return None;
    }
    var p := Fresh(tokens[0]);
    var i: nat := 1;
    while i < |tokens|
      invariant Scan(p, Drop(tokens, i)) == Scan(Fresh(tokens[0]), tokens[1..])
    {
      var left := Drop(tokens, i);
      assert left[0] == tokens[i] && left[1..] == Drop(tokens, i + 1) && Drop(left, 2) == Drop(tokens, i + 2);
      var next := if i + 1 < |tokens| then Some(tokens[i + 1]) else None;
      assert next == Second(left);
      match tokens[i] {
        case "multihop" =>
          p := p.(multihop := true);
          i := i + 1;
        case "local-address" =>
          p := p.(local := next);
          i := i + 2;
        case "interface" =>
          p := p.(iface := next);
          i := i + 2;
        case "vrf" =>
          p := p.(vrf := next);
          i := i + 2;
        case _ =>
          i := i + 1;
      }
    }
    r := Some(p);
  }

  function Flag(on: bool, keyword: string): seq<string> {
    if on then [keyword] else []
  }

  function Argument(keyword: string, value: Option<string>): seq<string> {
    if value.Some? then [keyword, value.value] else []
  }

  /** The words of `identity_of` after `peer`. */
  function IdentityWords(p: Peer): seq<string> {
    [p.peer] + (Flag(p.multihop, "multihop") + (Argument("local-address", p.local)
      + (Argument("interface", p.iface) + Argument("vrf", p.vrf))))
  }

  function IdentityLine(p: Peer): string {
    "peer " + Unwords(IdentityWords(p))
  }

  /** What `put_peer` lets through: addresses and checked names are words, the numbers
      fit; nothing keeps a name from being one of the keywords. */
  predicate Valid(p: Peer) {
    && IsWord(p.peer) && WordOrNone(p.iface) && WordOrNone(p.local) && WordOrNone(p.vrf)
    && (p.rx.Some? ==> p.rx.value <= U64_MAX)
    && (p.tx.Some? ==> p.tx.value <= U64_MAX)
    && (p.multiplier.Some? ==> p.multiplier.value <= U64_MAX)
  }

  lemma ScanMultihop(p: Peer, on: bool, rest: seq<string>)
    requires !p.multihop
    ensures Scan(p, Flag(on, "multihop") + rest) == Scan(p.(multihop := on), rest)
  {
    if on {
      assert (["multihop"] + rest)[1..] == rest;
    } else {
      assert [] + rest == rest;
      assert p.(multihop := false) == p;
    }
  }

  lemma ScanArgument(p: Peer, keyword: string, value: Option<string>, rest: seq<string>)
    ensures keyword == "local-address" && p.local == None ==>
              Scan(p, Argument(keyword, value) + rest) == Scan(p.(local := value), rest)
    ensures keyword == "interface" && p.iface == None ==>
              Scan(p, Argument(keyword, value) + rest) == Scan(p.(iface := value), rest)
    ensures keyword == "vrf" && p.vrf == None ==>
              Scan(p, Argument(keyword, value) + rest) == Scan(p.(vrf := value), rest)
  {
    if value.Some? {
      var ts := Argument(keyword, value) + rest;
      assert ts[0] == keyword && Second(ts) == value && Drop(ts, 2) == rest;
    } else {
      assert [] + rest == rest;
    }
  }

  lemma ScanEnds(p: Peer)
    ensures Scan(p, []) == p
  {
  }

  lemma IdentityScans(p: Peer)
    ensures PeerOfTokens(IdentityWords(p)) == Some(Bare(p))
  {
    hide Scan, Argument, Flag;
    var vrf := Argument("vrf", p.vrf);
    var iface := Argument("interface", p.iface) + vrf;
    var local := Argument("local-address", p.local) + iface;
    var a := Fresh(p.peer);
    ScanMultihop(a, p.multihop, local);
    var b := a.(multihop := p.multihop);
    ScanArgument(b, "local-address", p.local, iface);
    var c := b.(local := p.local);
    ScanArgument(c, "interface", p.iface, vrf);
    var d := c.(iface := p.iface);
    ScanArgument(d, "vrf", p.vrf, []);
    assert vrf + [] == vrf;
    ScanEnds(d.(vrf := p.vrf));
    assert IdentityWords(p)[1..] == Flag(p.multihop, "multihop") + local;
  }

  // ------------------------------------------------------------------ settings

  datatype Setting =
    | Multiplier(n: nat) | Receive(n: nat) | Transmit(n: nat)
    | Passive(on: bool) | Shutdown(on: bool)

  function Switch(on: bool, keyword: string): seq<string> {
    if on then [keyword] else ["no", keyword]
  }

  function SettingWords(s: Setting): seq<string> {
    match s
    case Multiplier(n) => ["detect-multiplier", Render(n)]
    case Receive(n) => ["receive-interval", Render(n)]
    case Transmit(n) => ["transmit-interval", Render(n)]
    case Passive(on) => Switch(on, "passive-mode")
    case Shutdown(on) => Switch(on, "shutdown")
  }

  function SettingLine(s: Setting): string {
    Unwords(SettingWords(s))
  }

  /** What a setting means for the peer it stands under. */
  function Effect(p: Peer, s: Setting): Peer {
    match s
    case Multiplier(n) => p.(multiplier := Some(n))
    case Receive(n) => p.(rx := Some(n))
    case Transmit(n) => p.(tx := Some(n))
    case Passive(on) => p.(passive := on)
    case Shutdown(on) => p.(shutdown := on)
  }

  function Effects(p: Peer, ss: seq<Setting>): Peer
    decreases |ss|
  {
    if ss == [] then p else Effects(Effect(p, ss[0]), ss[1..])
  }

  /** `parse_setting_line`: an unreadable number clears the field, an unknown line is
      ignored. */
  function ParseSetting(p: Peer, ts: seq<string>): Peer {
    if |ts| == 2 then
      if ts[0] == "detect-multiplier" then p.(multiplier := ParseUnsigned(ts[1], U64_MAX))
      else if ts[0] == "receive-interval" then p.(rx := ParseUnsigned(ts[1], U64_MAX))
      else if ts[0] == "transmit-interval" then p.(tx := ParseUnsigned(ts[1], U64_MAX))
      else if ts == ["no", "passive-mode"] then p.(passive := false)
      else if ts == ["no", "shutdown"] then p.(shutdown := false)
      else p
    else if ts == ["passive-mode"] then p.(passive := true)
    else if ts == ["shutdown"] then p.(shutdown := true)
    else p
  }

  predicate HasNumber(s: Setting) {
    s.Multiplier? || s.Receive? || s.Transmit?
  }

  predicate Fits(s: Setting) {
    HasNumber(s) ==> s.n <= U64_MAX
  }

  predicate AllFit(ss: seq<Setting>) {
    forall i :: 0 <= i < |ss| ==> Fits(ss[i])
  }

  lemma NumberParses(p: Peer, digits: string, n: nat)
    requires ParseUnsigned(digits, U64_MAX) == Some(n)
    ensures ParseSetting(p, ["detect-multiplier", digits]) == Effect(p, Multiplier(n))
    ensures ParseSetting(p, ["receive-interval", digits]) == Effect(p, Receive(n))
    ensures ParseSetting(p, ["transmit-interval", digits]) == Effect(p, Transmit(n))
  {
    hide ParseUnsigned;
    assert ["detect-multiplier", digits][1] == digits;
    assert "receive-interval"[0] == 'r' && "transmit-interval"[0] == 't' && "detect-multiplier"[0] == 'd';
  }

  lemma SwitchParses(p: Peer, on: bool)
    ensures ParseSetting(p, Switch(on, "passive-mode")) == Effect(p, Passive(on))
    ensures ParseSetting(p, Switch(on, "shutdown")) == Effect(p, Shutdown(on))
  {
    assert ["passive-mode"][0][0] == 'p' && ["shutdown"][0][0] == 's' && "no"[0] == 'n';
    assert ["no", "passive-mode"][1] == "passive-mode" && ["no", "shutdown"][1] == "shutdown";
    assert |"no"| == 2;
  }

  lemma SwitchIsWords(on: bool, keyword: string)
    requires IsWord(keyword)
    ensures AllWords(Switch(on, keyword))
  {
    assert IsWord("no");
  }

  lemma SettingParses(p: Peer, s: Setting)
    requires Fits(s)
    ensures AllWords(SettingWords(s))
    ensures ParseSetting(p, SettingWords(s)) == Effect(p, s)
  {
    hide ParseUnsigned, ParseSetting, Render, Switch;
    if HasNumber(s) {
      ParseOfRender(s.n, U64_MAX);
      RenderIsWord(s.n);
      NumberParses(p, Render(s.n), s.n);
      assert IsWord("detect-multiplier") && IsWord("receive-interval") && IsWord("transmit-interval");
    } else {
      SwitchParses(p, s.on);
      SwitchIsWords(s.on, "passive-mode");
      SwitchIsWords(s.on, "shutdown");
    }
  }

  // -------------------------------------------------------------------- blocks

  datatype State = State(inBfd: bool, inProfile: bool, current: Option<Peer>, peers: seq<Peer>, done: bool)

  const START := State(false, false, None, [], false)

  function Closed(st: State): seq<Peer> {
    if st.current.Some? then st.peers + [st.current.value] else st.peers
  }

  predicate Starts(line: string, prefix: string) {
    prefix <= line
  }

  /** One trimmed line. */
  function Step(st: State, line: string): State {
    if st.done then st
    else if !st.inBfd then st.(inBfd := line == "bfd")
    else if st.inProfile then st.(inProfile := !(line == "exit" || line == "!"))
    else if Starts(line, "peer ") then
      st.(peers := Closed(st), current := PeerOfTokens(Tokens(line[5..])))
    else if Starts(line, "profile ") then
      st.(peers := Closed(st), current := None, inProfile := true)
    else if line == "exit" || line == "!" || line == "end" then
      if st.current.Some? then st.(peers := Closed(st), current := None)
      else st.(done := line != "!")
    else if st.current.Some? then
      st.(current := Some(ParseSetting(st.current.value, Tokens(line))))
    else st
  }

  function Run(st: State, lines: seq<string>): State
    decreases |lines|
  {
    if lines == [] then st else Run(Step(st, lines[0]), lines[1..])
  }

  function TrimAll(lines: seq<string>): (r: seq<string>)
    ensures |r| == |lines| && forall i :: 0 <= i < |lines| ==> r[i] == Trim(lines[i])
  {
    seq(|lines|, i requires 0 <= i < |lines| => Trim(lines[i]))
  }

  function Peers(text: string): seq<Peer> {
    Closed(Run(START, TrimAll(Lines(text))))
  }

  lemma {:induction false} RunStopped(st: State, lines: seq<string>)
    requires st.done
    ensures Run(st, lines) == st
    decreases |lines|
  {
    if lines != [] {
      RunStopped(st, lines[1..]);
    }
  }

  lemma {:induction false} RunAppend(st: State, a: seq<string>, b: seq<string>)
    ensures Run(st, a + b) == Run(Run(st, a), b)
    decreases |a|
  {
    if a == [] {
      assert a + b == b;
    } else {
      RunAppend(Step(st, a[0]), a[1..], b);
      assert (a + b)[1..] == a[1..] + b;
    }
  }

  method ParseRunningBfd(text: string) returns (peers: seq<Peer>)
    ensures peers == Peers(text)
  {
    hide Tokens, Lines, Trim, Scan;
    var lines := Lines(text);
    ghost var all := TrimAll(lines);
    peers := [];
    var inBfd, inProfile := false, false;
    var current: Option<Peer> := None;
    var i := 0;
    while i < |lines|
      invariant 0 <= i <= |lines|
      invariant Run(START, all) == Run(State(inBfd, inProfile, current, peers, false), all[i..])
      decreases |lines| - i
    {
      var line := Trim(lines[i]);
      ghost var st := State(inBfd, inProfile, current, peers, false);
      assert all[i..][0] == line && all[i..][1..] == all[i + 1..];
      assert Run(START, all) == Run(Step(st, line), all[i + 1..]);
      i := i + 1;
      if !inBfd {
        if line == "bfd" {
          inBfd := true;
        }
        continue;
      }
      if inProfile {
        if line == "exit" || line == "!" {
          inProfile := false;
        }
        continue;
      }
      if Starts(line, "peer ") {
        if current.Some? {
          peers := peers + [current.value];
        }
        current := ParsePeerLine(line[5..]);
        continue;
      }
      if Starts(line, "profile ") {
        if current.Some? {
          peers := peers + [current.value];
          current := None;
        }
        inProfile := true;
        continue;
      }
      if line == "exit" || line == "!" || line == "end" {
        if current.Some? {
          peers := peers + [current.value];
          current := None;
        } else if line != "!" {
          RunStopped(Step(st, line), all[i..]);
          break;
        }
        continue;
      }
      if current.Some? {
        current := Some(ParseSetting(current.value, Tokens(line)));
      }
    }
    if current.Some? {
      peers := peers + [current.value];
    }
  }

  // --------------------------------------------------------- the printed block

  /** One entry of the `bfd` block.  A peer may refer to a profile between its own
      settings; profiles stand there as blocks of their own, their bodies arbitrary. */
  datatype Item =
    | Configured(p: Peer, settings: seq<Setting>, profile: Option<string>, more: seq<Setting>, bangs: nat)
    | Profile(name: string, body: seq<string>, bangs: nat)

  function SettingLines(ss: seq<Setting>): (r: seq<string>)
    ensures |r| == |ss| && forall i :: 0 <= i < |ss| ==> r[i] == SettingLine(ss[i])
  {
    seq(|ss|, i requires 0 <= i < |ss| => SettingLine(ss[i]))
  }

  function Bangs(n: nat): seq<string> {
    if n == 0 then [] else ["!"] + Bangs(n - 1)
  }

  function ProfileLine(name: string): string {
    "profile " + name
  }

  function AfterSettings(item: Item): seq<string>
    requires item.Configured?
  {
    (if item.profile.Some? then [ProfileLine(item.profile.value)] + SettingLines(item.more) else [])
    + (["exit"] + Bangs(item.bangs))
  }

  function ItemLines(item: Item): seq<string> {
    match item
    case Configured(p, settings, _, _, _) => [IdentityLine(p)] + (SettingLines(settings) + AfterSettings(item))
    case Profile(name, body, bangs) => [ProfileLine(name)] + (body + (["exit"] + Bangs(bangs)))
  }

  predicate ValidItem(item: Item) {
    match item
    case Configured(p, settings, profile, more, _) =>
      Valid(p) && AllFit(settings) && AllFit(more) && WordOrNone(profile)
    case Profile(name, body, _) =>
      IsWord(name) && forall i :: 0 <= i < |body| ==> body[i] != "exit" && body[i] != "!"
  }

  /** What the parser reports for an entry: a profile reference ends the peer. */
  function Reported(item: Item): seq<Peer> {
    if item.Configured? then [Effects(Bare(item.p), item.settings)] else []
  }

  function BlockLines(items: seq<Item>): seq<string>
    decreases |items|
  {
    if items == [] then [] else ItemLines(items[0]) + BlockLines(items[1..])
  }

  function AllReported(items: seq<Item>): seq<Peer>
    decreases |items|
  {
    if items == [] then [] else Reported(items[0]) + AllReported(items[1..])
  }

  predicate Open(st: State) {
    st.inBfd && !st.inProfile && !st.done
  }

  lemma IdentityIsWords(p: Peer)
    requires Valid(p)
    ensures AllWords(IdentityWords(p))
  {
    assert IsWord("multihop") && IsWord("local-address") && IsWord("interface") && IsWord("vrf");
    assert AllWords(Flag(p.multihop, "multihop"));
    assert AllWords(Argument("local-address", p.local));
    assert AllWords(Argument("interface", p.iface)) && AllWords(Argument("vrf", p.vrf));
  }

  lemma StepPeer(st: State, p: Peer)
    requires Open(st) && Valid(p)
    ensures Step(st, IdentityLine(p)) == st.(peers := Closed(st), current := Some(Bare(p)))
  {
    hide Tokens, Unwords, PeerOfTokens, IdentityWords, Closed, Bare;
    IdentityIsWords(p);
    TokensOfUnwords(IdentityWords(p));
    IdentityScans(p);
    var line := "peer " + Unwords(IdentityWords(p));
    assert line[5..] == Unwords(IdentityWords(p));
    assert |"peer "| == 5 && Starts(line, "peer ");
  }

  lemma SettingLineIsPlain(s: Setting)
    ensures var l := SettingLine(s);
            l != "" && !Starts(l, "peer ") && !Starts(l, "profile ") && l != "exit" && l != "!" && l != "end"
  {
    hide Render;
    var ts := SettingWords(s);
    assert "peer "[0] == 'p' && "peer "[1] == 'e' && "profile "[0] == 'p' && "profile "[1] == 'r';
    assert "exit"[0] == 'e' && "end"[0] == 'e' && "!"[0] == '!';
    if s == Passive(true) {
      assert SettingLine(s) == "passive-mode" && "passive-mode"[1] == 'a';
    } else {
      assert ts[0][0] in ['d', 'r', 't', 's', 'n'];
      assert SettingLine(s)[0] == ts[0][0];
    }
  }

  lemma StepSetting(st: State, s: Setting)
    requires Open(st) && st.current.Some? && Fits(s)
    ensures Step(st, SettingLine(s)) == st.(current := Some(Effect(st.current.value, s)))
  {
    hide Tokens, Unwords, SettingWords, ParseSetting, Effect;
    SettingLineIsPlain(s);
    SettingParses(st.current.value, s);
    TokensOfUnwords(SettingWords(s));
  }

  lemma {:induction false} RunSettings(st: State, ss: seq<Setting>)
    requires Open(st) && st.current.Some? && AllFit(ss)
    ensures Run(st, SettingLines(ss)) == st.(current := Some(Effects(st.current.value, ss)))
    decreases |ss|
  {
    hide Step, SettingLine, Effect, Fits;
    if ss != [] {
      StepSetting(st, ss[0]);
      RunSettings(st.(current := Some(Effect(st.current.value, ss[0]))), ss[1..]);
      assert SettingLines(ss)[1..] == SettingLines(ss[1..]);
    }
  }

  lemma {:induction false} RunBangs(st: State, n: nat)
    requires Open(st) && st.current == None
    ensures Run(st, Bangs(n)) == st
  {
    if n > 0 {
      assert Step(st, "!") == st;
      assert (["!"] + Bangs(n - 1))[1..] == Bangs(n - 1);
      RunBangs(st, n - 1);
    }
  }

  /** Inside a profile nothing counts but the line that ends it. */
  lemma {:induction false} RunProfileBody(st: State, body: seq<string>)
    requires st.inBfd && st.inProfile && !st.done
    requires forall i :: 0 <= i < |body| ==> body[i] != "exit" && body[i] != "!"
    ensures Run(st, body) == st
    decreases |body|
  {
    if body != [] {
      RunProfileBody(st, body[1..]);
    }
  }

  lemma StepProfileLine(st: State, name: string)
    requires Open(st)
    ensures Step(st, ProfileLine(name)) == st.(peers := Closed(st), current := None, inProfile := true)
  {
    hide Closed, PeerOfTokens, ParseSetting;
    assert "profile "[1] == 'r' && "peer "[1] == 'e';
    assert ProfileLine(name)[1] == 'r';
  }

  lemma StepProfileExit(st: State)
    requires st.inBfd && st.inProfile && !st.done
    ensures Step(st, "exit") == st.(inProfile := false)
  {
  }

  /** From a profile line to the separators after its `exit`. */
  lemma RunProfile(st: State, name: string, body: seq<string>, bangs: nat)
    requires Open(st)
    requires forall i :: 0 <= i < |body| ==> body[i] != "exit" && body[i] != "!"
    ensures Run(st, [ProfileLine(name)] + (body + (["exit"] + Bangs(bangs)))) == st.(peers := Closed(st), current := None)
  {
    hide Bangs, Closed, Step, ProfileLine;
    var after := st.(peers := Closed(st), current := None);
    var inside := after.(inProfile := true);
    var tail := ["exit"] + Bangs(bangs);
    StepProfileLine(st, name);
    assert ([ProfileLine(name)] + (body + tail))[1..] == body + tail;
    RunAppend(inside, body, tail);
    RunProfileBody(inside, body);
    StepProfileExit(inside);
    assert tail[1..] == Bangs(bangs);
    RunBangs(after, bangs);
  }

  lemma SettingLinesArePlain(ss: seq<Setting>)
    ensures forall i :: 0 <= i < |ss| ==> SettingLines(ss)[i] != "exit" && SettingLines(ss)[i] != "!"
  {
    hide SettingLine;
    forall i | 0 <= i < |ss| ensures SettingLines(ss)[i] != "exit" && SettingLines(ss)[i] != "!" {
      SettingLineIsPlain(ss[i]);
    }
  }

  lemma RunAfterSettings(st: State, item: Item)
    requires Open(st) && st.current.Some? && item.Configured?
    ensures Run(st, AfterSettings(item)) == st.(peers := Closed(st), current := None)
  {
    hide Bangs, ProfileLine;
    var tail := ["exit"] + Bangs(item.bangs);
    if item.profile.Some? {
      var name := item.profile.value;
      SettingLinesArePlain(item.more);
      RunProfile(st, name, SettingLines(item.more), item.bangs);
      assert [ProfileLine(name)] + SettingLines(item.more) + tail
        == [ProfileLine(name)] + (SettingLines(item.more) + tail);
    } else {
      assert [] + tail == tail && tail[1..] == Bangs(item.bangs);
      assert !Starts("exit", "peer ") && !Starts("exit", "profile ") by {
        assert "exit"[0] == 'e' && "peer "[0] == 'p' && "profile "[0] == 'p';
      }
      assert Step(st, "exit") == st.(peers := Closed(st), current := None);
      RunBangs(st.(peers := Closed(st), current := None), item.bangs);
    }
  }

  lemma ItemParses(st: State, item: Item)
    requires Open(st) && st.current == None && ValidItem(item)
    ensures Run(st, ItemLines(item)) == st.(peers := st.peers + Reported(item))
  {
    hide Step, IdentityLine, AfterSettings, SettingLines, Bare, Effects, Valid, AllFit;
    match item
    case Profile(name, body, bangs) =>
      RunProfile(st, name, body, bangs);
      assert st.peers + [] == st.peers;
    case Configured(p, settings, profile, more, bangs) =>
      StepPeer(st, p);
      var entered := st.(current := Some(Bare(p)));
      var lines := SettingLines(settings) + AfterSettings(item);
      assert ([IdentityLine(p)] + lines)[1..] == lines;
      RunAppend(entered, SettingLines(settings), AfterSettings(item));
      RunSettings(entered, settings);
      RunAfterSettings(entered.(current := Some(Effects(Bare(p), settings))), item);
  }

  predicate AllValid(items: seq<Item>) {
    forall i :: 0 <= i < |items| ==> ValidItem(items[i])
  }

  lemma {:induction false} BlockParses(st: State, items: seq<Item>)
    requires Open(st) && st.current == None && AllValid(items)
    ensures Run(st, BlockLines(items)) == st.(peers := st.peers + AllReported(items))
    decreases |items|
  {
    hide Step, ItemLines, Reported, ValidItem;
    if items == [] {
      assert st.peers + [] == st.peers;
    } else {
      ItemParses(st, items[0]);
      RunAppend(st, ItemLines(items[0]), BlockLines(items[1..]));
      BlockParses(st.(peers := st.peers + Reported(items[0])), items[1..]);
      assert st.peers + Reported(items[0]) + AllReported(items[1..]) == st.peers + AllReported(items);
    }
  }

  lemma {:induction false} RunBefore(lines: seq<string>)
    requires "bfd" !in lines
    ensures Run(START, lines) == START
    decreases |lines|
  {
    if lines != [] {
      assert lines[0] != "bfd" && "bfd" !in lines[1..];
      RunBefore(lines[1..]);
    }
  }

  function Printed(before: seq<string>, items: seq<Item>): seq<string> {
    before + (["bfd"] + (BlockLines(items) + ["exit"]))
  }

  lemma RunOne(st: State, line: string, rest: seq<string>)
    ensures Run(st, [line] + rest) == Run(Step(st, line), rest)
  {
    assert ([line] + rest)[1..] == rest;
  }

  lemma StepEnds(st: State)
    requires Open(st) && st.current == None
    ensures Step(START, "bfd") == START.(inBfd := true)
    ensures Step(st, "exit") == st.(done := true)
  {
    assert "exit"[0] == 'e' && "peer "[0] == 'p' && "profile "[0] == 'p';
  }

  lemma RunEnds(st: State)
    ensures Run(st, []) == st
  {
  }

  lemma RunPrinted(before: seq<string>, items: seq<Item>)
    requires "bfd" !in before && AllValid(items)
    ensures Run(START, Printed(before, items)) == State(true, false, None, AllReported(items), true)
  {
    hide Run, Step, BlockLines, AllReported, AllValid;
    var block := BlockLines(items);
    var entered := START.(inBfd := true);
    var closed := entered.(peers := AllReported(items));
    RunAppend(START, before, ["bfd"] + (block + ["exit"]));
    RunBefore(before);
    StepEnds(closed);
    RunOne(START, "bfd", block + ["exit"]);
    RunAppend(entered, block, ["exit"]);
    BlockParses(entered, items);
    assert [] + AllReported(items) == AllReported(items);
    RunOne(closed, "exit", []);
    assert ["exit"] + [] == ["exit"];
    RunEnds(Step(closed, "exit"));
  }

  /** Whatever precedes the block, however its lines are indented and whatever text
      follows its closing `exit`, the parser reports exactly the block's peers. */
  lemma ParseOfPrinted(text: string, before: seq<string>, items: seq<Item>, after: seq<string>)
    requires TrimAll(Lines(text)) == Printed(before, items) + after
    requires "bfd" !in before && AllValid(items)
    ensures Peers(text) == AllReported(items)
  {
    hide Lines, TrimAll, Run, Printed, AllReported, AllValid;
    RunPrinted(before, items);
    RunAppend(START, Printed(before, items), after);
    RunStopped(State(true, false, None, AllReported(items), true), after);
  }

  // ------------------------------------------------ when the round trip is exact

  function Members(ss: seq<Setting>): set<Setting> {
    set s | s in ss
  }

  lemma MembersFirst(ss: seq<Setting>)
    requires ss != []
    ensures Members(ss) == Members(ss[1..]) + {ss[0]}
  {
    assert ss == [ss[0]] + ss[1..];
  }

  /** The settings a peer cannot do without: one for each field that differs from its
      default. */
  predicate Covered(said: set<Setting>, p: Peer) {
    && (p.rx.Some? ==> Receive(p.rx.value) in said)
    && (p.tx.Some? ==> Transmit(p.tx.value) in said)
    && (p.multiplier.Some? ==> Multiplier(p.multiplier.value) in said)
    && (p.passive ==> Passive(true) in said)
    && (p.shutdown ==> Shutdown(true) in said)
  }

  /** Nothing said of the peer is untrue of it. */
  predicate Truthful(ss: seq<Setting>, p: Peer) {
    forall i :: 0 <= i < |ss| ==> Effect(p, ss[i]) == p
  }

  /** The settings say of the peer all that differs from the defaults, and nothing
      untrue, in any order. */
  predicate Describes(ss: seq<Setting>, p: Peer) {
    Truthful(ss, p) && Covered(Members(ss), p)
  }

  /** Between a peer with its identity only and `p`: a field is already that of `p`, or
      at its default with a setting still to come. */
  predicate Between(q: Peer, coming: set<Setting>, p: Peer) {
    && Bare(q) == Bare(p)
    && (q.rx == p.rx || (q.rx == None && p.rx.Some? && Receive(p.rx.value) in coming))
    && (q.tx == p.tx || (q.tx == None && p.tx.Some? && Transmit(p.tx.value) in coming))
    && (q.multiplier == p.multiplier || (q.multiplier == None && p.multiplier.Some? && Multiplier(p.multiplier.value) in coming))
    && (q.passive == p.passive || (p.passive && Passive(true) in coming))
    && (q.shutdown == p.shutdown || (p.shutdown && Shutdown(true) in coming))
  }

  lemma BetweenStep(q: Peer, s: Setting, rest: set<Setting>, p: Peer)
    requires Effect(p, s) == p && Between(q, rest + {s}, p)
    ensures Between(Effect(q, s), rest, p)
  {
    match s
    case Receive(n) => assert p.rx == Some(n);
    case Transmit(n) => assert p.tx == Some(n);
    case Multiplier(n) => assert p.multiplier == Some(n);
    case Passive(on) => assert p.passive == on;
    case Shutdown(on) => assert p.shutdown == on;
  }

  lemma {:induction false} EffectsReach(q: Peer, ss: seq<Setting>, p: Peer)
    requires Between(q, Members(ss), p) && Truthful(ss, p)
    ensures Effects(q, ss) == p
    decreases |ss|
  {
    if ss != [] {
      assert Effect(p, ss[0]) == p;
      MembersFirst(ss);
      BetweenStep(q, ss[0], Members(ss[1..]), p);
      EffectsReach(Effect(q, ss[0]), ss[1..], p);
    }
  }

  lemma DescribedIsReached(ss: seq<Setting>, p: Peer)
    requires Describes(ss, p)
    ensures Effects(Bare(p), ss) == p
  {
    EffectsReach(Bare(p), ss, p);
  }

  /** The settings `put_peer` writes. */
  function PutSettings(p: Peer): seq<Setting> {
    (if p.rx.Some? then [Receive(p.rx.value)] else [])
    + (if p.tx.Some? then [Transmit(p.tx.value)] else [])
    + (if p.multiplier.Some? then [Multiplier(p.multiplier.value)] else [])
    + (if p.passive then [Passive(true)] else [])
    + [Shutdown(p.shutdown)]
  }

  predicate Said(s: Setting, p: Peer) {
    match s
    case Receive(n) => p.rx == Some(n)
    case Transmit(n) => p.tx == Some(n)
    case Multiplier(n) => p.multiplier == Some(n)
    case Passive(on) => p.passive == on
    case Shutdown(on) => p.shutdown == on
  }

  lemma PutSettingsDescribe(p: Peer)
    requires Valid(p)
    ensures Describes(PutSettings(p), p) && AllFit(PutSettings(p))
  {
    var ss := PutSettings(p);
    forall s ensures s in ss <==> Said(s, p) && s != Passive(false) {
    }
    forall i | 0 <= i < |ss| ensures Effect(p, ss[i]) == p && Fits(ss[i]) {
      assert ss[i] in ss;
    }
  }

  /** An entry that prints a whole peer: all its settings, before and after the profile
      reference, describe it. */
  predicate Prints(item: Item, p: Peer) {
    item.Configured? && item.p == p && Describes(item.settings + item.more, p)
  }

  /** The peer is read back exactly when the settings after a profile reference add
      nothing to those before it; without a reference it always is. */
  lemma ReadBackExactly(item: Item, p: Peer)
    requires Prints(item, p)
    ensures Reported(item) == [p] <==> Describes(item.settings, p)
    ensures item.more == [] ==> Reported(item) == [p]
  {
    var before, all := item.settings, item.settings + item.more;
    assert forall i :: 0 <= i < |before| ==> all[i] == before[i];
    if Describes(before, p) {
      DescribedIsReached(before, p);
    } else {
      Unsaid(Bare(p), before, p);
    }
    if item.more == [] {
      assert all == before;
    }
  }

  /** A needed setting that was not said leaves its field at the default in `r`. */
  predicate Missed(q: Peer, said: set<Setting>, p: Peer, r: Peer) {
    && (q.rx == None && p.rx.Some? && Receive(p.rx.value) !in said ==> r.rx == None)
    && (q.tx == None && p.tx.Some? && Transmit(p.tx.value) !in said ==> r.tx == None)
    && (q.multiplier == None && p.multiplier.Some? && Multiplier(p.multiplier.value) !in said ==> r.multiplier == None)
    && (!q.passive && p.passive && Passive(true) !in said ==> !r.passive)
    && (!q.shutdown && p.shutdown && Shutdown(true) !in said ==> !r.shutdown)
  }

  lemma MissedStep(q: Peer, s: Setting, rest: set<Setting>, p: Peer, r: Peer)
    requires Effect(p, s) == p && Missed(Effect(q, s), rest, p, r)
    ensures Missed(q, rest + {s}, p, r)
  {
    match s
    case Receive(n) => assert p.rx == Some(n);
    case Transmit(n) => assert p.tx == Some(n);
    case Multiplier(n) => assert p.multiplier == Some(n);
    case Passive(on) => assert p.passive == on;
    case Shutdown(on) => assert p.shutdown == on;
  }

  lemma {:induction false} Unsaid(q: Peer, ss: seq<Setting>, p: Peer)
    requires Truthful(ss, p)
    ensures Missed(q, Members(ss), p, Effects(q, ss))
    decreases |ss|
  {
    hide Effect;
    if ss != [] {
      assert Effect(p, ss[0]) == p;
      Unsaid(Effect(q, ss[0]), ss[1..], p);
      MembersFirst(ss);
      MissedStep(q, ss[0], Members(ss[1..]), p, Effects(q, ss));
    }
  }

  /** A profile reference printed before a setting hides that setting: the interval of
      this peer is lost on reading back. */
  lemma ProfileReferenceHidesSettings()
    ensures exists item: Item, p: Peer :: ValidItem(item) && Prints(item, p) && p.rx == Some(300) && Reported(item) == [p.(rx := None)]
  {
    var p := Fresh("10.0.0.1").(rx := Some(300));
    var item := Configured(p, [], Some("fast"), [Receive(300)], 1);
    assert [] + [Receive(300)] == [Receive(300)];
    assert Receive(300) in Members([Receive(300)]);
    assert Effects(Bare(p), []) == p.(rx := None);
    assert IsWord("10.0.0.1") && IsWord("fast");
    assert ValidItem(item) && Prints(item, p) && p.rx == Some(300) && Reported(item) == [p.(rx := None)];
  }

  function PutItems(ps: seq<Peer>): (r: seq<Item>)
    ensures |r| == |ps| && forall i :: 0 <= i < |ps| ==> r[i] == Configured(ps[i], PutSettings(ps[i]), None, [], 1)
  {
    seq(|ps|, i requires 0 <= i < |ps| => Configured(ps[i], PutSettings(ps[i]), None, [], 1))
  }

  lemma {:induction false} PutItemsReported(ps: seq<Peer>)
    requires forall i :: 0 <= i < |ps| ==> Valid(ps[i])
    ensures AllValid(PutItems(ps)) && AllReported(PutItems(ps)) == ps
    decreases |ps|
  {
    hide Describes, Effects, Valid, PutSettings;
    forall i | 0 <= i < |ps| ensures ValidItem(PutItems(ps)[i]) {
      PutSettingsDescribe(ps[i]);
    }
    if ps != [] {
      PutSettingsDescribe(ps[0]);
      DescribedIsReached(PutSettings(ps[0]), ps[0]);
      PutItemsReported(ps[1..]);
      assert PutItems(ps)[1..] == PutItems(ps[1..]);
      assert ps == [ps[0]] + ps[1..];
    }
  }

  /** Every list of valid peers, written in the form `put_peer` sends, is read back as
      it was, whatever stands before and after the block. */
  lemma RoundTrip(text: string, before: seq<string>, ps: seq<Peer>, after: seq<string>)
    requires forall i :: 0 <= i < |ps| ==> Valid(ps[i])
    requires "bfd" !in before
    requires TrimAll(Lines(text)) == Printed(before, PutItems(ps)) + after
    ensures Peers(text) == ps
  {
    hide Lines, TrimAll, Printed, AllReported, ValidItem, Valid;
    PutItemsReported(ps);
    ParseOfPrinted(text, before, PutItems(ps), after);
  }

  // -------------------------------------------------- a text that is printed so

  /** No line break inside, nothing to trim. */
  predicate IsPlain(line: string) {
    OneLine(line) && Trim(line) == line
  }

  predicate Plain(lines: seq<string>) {
    forall i :: 0 <= i < |lines| ==> IsPlain(lines[i])
  }

  lemma WordsArePlain(ws: seq<string>)
    requires ws != [] && AllWords(ws)
    ensures IsPlain(Unwords(ws))
  {
    UnwordsTrimmed(ws);
    var line := Unwords(ws);
    TrimOfTrimmed(line);
    assert forall i :: 0 <= i < |line| ==> line[i] in line;
    assert IsSpace('\n') && IsSpace('\r');
  }

  lemma WordIsPlain(w: string)
    requires IsWord(w)
    ensures IsPlain(w)
  {
    WordsArePlain([w]);
  }

  lemma ClosersArePlain()
    ensures IsPlain("exit") && IsPlain("!") && IsPlain("bfd")
  {
    hide IsPlain;
    assert IsWord("exit") && IsWord("!") && IsWord("bfd");
    WordIsPlain("exit");
    WordIsPlain("!");
    WordIsPlain("bfd");
  }

  lemma IdentityIsPlain(p: Peer)
    requires Valid(p)
    ensures IsPlain(IdentityLine(p))
  {
    assert IdentityWords(p) != [];
    hide Unwords, IdentityWords, IsPlain, Valid;
    IdentityIsWords(p);
    var ws := IdentityWords(p);
    assert IsWord("peer") && AllWords(["peer"] + ws);
    UnwordsFirst("peer", ws);
    assert "peer" + " " == "peer ";
    WordsArePlain(["peer"] + ws);
  }

  lemma SettingHasWords(s: Setting)
    ensures SettingWords(s) != []
  {
  }

  lemma SettingsArePlain(ss: seq<Setting>)
    requires AllFit(ss)
    ensures Plain(SettingLines(ss))
  {
    hide IsPlain, Unwords, Fits, SettingWords;
    forall i | 0 <= i < |ss| ensures IsPlain(SettingLines(ss)[i]) {
      SettingParses(Fresh(""), ss[i]);
      SettingHasWords(ss[i]);
      WordsArePlain(SettingWords(ss[i]));
    }
  }

  lemma PutItemPlain(p: Peer)
    requires Valid(p)
    ensures Plain(ItemLines(Configured(p, PutSettings(p), None, [], 1)))
  {
    hide IsPlain, IdentityLine, PutSettings, Valid, Describes;
    IdentityIsPlain(p);
    PutSettingsDescribe(p);
    SettingsArePlain(PutSettings(p));
    ClosersArePlain();
    assert Bangs(1) == ["!"];
    assert ItemLines(Configured(p, PutSettings(p), None, [], 1))
      == [IdentityLine(p)] + (SettingLines(PutSettings(p)) + ["exit", "!"]);
  }

  lemma {:induction false} PutBlockPlain(ps: seq<Peer>)
    requires forall i :: 0 <= i < |ps| ==> Valid(ps[i])
    ensures Plain(BlockLines(PutItems(ps)))
    decreases |ps|
  {
    hide IsPlain, ItemLines, Valid;
    if ps != [] {
      PutItemPlain(ps[0]);
      PutBlockPlain(ps[1..]);
      assert PutItems(ps)[1..] == PutItems(ps[1..]);
    }
  }

  /** The block as one text, then anything: the peers come back. */
  lemma RoundTripOfText(ps: seq<Peer>, rest: string)
    requires forall i :: 0 <= i < |ps| ==> Valid(ps[i])
    ensures Peers(Unlines(Printed([], PutItems(ps))) + rest) == ps
  {
    hide Trim, OneLine, Lines, Unlines, BlockLines, Valid, Peers;
    PutBlockPlain(ps);
    ClosersArePlain();
    var lines := Printed([], PutItems(ps));
    assert Plain(lines);
    assert forall i :: 0 <= i < |lines| ==> IsPlain(lines[i]);
    LinesOfUnlines(lines, rest);
    assert TrimAll(lines + Lines(rest)) == lines + TrimAll(Lines(rest));
    RoundTrip(Unlines(lines) + rest, [], ps, TrimAll(Lines(rest)));
  }
}
