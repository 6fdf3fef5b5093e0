/** The BFD writes (`src/sonic/bfd.rs`) against an interpreter of the FRR commands they
    emit, which FRR may stop taking at any point: a put replaces the peer of its identity
    whatever it was, and nothing else. */
module BfdWrites {
  import opened Common
  import opened Text
  import opened Bfd
  import opened PolicyRoundTrip

  /** A parsed IP address. */
  datatype Address = Address(v4: bool, value: nat)

  // -------------------------------------------------------- commands and daemon

  /** `no peer …`, `peer …` and a setting under the peer entered. */
  datatype Command = NoPeer(id: Peer) | EnterPeer(id: Peer) | Set(s: Setting)

  datatype Config = Config(peers: seq<Peer>, at: Option<nat>)

  /** One FRR session key: every part of the identity line, addresses compared parsed. */
  predicate SameSession(ip: string -> Option<Address>, a: Peer, b: Peer) {
    && ip(a.peer) == ip(b.peer) && a.multihop == b.multihop && a.local == b.local
    && a.iface == b.iface && a.vrf == b.vrf
  }

  function Find(ip: string -> Option<Address>, ps: seq<Peer>, id: Peer): (i: nat)
    ensures i <= |ps| && (i < |ps| ==> SameSession(ip, ps[i], id))
    ensures forall j :: 0 <= j < i ==> !SameSession(ip, ps[j], id)
    decreases |ps|
  {
    if ps == [] || SameSession(ip, ps[0], id) then 0
    else
      var i := Find(ip, ps[1..], id);
      assert forall j :: 0 < j < i + 1 ==> ps[j] == ps[1..][j - 1];
      i + 1
  }

  function Interpret(ip: string -> Option<Address>, c: Config, cmd: Command): Config {
    match cmd
    case NoPeer(id) =>
      var i := Find(ip, c.peers, id);
      if i < |c.peers| then Config(c.peers[..i] + c.peers[i + 1..], None) else c.(at := None)
    case EnterPeer(id) =>
      var i := Find(ip, c.peers, id);
      Config(if i < |c.peers| then c.peers else c.peers + [Bare(id)], Some(i))
    case Set(s) =>
      if c.at.Some? && c.at.value < |c.peers| then c.(peers := c.peers[c.at.value := Effect(c.peers[c.at.value], s)]) else c
  }

  function InterpretAll(ip: string -> Option<Address>, c: Config, cmds: seq<Command>): Config
    decreases |cmds|
  {
    if cmds == [] then c else InterpretAll(ip, Interpret(ip, c, cmds[0]), cmds[1..])
  }

  function Sets(ss: seq<Setting>): (r: seq<Command>)
    ensures |r| == |ss| && forall i :: 0 <= i < |ss| ==> r[i] == Set(ss[i])
  {
    seq(|ss|, i requires 0 <= i < |ss| => Set(ss[i]))
  }

  lemma {:induction false} SetsEffect(ip: string -> Option<Address>, c: Config, i: nat, ss: seq<Setting>)
    requires i < |c.peers| && c.at == Some(i)
    ensures InterpretAll(ip, c, Sets(ss)) == c.(peers := c.peers[i := Effects(c.peers[i], ss)])
    decreases |ss|
  {
    hide Effect;
    if ss == [] {
      assert c.peers[i := c.peers[i]] == c.peers;
    } else {
      var next := c.(peers := c.peers[i := Effect(c.peers[i], ss[0])]);
      SetsEffect(ip, next, i, ss[1..]);
      assert Sets(ss)[1..] == Sets(ss[1..]);
      assert next.peers[i := Effects(next.peers[i], ss[1..])] == c.peers[i := Effects(c.peers[i], ss)];
    }
  }

  lemma {:induction false} InterpretAppend(ip: string -> Option<Address>, c: Config, a: seq<Command>, b: seq<Command>)
    ensures InterpretAll(ip, c, a + b) == InterpretAll(ip, InterpretAll(ip, c, a), b)
    decreases |a|
  {
    hide Interpret;
    if a == [] {
      assert a + b == b;
    } else {
      InterpretAppend(ip, Interpret(ip, c, a[0]), a[1..], b);
      assert (a + b)[1..] == a[1..] + b;
    }
  }

  // ------------------------------------------------------------------- identity

  /** `same_identity`: the identity of the contract, which leaves the local address out. */
  predicate SameIdentity(ip: string -> Option<Address>, p: Peer, address: Address, iface: Option<string>, vrf: Option<string>, multihop: bool) {
    ip(p.peer) == Some(address) && p.iface == iface && p.vrf == vrf && p.multihop == multihop
  }

  function FindIdentity(ip: string -> Option<Address>, ps: seq<Peer>, address: Address, iface: Option<string>, vrf: Option<string>, multihop: bool): (i: nat)
    ensures i <= |ps| && (i < |ps| ==> SameIdentity(ip, ps[i], address, iface, vrf, multihop))
    ensures forall j :: 0 <= j < i ==> !SameIdentity(ip, ps[j], address, iface, vrf, multihop)
    decreases |ps|
  {
    if ps == [] || SameIdentity(ip, ps[0], address, iface, vrf, multihop) then 0
    else
      var i := FindIdentity(ip, ps[1..], address, iface, vrf, multihop);
      assert forall j :: 0 < j < i + 1 ==> ps[j] == ps[1..][j - 1];
      i + 1
  }

  /** No two peers share an identity of the contract. */
  ghost predicate OnePerIdentity(ip: string -> Option<Address>, ps: seq<Peer>) {
    forall i, j, a: Address :: 0 <= i < j < |ps| && ip(ps[i].peer) == Some(a) ==>
      !SameIdentity(ip, ps[j], a, ps[i].iface, ps[i].vrf, ps[i].multihop)
  }

  ghost predicate AllParse(ip: string -> Option<Address>, ps: seq<Peer>) {
    forall i :: 0 <= i < |ps| ==> ip(ps[i].peer).Some?
  }

  function Without(ps: seq<Peer>, i: nat): seq<Peer> {
    if i < |ps| then ps[..i] + ps[i + 1..] else ps
  }

  /** Removing the one peer of an identity leaves none of that identity. */
  lemma NoneLeft(ip: string -> Option<Address>, ps: seq<Peer>, address: Address, iface: Option<string>, vrf: Option<string>, multihop: bool)
    requires OnePerIdentity(ip, ps)
    ensures var rest := Without(ps, FindIdentity(ip, ps, address, iface, vrf, multihop));
      && OnePerIdentity(ip, rest)
      && (forall j :: 0 <= j < |rest| ==> !SameIdentity(ip, rest[j], address, iface, vrf, multihop))
      && (forall p :: p in rest ==> p in ps)
  {
    var i := FindIdentity(ip, ps, address, iface, vrf, multihop);
    var rest := Without(ps, i);
    if i < |ps| {
      assert forall j :: 0 <= j < |rest| ==> rest[j] == ps[if j < i then j else j + 1];
      forall j | i < j < |ps| ensures !SameIdentity(ip, ps[j], address, iface, vrf, multihop) {
        assert ip(ps[i].peer) == Some(address);
      }
    }
  }

  // ----------------------------------------------------------------- validation

  predicate NameOk(s: Option<string>) {
    s.Some? ==> ValidName(s.value)
  }

  predicate IntervalOk(v: Option<nat>) {
    v.Some? ==> 10 <= v.value <= 60000
  }

  /** The checks of `put_peer`. */
  predicate InputOk(ip: string -> Option<Address>, p: Peer) {
    && ip(p.peer).Some?
    && (p.local.Some? ==> ip(p.local.value).Some? && ip(p.local.value).value.v4 == ip(p.peer).value.v4)
    && (p.multihop ==> p.local.Some? && p.iface == None)
    && NameOk(p.iface) && NameOk(p.vrf) && IntervalOk(p.rx) && IntervalOk(p.tx)
    && (p.multiplier.Some? ==> 2 <= p.multiplier.value <= 255)
  }

  /** Every input let through can be printed and read back. */
  lemma CheckedPeerIsValid(ip: string -> Option<Address>, p: Peer)
    requires ParsesWords(ip) && InputOk(ip, p)
    ensures Valid(p)
  {
    NameIsWord(p.iface);
    NameIsWord(p.vrf);
  }

  lemma NameIsWord(s: Option<string>)
    requires NameOk(s)
    ensures WordOrNone(s)
  {
    if s.Some? {
      forall i | 0 <= i < |s.value| ensures !IsSpace(s.value[i]) {
        assert IsNameChar(s.value[i]);
      }
    }
  }

  // ---------------------------------------------------------------------- calls

  /** The commands of a put. */
  function PutCommands(ps: seq<Peer>, i: nat, p: Peer): seq<Command> {
    Removal(ps, i) + ([EnterPeer(Bare(p))] + Sets(PutSettings(p)))
  }

  lemma SessionOfIdentity(ip: string -> Option<Address>, ps: seq<Peer>, i: nat)
    requires OnePerIdentity(ip, ps) && AllParse(ip, ps) && i < |ps|
    ensures Find(ip, ps, Bare(ps[i])) == i
  {
    assert SameSession(ip, ps[i], Bare(ps[i]));
    forall j | 0 <= j < i ensures !SameSession(ip, ps[j], Bare(ps[i])) {
      assert !SameIdentity(ip, ps[i], ip(ps[j].peer).value, ps[j].iface, ps[j].vrf, ps[j].multihop);
    }
  }

  function Removal(ps: seq<Peer>, i: nat): seq<Command> {
    if i < |ps| then [NoPeer(Bare(ps[i]))] else []
  }

  lemma RemovalEffect(ip: string -> Option<Address>, c: Config, i: nat)
    requires OnePerIdentity(ip, c.peers) && AllParse(ip, c.peers) && i <= |c.peers|
    ensures InterpretAll(ip, c, Removal(c.peers, i)).peers == Without(c.peers, i)
  {
    hide OnePerIdentity, AllParse, Bare;
    if i < |c.peers| {
      SessionOfIdentity(ip, c.peers, i);
      assert Removal(c.peers, i)[1..] == [];
    }
  }

  /** Entering a peer whose session does not exist, then settings. */
  lemma EnterEffect(ip: string -> Option<Address>, c: Config, p: Peer, ss: seq<Setting>)
    requires Find(ip, c.peers, Bare(p)) == |c.peers|
    ensures InterpretAll(ip, c, [EnterPeer(Bare(p))] + Sets(ss)).peers == c.peers + [Effects(Bare(p), ss)]
  {
    hide Effects, Sets, Bare;
    var entered := Config(c.peers + [Bare(p)], Some(|c.peers|));
    BareTwice(p);
    assert ([EnterPeer(Bare(p))] + Sets(ss))[1..] == Sets(ss);
    SetsEffect(ip, entered, |c.peers|, ss);
    assert entered.peers[|c.peers| := Effects(Bare(p), ss)] == c.peers + [Effects(Bare(p), ss)];
  }

  /** However many commands of a put were taken: nothing happened, or the old peer is gone
      and nothing has come, or the new peer is there with a first part of its settings. */
  ghost predicate PartlyPut(ps: seq<Peer>, after: seq<Peer>, i: nat, p: Peer) {
    || after == ps || after == Without(ps, i)
    || exists n :: 0 <= n <= |PutSettings(p)| && after == Without(ps, i) + [Effects(Bare(p), PutSettings(p)[..n])]
  }

  lemma PutCutShort(ip: string -> Option<Address>, c: Config, p: Peer, i: nat, n: nat)
    requires ip(p.peer).Some? && OnePerIdentity(ip, c.peers) && AllParse(ip, c.peers)
    requires i == FindIdentity(ip, c.peers, ip(p.peer).value, p.iface, p.vrf, p.multihop) && n <= |PutCommands(c.peers, i, p)|
    ensures PartlyPut(c.peers, InterpretAll(ip, c, PutCommands(c.peers, i, p)[..n]).peers, i, p)
  {
    hide OnePerIdentity, AllParse, Interpret, Sets, PutSettings, Without, Effects, Bare;
    var cmds, gone, ss := PutCommands(c.peers, i, p), Removal(c.peers, i), PutSettings(p);
    NoneLeft(ip, c.peers, ip(p.peer).value, p.iface, p.vrf, p.multihop);
    RemovalEffect(ip, c, i);
    NewSession(ip, Without(c.peers, i), p);
    if n == 0 {
      assert cmds[..0] == [];
    } else if n == |gone| {
      assert cmds[..n] == gone;
    } else {
      var m := n - |gone| - 1;
      SetsPrefix(ss, m);
      assert cmds[..n] == gone + ([EnterPeer(Bare(p))] + Sets(ss[..m]));
      InterpretAppend(ip, c, gone, [EnterPeer(Bare(p))] + Sets(ss[..m]));
      EnterEffect(ip, InterpretAll(ip, c, gone), p, ss[..m]);
    }
  }

  lemma SetsPrefix(ss: seq<Setting>, m: nat)
    requires m <= |ss|
    ensures Sets(ss)[..m] == Sets(ss[..m])
  {
  }

  lemma {:induction false} EffectsKeepIdentity(p: Peer, ss: seq<Setting>)
    ensures var q := Effects(p, ss);
      q.peer == p.peer && q.iface == p.iface && q.vrf == p.vrf && q.multihop == p.multihop && q.local == p.local
    decreases |ss|
  {
    if ss != [] {
      EffectsKeepIdentity(Effect(p, ss[0]), ss[1..]);
    }
  }

  /** A put cut short anywhere keeps one peer an identity. */
  lemma PartlyPutKeepsOne(ip: string -> Option<Address>, ps: seq<Peer>, after: seq<Peer>, p: Peer)
    requires ip(p.peer).Some? && OnePerIdentity(ip, ps) && AllParse(ip, ps)
    requires PartlyPut(ps, after, FindIdentity(ip, ps, ip(p.peer).value, p.iface, p.vrf, p.multihop), p)
    ensures OnePerIdentity(ip, after) && AllParse(ip, after)
  {
    hide OnePerIdentity, Without, Effects, PutSettings;
    var i := FindIdentity(ip, ps, ip(p.peer).value, p.iface, p.vrf, p.multihop);
    var rest := Without(ps, i);
    NoneLeft(ip, ps, ip(p.peer).value, p.iface, p.vrf, p.multihop);
    assert AllParse(ip, rest) by {
      assert forall j :: 0 <= j < |rest| ==> rest[j] in rest;
      assert forall q :: q in ps ==> ip(q.peer).Some?;
    }
    if after != ps && after != rest {
      var n :| 0 <= n <= |PutSettings(p)| && after == rest + [Effects(Bare(p), PutSettings(p)[..n])];
      var q := Effects(Bare(p), PutSettings(p)[..n]);
      EffectsKeepIdentity(Bare(p), PutSettings(p)[..n]);
      OneMore(ip, rest, q);
    }
  }

  /** A put leaves the requested peer, with exactly the requested settings, and every
      peer of another identity as it was. */
  lemma PutEffect(ip: string -> Option<Address>, c: Config, p: Peer, i: nat)
    requires ip(p.peer).Some? && Valid(p) && OnePerIdentity(ip, c.peers) && AllParse(ip, c.peers)
    requires i == FindIdentity(ip, c.peers, ip(p.peer).value, p.iface, p.vrf, p.multihop)
    ensures InterpretAll(ip, c, PutCommands(c.peers, i, p)).peers == Without(c.peers, i) + [p]
  {
    hide Valid, Describes, OnePerIdentity, AllParse, InterpretAll, Sets, PutSettings, Without, Removal;
    var rest := Without(c.peers, i);
    NoneLeft(ip, c.peers, ip(p.peer).value, p.iface, p.vrf, p.multihop);
    InterpretAppend(ip, c, Removal(c.peers, i), [EnterPeer(Bare(p))] + Sets(PutSettings(p)));
    RemovalEffect(ip, c, i);
    NewSession(ip, rest, p);
    EnterEffect(ip, InterpretAll(ip, c, Removal(c.peers, i)), p, PutSettings(p));
    PutSettingsDescribe(p);
    DescribedIsReached(PutSettings(p), p);
  }

  lemma NewSession(ip: string -> Option<Address>, ps: seq<Peer>, p: Peer)
    requires ip(p.peer).Some?
    requires forall j :: 0 <= j < |ps| ==> !SameIdentity(ip, ps[j], ip(p.peer).value, p.iface, p.vrf, p.multihop)
    ensures Find(ip, ps, Bare(p)) == |ps|
  {
    var f := Find(ip, ps, Bare(p));
    assert f < |ps| ==> SameIdentity(ip, ps[f], ip(p.peer).value, p.iface, p.vrf, p.multihop);
  }

  lemma BareTwice(p: Peer)
    ensures Bare(Bare(p)) == Bare(p)
  {
  }

  lemma OneMore(ip: string -> Option<Address>, ps: seq<Peer>, p: Peer)
    requires ip(p.peer).Some? && OnePerIdentity(ip, ps)
    requires forall j :: 0 <= j < |ps| ==> !SameIdentity(ip, ps[j], ip(p.peer).value, p.iface, p.vrf, p.multihop)
    ensures OnePerIdentity(ip, ps + [p])
  {
    var all := ps + [p];
    forall i, j, a: Address | 0 <= i < j < |all| && ip(all[i].peer) == Some(a)
      ensures !SameIdentity(ip, all[j], a, all[i].iface, all[i].vrf, all[i].multihop) {
      if j < |ps| {
        assert all[i] == ps[i] && all[j] == ps[j];
      } else {
        assert all[i] == ps[i] && !SameIdentity(ip, ps[i], ip(p.peer).value, p.iface, p.vrf, p.multihop);
      }
    }
  }

  /** bfdd behind vtysh. */
  class Daemon {
    var config: Config

    constructor ()
      ensures config == Config([], None)
    {
      config := Config([], None);
    }

    /** One vtysh batch, or the first of its commands. */
    method Configure(ip: string -> Option<Address>, cmds: seq<Command>, stops: Option<nat>) returns (r: WriteResult)
      modifies this
      ensures r == if stops == None then Done else Internal
      ensures config == InterpretAll(ip, old(config), Taken(cmds, stops))
    {
      var taken, i := Taken(cmds, stops), 0;
      while i < |taken|
        invariant 0 <= i <= |taken|
        invariant InterpretAll(ip, config, taken[i..]) == InterpretAll(ip, old(config), taken)
      {
        assert taken[i..][1..] == taken[i + 1..];
        config := Interpret(ip, config, taken[i]);
        i := i + 1;
      }
      r := if stops == None then Done else Internal;
    }

    /** `put_peer`; the session shows the running configuration as the daemon prints it. */
    method PutPeer(ip: string -> Option<Address>, supported: bool, v: Vtysh, p: Peer) returns (r: WriteResult)
      requires v.shown.Some? ==> Peers(v.shown.value) == config.peers
      modifies this
      ensures r == if !InputOk(ip, p) then BadRequest
                   else if !supported then Conflict
                   else if v.shown == None || v.stops.Some? then Internal else Done
      ensures r !in {Done, Internal} ==> config == old(config)
      ensures r.Done? && ParsesWords(ip) && OnePerIdentity(ip, old(config).peers) && AllParse(ip, old(config).peers) ==>
                config.peers == Without(old(config).peers, FindIdentity(ip, old(config).peers, ip(p.peer).value, p.iface, p.vrf, p.multihop)) + [p]
      // wherever the session stopped taking commands
      ensures ip(p.peer).Some? && OnePerIdentity(ip, old(config).peers) && AllParse(ip, old(config).peers) ==>
                && PartlyPut(old(config).peers, config.peers,
                             FindIdentity(ip, old(config).peers, ip(p.peer).value, p.iface, p.vrf, p.multihop), p)
                && OnePerIdentity(ip, config.peers) && AllParse(ip, config.peers)
    {
      assert InputOk(ip, p) ==> ip(p.peer).Some?;
      assert PartlyPut(config.peers, config.peers, FindIdentity(ip, config.peers, ip(p.peer).GetOr(Address(true, 0)), p.iface, p.vrf, p.multihop), p);
      hide InputOk, OnePerIdentity, AllParse, PutCommands, InterpretAll, Peers, PartlyPut, Without;
      if !InputOk(ip, p) { return BadRequest; }
      if !supported { return Conflict; }
      if v.shown == None { return Internal; }
      var existing := ParseRunningBfd(v.shown.value);
      var i := FindIdentity(ip, existing, ip(p.peer).value, p.iface, p.vrf, p.multihop);
      ghost var before, cmds := config, PutCommands(existing, i, p);
      if OnePerIdentity(ip, config.peers) && AllParse(ip, config.peers) {
        ghost var n := |Taken(cmds, v.stops)|;
        assert Taken(cmds, v.stops) == cmds[..n];
        PutCutShort(ip, config, p, i, n);
        PartlyPutKeepsOne(ip, config.peers, InterpretAll(ip, config, cmds[..n]).peers, p);
        if ParsesWords(ip) {
          CheckedPeerIsValid(ip, p);
          PutEffect(ip, config, p, i);
        }
      }
      r := Configure(ip, PutCommands(existing, i, p), v.stops);
    }

    /** `delete_peer`. */
    method DeletePeer(ip: string -> Option<Address>, supported: bool, v: Vtysh, peer: string, iface: Option<string>,
                      vrf: Option<string>, multihop: bool) returns (r: WriteResult)
      requires v.shown.Some? ==> Peers(v.shown.value) == config.peers
      modifies this
      ensures r == if ip(peer) == None then BadRequest else if !supported then Conflict
                   else if v.shown == None then Internal
                   else if FindIdentity(ip, old(config).peers, ip(peer).value, iface, vrf, multihop) == |old(config).peers| then NotFound
                   else if v.stops.Some? then Internal else Done
      ensures r !in {Done, Internal} ==> config == old(config)
      ensures (r.Done? || r.NotFound?) && OnePerIdentity(ip, old(config).peers) && AllParse(ip, old(config).peers) ==>
                && config.peers == Without(old(config).peers, FindIdentity(ip, old(config).peers, ip(peer).value, iface, vrf, multihop))
                && forall j :: 0 <= j < |config.peers| ==> !SameIdentity(ip, config.peers[j], ip(peer).value, iface, vrf, multihop)
      // the command was taken or it was not
      ensures ip(peer).Some? && OnePerIdentity(ip, old(config).peers) && AllParse(ip, old(config).peers) ==>
                && (config.peers == old(config).peers
                    || config.peers == Without(old(config).peers, FindIdentity(ip, old(config).peers, ip(peer).value, iface, vrf, multihop)))
                && OnePerIdentity(ip, config.peers)
    {
      assert Without(config.peers, |config.peers|) == config.peers;
      hide OnePerIdentity, AllParse, Peers, InterpretAll, Without, SameIdentity;
      if ip(peer) == None { return BadRequest; }
      if !supported { return Conflict; }
      if v.shown == None { return Internal; }
      var existing := ParseRunningBfd(v.shown.value);
      var i := FindIdentity(ip, existing, ip(peer).value, iface, vrf, multihop);
      if OnePerIdentity(ip, config.peers) && AllParse(ip, config.peers) {
        NoneLeft(ip, config.peers, ip(peer).value, iface, vrf, multihop);
        RemovalEffect(ip, config, i);
      }
      if i == |existing| {
        return NotFound;
      }
      NothingTaken(ip, config, [NoPeer(Bare(existing[i]))], v.stops);
      r := Configure(ip, [NoPeer(Bare(existing[i]))], v.stops);
    }
  }

  lemma NothingTaken(ip: string -> Option<Address>, c: Config, cmds: seq<Command>, stops: Option<nat>)
    requires |cmds| == 1
    ensures InterpretAll(ip, c, Taken(cmds, stops)) == if stops == Some(0) then c else InterpretAll(ip, c, cmds)
  {
    assert cmds[..0] == [];
  }
}
