/** The converge step of the L3 write calls (`src/sonic/l3.rs`) as the source runs it: the
    reads it starts from, the program it writes and the batch that carries it out. */
module L3Calls {
  import opened Common
  import opened Store
  import opened Keys
  import opened Diffs
  import opened L3

  // ------------------------------------------------------------------ converge

  lemma SuffixFacts(prefix: string, s: string)
    ensures prefix <= s ==> forall n :: prefix + n == s <==> n == s[|prefix|..]
    ensures !(prefix <= s) ==> forall n :: prefix + n != s
  {
    if prefix <= s {
      assert s == prefix + s[|prefix|..];
    }
    forall n | prefix + n == s ensures prefix <= s && n == s[|prefix|..] {
      assert (prefix + n)[|prefix|..] == n;
    }
  }

  /** The addresses among scanned keys: the non-empty suffixes. */
  function Suffixes(names: seq<string>, prefix: string): seq<string> {
    if |names| == 0 then []
    else
      var rest := Suffixes(names[1..], prefix);
      match KeySuffix(names[0], prefix)
      case None => rest
      case Some(s) => [s] + rest
  }

  lemma {:induction false} SuffixesExactly(names: seq<string>, prefix: string, ip: string)
    ensures ip in Suffixes(names, prefix) <==> ip != "" && prefix + ip in names
  {
    if |names| > 0 {
      SuffixesExactly(names[1..], prefix, ip);
      SuffixFacts(prefix, names[0]);
      assert prefix + ip in names <==> prefix + ip == names[0] || prefix + ip in names[1..];
    }
  }

  lemma ScannedIps(db: Db, attr: string, names: seq<string>)
    requires forall n :: n in names <==> Key(CONFIG_DB, n) in db && attr + "|" <= n
    ensures Elements(Suffixes(names, attr + "|")) == Ips(db, attr)
  {
    hide Ips;
    forall ip ensures ip in Suffixes(names, attr + "|") <==> ip in Ips(db, attr) {
      IpsByKey(db, attr, ip);
      SuffixesExactly(names, attr + "|", ip);
      assert attr + "|" <= attr + "|" + ip;
    }
  }

  /** The body of the batch: stale address rows go, the attribute row is converged, the
      missing address rows come. */
  method WriteProgram(attr: string, vrf: Option<string>, changed: bool, scanned: seq<string>, wanted: seq<string>)
    returns (ops: seq<Op>)
    ensures var keep := Kept(changed, Elements(scanned), Elements(wanted));
      ops == RemoveOps(attr, scanned, keep) + AttrOps(attr, vrf, wanted != []) + AddOps(attr, wanted, keep)
  {
    ghost var keep := Kept(changed, Elements(scanned), Elements(wanted));
    ops := [];
    for i := 0 to |scanned|
      invariant ops == RemoveOps(attr, scanned[..i], keep)
    {
      assert scanned[..i + 1][..i] == scanned[..i];
      assert scanned[i] in Elements(scanned) && (scanned[i] in wanted <==> scanned[i] in Elements(wanted));
      if changed || scanned[i] !in wanted {
        ops := ops + [Del(IpKey(attr, scanned[i]))];
      }
    }
    assert scanned[..|scanned|] == scanned;
    ops := ops + AttrOps(attr, vrf, wanted != []);
    ghost var soFar := ops;
    for i := 0 to |wanted|
      invariant ops == soFar + AddOps(attr, wanted[..i], keep)
    {
      assert wanted[..i + 1][..i] == wanted[..i];
      assert wanted[i] in Elements(wanted) && (wanted[i] in scanned <==> wanted[i] in Elements(scanned));
      if changed || wanted[i] !in scanned {
        ops := ops + [HSet(IpKey(attr, wanted[i]), PLACEHOLDER)];
      }
    }
    assert wanted[..|wanted|] == wanted;
  }

  /** The shared attribute/IP convergence of the interface whose attribute row is `attr`
      (assumes validation already ran). */
  method Converge(plat: Platform, attr: string, vrf: Option<string>, addresses: seq<string>)
    returns (ok: bool, ghost forward: seq<Op>)
    requires plat.Valid() && "" !in addresses
    modifies plat
    ensures plat.Valid() && old(plat.calls) < plat.calls
    // exactly the target state, or exactly the starting state
    ensures ok ==> plat.rows == Target(old(plat.rows), attr, vrf, Elements(addresses))
    ensures ok ==> Configured(old(plat.rows), plat.rows, attr, vrf, Elements(addresses))
    ensures !ok && OneFailureAtMost(plat.fault, old(plat.calls), plat.calls) ==> plat.rows == old(plat.rows)
    ensures ok <==> AllWork(plat.fault, old(plat.calls), plat.calls)
    // the forward writes that took effect, of a failed call too, followed SONiC's order
    ensures Logged(old(plat.log), plat.log, forward, old(plat.rows), ok)
    ensures Bindable(vrf) ==> Sequenced(old(plat.rows), forward, attr)
  {
    SequencedNone(plat.rows, attr);
    TargetMeaning(plat.rows, attr, vrf, Elements(addresses));
    hide Target, Configured, Sequenced, RemoveOps, AddOps, AttrOps, Ips, ExecAll, Sent, Field, IsRestore;
    forward := [];
    var bound, scanned;
    ok, bound, scanned := ReadCurrent(plat, attr);
    if !ok { return; }
    ghost var before, c := plat.rows, plat.calls;
    var wanted := Listed(Elements(addresses));
    assert Elements(wanted) == Elements(addresses);
    var ops := WriteProgram(attr, vrf, bound != vrf, scanned, wanted);
    ConvergeFacts(before, attr, vrf, scanned, wanted, addresses);
    ok, forward := Apply(plat, ops);
    assert ok ==> AllWork(plat.fault, old(plat.calls), c) && AllWork(plat.fault, c, plat.calls);
    if Bindable(vrf) {
      SequencedPrefix(before, ops, forward, attr);
    }
  }

  lemma SequencedNone(db: Db, attr: string)
    ensures Sequenced(db, [], attr)
  {
  }

  /** The two reads before the batch. */
  method ReadCurrent(plat: Platform, attr: string) returns (ok: bool, bound: Option<string>, scanned: seq<string>)
    requires plat.Valid()
    modifies plat`calls
    ensures old(plat.calls) < plat.calls && (ok <==> AllWork(plat.fault, old(plat.calls), plat.calls))
    ensures ok ==> bound == BoundVrf(plat.rows, attr) && Elements(scanned) == Ips(plat.rows, attr)
  {
    bound, scanned := None, [];
    var row, names;
    ok, row := plat.HGetAll(AttrKey(attr));
    if !ok { return; }
    bound := Field(row, "vrf_name");
    ok, names := plat.Scan(CONFIG_DB, attr + "|");
    if !ok { return; }
    scanned := Suffixes(names, attr + "|");
    ScannedIps(plat.rows, attr, names);
  }

  lemma ConvergeFacts(db: Db, attr: string, vrf: Option<string>, scanned: seq<string>, wanted: seq<string>, addresses: seq<string>)
    requires NoEmptyRows(db) && "" !in addresses
    requires Elements(scanned) == Ips(db, attr) && Elements(wanted) == Elements(addresses)
    ensures var ops := ConvergeOps(db, attr, vrf, scanned, wanted);
      && ExecAll(db, ops) == Target(db, attr, vrf, Elements(addresses))
      && Sent(ops) == ops
      && (Bindable(vrf) ==> Sequenced(db, ops, attr))
  {
    assert "" !in wanted by { assert "" in wanted ==> "" in Elements(wanted); }
    ConvergeReachesTarget(db, attr, vrf, scanned, wanted);
    ConvergeOpsSent(db, attr, vrf, scanned, wanted);
    if Bindable(vrf) {
      ConvergeIsSequenced(db, attr, vrf, scanned, wanted);
    }
  }

  lemma {:induction false} SentAll(ops: seq<Op>)
    requires forall op :: op in ops ==> Reaches(op)
    ensures Sent(ops) == ops
    decreases |ops|
  {
    if |ops| > 0 {
      SentAll(ops[..|ops| - 1]);
      assert ops == ops[..|ops| - 1] + [ops[|ops| - 1]];
    }
  }

  lemma {:induction false} RemoveOpsReach(attr: string, ips: seq<string>, keep: set<string>)
    ensures forall op :: op in RemoveOps(attr, ips, keep) + AddOps(attr, ips, keep) ==> Reaches(op)
    decreases |ips|
  {
    assert "NULL" in PLACEHOLDER;
    if |ips| > 0 {
      RemoveOpsReach(attr, ips[..|ips| - 1], keep);
    }
  }

  /** Every write of the program reaches redis. */
  lemma ConvergeOpsSent(db: Db, attr: string, vrf: Option<string>, scanned: seq<string>, wanted: seq<string>)
    ensures Sent(ConvergeOps(db, attr, vrf, scanned, wanted)) == ConvergeOps(db, attr, vrf, scanned, wanted)
  {
    var keep := Kept(BoundVrf(db, attr) != vrf, Ips(db, attr), Elements(wanted));
    RemoveOpsReach(attr, scanned, keep);
    RemoveOpsReach(attr, wanted, keep);
    assert "NULL" in PLACEHOLDER && (vrf.Some? ==> "vrf_name" in map["vrf_name" := vrf.value]);
    forall op | op in AttrOps(attr, vrf, wanted != []) ensures Reaches(op) {
      if op.HDel? {
        assert "NULL" in op.names || "vrf_name" in op.names;
      }
    }
    SentAll(ConvergeOps(db, attr, vrf, scanned, wanted));
  }
}
