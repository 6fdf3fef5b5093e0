/** The transactional write layer (`src/sonic/store.rs`): a platform whose calls an
    adversary may fail, and the batch that snapshots each row before first touching it
    and restores all of them when a call fails. */
module Store {
  const ASIC_DB := 1
  const COUNTERS_DB := 2
  const CONFIG_DB := 4
  const STATE_DB := 6

  datatype Key = Key(db: int, name: string)
  type Row = map<string, string>
  type Db = map<Key, Row>

  /** SONiC's idiom for a row without fields. */
  const PLACEHOLDER: Row := map["NULL" := "NULL"]

  /** One mutation.  Field names within one HSET are distinct, so the fields are a map. */
  datatype Op = HSet(key: Key, fields: Row) | HDel(key: Key, names: set<string>) | Del(key: Key)

  /** What the adversary does with one call: let it work, refuse it, or (writes only)
      carry it out and report failure all the same. */
  datatype Fault = Works | Refused | Applied

  // ---------------------------------------------------------- map semantics

  /** HGETALL: a missing row reads as the empty hash. */
  function RowOf(db: Db, key: Key): Row {
    if key in db then db[key] else map[]
  }

  /** A redis hash with no fields does not exist. */
  ghost predicate NoEmptyRows(db: Db) {
    forall k :: k in db ==> db[k] != map[]
  }

  function PutRow(db: Db, key: Key, row: Row): Db {
    if row == map[] then db - {key} else db[key := row]
  }

  /** HSET merges fields, HDEL of the last field removes the row, DEL removes the row. */
  function Exec(db: Db, op: Op): Db {
    match op
    case HSet(key, fields) => if fields == map[] then db else PutRow(db, key, RowOf(db, key) + fields)
    case HDel(key, names) => if key in db then PutRow(db, key, db[key] - names) else db
    case Del(key) => db - {key}
  }

  function ExecAll(db: Db, ops: seq<Op>): Db
    decreases |ops|
  {
    if |ops| == 0 then db else Exec(ExecAll(db, ops[..|ops| - 1]), ops[|ops| - 1])
  }

  /** HSET and HDEL with nothing to write return before reaching redis. */
  predicate Reaches(op: Op) {
    match op
    case HSet(_, fields) => fields != map[]
    case HDel(_, names) => names != {}
    case Del(_) => true
  }

  function Sent(ops: seq<Op>): seq<Op> {
    if |ops| == 0 then []
    else Sent(ops[..|ops| - 1]) + if Reaches(ops[|ops| - 1]) then [ops[|ops| - 1]] else []
  }

  function ExecRow(row: Row, op: Op): Row {
    match op
    case HSet(_, fields) => row + fields
    case HDel(_, names) => row - names
    case Del(_) => map[]
  }

  /** Reading after one write. */
  lemma ExecReads(db: Db, op: Op, key: Key)
    ensures RowOf(Exec(db, op), key) == if key == op.key then ExecRow(RowOf(db, key), op) else RowOf(db, key)
  {
    if op.HSet? && op.fields == map[] {
      assert RowOf(db, key) + op.fields == RowOf(db, key);
    }
  }

  lemma ExecOne(db: Db, op: Op)
    ensures ExecAll(db, [op]) == Exec(db, op)
  {
    assert [op][..0] == [];
  }

  lemma ExecTwo(db: Db, a: Op, b: Op)
    ensures ExecAll(db, [a, b]) == Exec(Exec(db, a), b)
  {
    assert [a, b][..1] == [a];
    ExecOne(db, a);
  }

  lemma ExecKeepsOthers(db: Db, op: Op, key: Key)
    requires key != op.key
    ensures RowOf(Exec(db, op), key) == RowOf(db, key)
    ensures key in Exec(db, op) <==> key in db
  {
  }

  lemma ExecNoEmptyRows(db: Db, op: Op)
    requires NoEmptyRows(db)
    ensures NoEmptyRows(Exec(db, op))
  {
  }

  /** Stores without empty rows are equal when every row reads the same. */
  lemma SameRowsSameDb(a: Db, b: Db)
    requires NoEmptyRows(a) && NoEmptyRows(b)
    requires forall k :: RowOf(a, k) == RowOf(b, k)
    ensures a == b
  {
    forall k ensures k in a <==> k in b {
      assert RowOf(a, k) == RowOf(b, k);
    }
    assert a.Keys == b.Keys;
    forall k | k in a ensures a[k] == b[k] {
      assert RowOf(a, k) == RowOf(b, k);
    }
  }

  lemma {:induction false} ExecAllAppend(db: Db, a: seq<Op>, b: seq<Op>)
    ensures ExecAll(db, a + b) == ExecAll(ExecAll(db, a), b)
    decreases |b|
  {
    if |b| == 0 {
      assert a + b == a;
    } else {
      ExecAllAppend(db, a, b[..|b| - 1]);
      assert (a + b)[..|a + b| - 1] == a + b[..|b| - 1];
    }
  }

  lemma {:induction false} ExecAllNoEmptyRows(db: Db, ops: seq<Op>)
    requires NoEmptyRows(db)
    ensures NoEmptyRows(ExecAll(db, ops))
    decreases |ops|
  {
    if |ops| > 0 {
      ExecAllNoEmptyRows(db, ops[..|ops| - 1]);
      ExecNoEmptyRows(ExecAll(db, ops[..|ops| - 1]), ops[|ops| - 1]);
    }
  }

  // ------------------------------------------------------------- the platform

  /** Every row but the touched ones is what it was. */
  ghost predicate SameBut(a: Db, b: Db, touched: Key -> bool) {
    forall k :: !touched(k) ==> RowOf(b, k) == RowOf(a, k)
  }

  lemma SameRow(a: Db, b: Db, touched: Key -> bool, k: Key)
    requires NoEmptyRows(a) && NoEmptyRows(b) && SameBut(a, b, touched) && !touched(k)
    ensures k in b <==> k in a
    ensures k in a ==> b[k] == a[k]
  {
    assert RowOf(b, k) == RowOf(a, k);
  }

  ghost predicate AllWork(fault: nat -> Fault, lo: nat, hi: nat) {
    forall i: nat :: lo <= i < hi ==> fault(i) == Works
  }

  /** At most one call in [lo, hi) fails: whatever fails first, the calls of the
      rollback after it work. */
  ghost predicate OneFailureAtMost(fault: nat -> Fault, lo: nat, hi: nat) {
    forall i: nat, j: nat :: lo <= i < j < hi ==> fault(i) == Works || fault(j) == Works
  }

  ghost predicate NoRepeats(names: seq<string>) {
    forall i, j :: 0 <= i < j < |names| ==> names[i] != names[j]
  }

  /** The databases behind the agent.  Call number `calls` meets `fault(calls)`; `log`
      lists the mutations that took effect, in order. */
  class Platform {
    var rows: Db
    var calls: nat
    var log: seq<Op>
    const fault: nat -> Fault
    /** Do the scans of this platform yield each key once? */
    const steady: bool

    ghost predicate Valid()
      reads this
    {
      NoEmptyRows(rows)
    }

    constructor (rows: Db, fault: nat -> Fault, steady: bool)
      requires NoEmptyRows(rows)
      ensures Valid() && this.rows == rows && this.fault == fault && this.steady == steady
      ensures calls == 0 && log == []
    {
      this.rows := rows;
      this.fault := fault;
      this.steady := steady;
      calls := 0;
      log := [];
    }

    method HGetAll(key: Key) returns (ok: bool, row: Row)
      requires Valid()
      modifies this`calls
      ensures calls == old(calls) + 1 && ok == (fault(old(calls)) == Works)
      ensures ok ==> row == RowOf(rows, key)
      ensures !ok ==> row == map[]
    {
      ok := fault(calls) == Works;
      row := if ok then RowOf(rows, key) else map[];
      calls := calls + 1;
    }

    method Exists(key: Key) returns (ok: bool, found: bool)
      requires Valid()
      modifies this`calls
      ensures calls == old(calls) + 1 && ok == (fault(old(calls)) == Works)
      ensures ok ==> found == (key in rows)
    {
      ok := fault(calls) == Works;
      found := key in rows;
      calls := calls + 1;
    }

    /** SCAN with the pattern `prefix*`: every matching key of the database, in no
        particular order, and unless the platform is steady possibly more than once. */
    method Scan(db: int, prefix: string) returns (ok: bool, names: seq<string>)
      requires Valid()
      modifies this`calls
      ensures calls == old(calls) + 1 && ok == (fault(old(calls)) == Works)
      ensures ok ==> forall n :: n in names <==> Key(db, n) in rows && prefix <= n
      ensures !ok ==> names == []
      ensures steady ==> NoRepeats(names)
    {
      ok := fault(calls) == Works;
      calls := calls + 1;
      names := [];
      if ok {
        var todo := set k | k in rows && k.db == db && prefix <= k.name :: k.name;
        ghost var all := todo;
        while todo != {}
          invariant forall n :: n in all <==> n in names || n in todo
          invariant NoRepeats(names) && forall n :: n in names ==> n !in todo
          decreases todo
        {
          var n :| n in todo;
          names := names + [n];
          todo := todo - {n};
        }
        forall n ensures n in names <==> Key(db, n) in rows && prefix <= n {
          assert n in names <==> n in all;
          if Key(db, n) in rows && prefix <= n {
            assert Key(db, n).name in all;
          }
        }
      }
    }

    /** HSET, HDEL or DEL. */
    method Write(op: Op) returns (ok: bool)
      requires Valid()
      modifies this
      ensures Valid()
      ensures !Reaches(op) ==> ok && rows == old(rows) && calls == old(calls) && log == old(log)
      ensures Reaches(op) ==> calls == old(calls) + 1 && ok == (fault(old(calls)) == Works)
      ensures Reaches(op) && fault(old(calls)) != Refused ==> rows == Exec(old(rows), op) && log == old(log) + [op]
      ensures Reaches(op) && fault(old(calls)) == Refused ==> rows == old(rows) && log == old(log)
    {
      if !Reaches(op) {
        return true;
      }
      var f := fault(calls);
      calls := calls + 1;
      if f != Refused {
        ExecNoEmptyRows(rows, op);
        rows := Exec(rows, op);
        log := log + [op];
      }
      ok := f == Works;
    }
  }

  lemma UnreachingOpIsIdle(db: Db, op: Op)
    requires NoEmptyRows(db) && !Reaches(op)
    ensures Exec(db, op) == db
  {
    if op.HDel? && op.key in db {
      assert db[op.key] - op.names == db[op.key];
      assert db[op.key := db[op.key]] == db;
    }
  }

  // ------------------------------------------------------------------- batches

  /** A multi-row write in progress: each touched key with the row it had before. */
  class Batch {
    const plat: Platform
    var snapshots: seq<(Key, Row)>

    constructor (plat: Platform)
      ensures this.plat == plat && snapshots == []
    {
      this.plat := plat;
      snapshots := [];
    }

    ghost predicate Taken(key: Key)
      reads this
    {
      exists i :: 0 <= i < |snapshots| && snapshots[i].0 == key
    }

    /** The snapshots are the rows of `base`, one per key, and every key without a
        snapshot still has its row of `base`. */
    ghost predicate Covers(base: Db)
      reads this, plat
    {
      && plat.Valid()
      && NoEmptyRows(base)
      && (forall i :: 0 <= i < |snapshots| ==> snapshots[i].1 == RowOf(base, snapshots[i].0))
      && (forall i, j :: 0 <= i < j < |snapshots| ==> snapshots[i].0 != snapshots[j].0)
      && (forall k :: Taken(k) || RowOf(plat.rows, k) == RowOf(base, k))
    }

    method Snapshot(key: Key, ghost base: Db) returns (ok: bool)
      requires Covers(base)
      modifies this, plat`calls
      ensures Covers(base)
      ensures old(plat.calls) <= plat.calls
      ensures ok ==> Taken(key) && AllWork(plat.fault, old(plat.calls), plat.calls)
      ensures !ok ==> plat.calls == old(plat.calls) + 1 && plat.fault(old(plat.calls)) != Works
      ensures forall k :: Taken(k) ==> old(Taken(k)) || k == key
    {
      if exists i :: 0 <= i < |snapshots| && snapshots[i].0 == key {
        return true;
      }
      var prior;
      ok, prior := plat.HGetAll(key);
      if ok {
        ghost var before := snapshots;
        snapshots := snapshots + [(key, prior)];
        assert snapshots[|before|].0 == key;
        forall k | old(Taken(k)) ensures Taken(k) {
          var i :| 0 <= i < |before| && before[i].0 == k;
          assert snapshots[i].0 == k;
        }
      }
    }

    /** `hset`, `hdel` and `del`: snapshot first, then write. */
    method Run(op: Op, ghost base: Db) returns (ok: bool)
      requires Covers(base)
      modifies this, plat
      ensures Covers(base)
      ensures old(plat.calls) <= plat.calls
      ensures ok ==> plat.rows == Exec(old(plat.rows), op) && AllWork(plat.fault, old(plat.calls), plat.calls)
      ensures ok ==> plat.log == old(plat.log) + Sent([op])
      ensures !ok ==> plat.calls > old(plat.calls) && plat.fault(plat.calls - 1) != Works
      ensures !ok ==> AllWork(plat.fault, old(plat.calls), plat.calls - 1)
      ensures !ok ==> plat.rows in {old(plat.rows), Exec(old(plat.rows), op)}
      ensures !ok ==> plat.log in {old(plat.log), old(plat.log) + Sent([op])}
      ensures forall k :: Taken(k) ==> old(Taken(k)) || k == op.key
    {
      assert Sent([op]) == if Reaches(op) then [op] else [] by {
        assert [op][..0] == [];
      }
      hide Sent, Exec;
      ok := Snapshot(op.key, base);
      if ok {
        ghost var mid := plat.rows;
        ok := plat.Write(op);
        if !Reaches(op) {
          UnreachingOpIsIdle(plat.rows, op);
        }
        forall k | !Taken(k) ensures RowOf(plat.rows, k) == RowOf(base, k) {
          ExecKeepsOthers(mid, op, k);
        }
      }
    }

    /** One turn of the rollback loop: delete the row, then write the prior fields back
        if there were any.  Errors are ignored. */
    method Restore(key: Key, prior: Row)
      requires plat.Valid()
      modifies plat
      ensures plat.Valid() && old(plat.calls) < plat.calls && old(plat.log) <= plat.log
      ensures forall i :: |old(plat.log)| <= i < |plat.log| ==> plat.log[i] in {Del(key), HSet(key, prior)}
      ensures AllWork(plat.fault, old(plat.calls), plat.calls) ==> RowOf(plat.rows, key) == prior
      ensures forall k :: k != key ==> RowOf(plat.rows, k) == RowOf(old(plat.rows), k)
    {
      var _ := plat.Write(Del(key));
      if prior != map[] {
        ghost var empty := plat.rows;
        var _ := plat.Write(HSet(key, prior));
        assert map[] + prior == prior;
        forall k | k != key ensures RowOf(plat.rows, k) == RowOf(empty, k) {
          ExecKeepsOthers(empty, HSet(key, prior), k);
        }
      }
    }

    /** Newest snapshot first. */
    method Rollback(ghost base: Db)
      requires Covers(base)
      modifies this, plat
      ensures plat.Valid() && snapshots == []
      ensures old(plat.calls) <= plat.calls && old(plat.log) <= plat.log
      ensures forall i :: |old(plat.log)| <= i < |plat.log| ==> IsRestore(plat.log[i], base)
      ensures AllWork(plat.fault, old(plat.calls), plat.calls) ==> plat.rows == base
      ensures forall k :: !old(Taken(k)) ==> RowOf(plat.rows, k) == RowOf(base, k)
    {
      var taken := snapshots;
      snapshots := [];
      var n: nat := |taken|;
      while n > 0
        invariant 0 <= n <= |taken| && plat.Valid() && snapshots == []
        invariant old(plat.calls) <= plat.calls && old(plat.log) <= plat.log
        invariant forall i :: |old(plat.log)| <= i < |plat.log| ==> IsRestore(plat.log[i], base)
        invariant forall k :: !old(Taken(k)) ==> RowOf(plat.rows, k) == RowOf(base, k)
        invariant AllWork(plat.fault, old(plat.calls), plat.calls) ==>
                    forall i :: n <= i < |taken| ==> RowOf(plat.rows, taken[i].0) == taken[i].1
      {
        n := n - 1;
        assert old(Taken(taken[n].0));
        Restore(taken[n].0, taken[n].1);
      }
      if AllWork(plat.fault, old(plat.calls), plat.calls) {
        forall k ensures RowOf(plat.rows, k) == RowOf(base, k) {
          if old(Taken(k)) {
            var i :| 0 <= i < |taken| && taken[i].0 == k;
            assert RowOf(plat.rows, taken[i].0) == taken[i].1;
          }
        }
        SameRowsSameDb(plat.rows, base);
      }
    }
  }

  /** A write of the rollback: a row goes, or gets back what it held. */
  predicate IsRestore(op: Op, base: Db) {
    op == Del(op.key) || op == HSet(op.key, RowOf(base, op.key))
  }

  /** The log grew by the forward writes and, only after a failure, by the rollback's. */
  ghost predicate Logged(before: seq<Op>, after: seq<Op>, forward: seq<Op>, base: Db, ok: bool) {
    && before + forward <= after
    && (forall i :: |before + forward| <= i < |after| ==> IsRestore(after[i], base))
    && (ok ==> after == before + forward)
  }

  lemma {:induction false} SentPrefix(ops: seq<Op>, n: nat)
    requires n <= |ops|
    ensures Sent(ops[..n]) <= Sent(ops)
    decreases |ops|
  {
    if n < |ops| {
      SentPrefix(ops[..|ops| - 1], n);
      assert ops[..|ops| - 1][..n] == ops[..n];
    } else {
      assert ops[..n] == ops;
    }
  }

  /** Run a program of writes as a rolled-back-on-error batch; `forward` lists the writes
      of the program that took effect. */
  method Apply(plat: Platform, ops: seq<Op>) returns (ok: bool, ghost forward: seq<Op>)
    requires plat.Valid()
    modifies plat
    ensures plat.Valid() && old(plat.calls) <= plat.calls
    // success exactly when no call failed, and then the program ran as written
    ensures ok <==> AllWork(plat.fault, old(plat.calls), plat.calls)
    ensures ok ==> plat.rows == ExecAll(old(plat.rows), ops)
    ensures ok ==> forward == Sent(ops)
    // a first part of the program took effect, and all after it is the rollback
    ensures forward <= Sent(ops) && Logged(old(plat.log), plat.log, forward, old(plat.rows), ok)
    // failure leaves the store as it was, provided the rollback's own writes work
    ensures !ok && OneFailureAtMost(plat.fault, old(plat.calls), plat.calls) ==> plat.rows == old(plat.rows)
    // whatever fails, rows the program never names are never changed
    ensures forall k :: (forall i :: 0 <= i < |ops| ==> ops[i].key != k) ==> RowOf(plat.rows, k) == RowOf(old(plat.rows), k)
  {
    assert Sent(ops[..0]) == [];
    hide IsRestore, Sent;
    ghost var base := plat.rows;
    var batch := new Batch(plat);
    var i := 0;
    while i < |ops|
      invariant 0 <= i <= |ops|
      invariant fresh(batch) && batch.plat == plat && batch.Covers(base)
      invariant old(plat.calls) <= plat.calls && AllWork(plat.fault, old(plat.calls), plat.calls)
      invariant plat.rows == ExecAll(base, ops[..i]) && plat.log == old(plat.log) + Sent(ops[..i])
      invariant forall k :: batch.Taken(k) ==> exists j :: 0 <= j < i && ops[j].key == k
    {
      assert ops[..i + 1][..i] == ops[..i];
      SentNext(ops, i);
      ok := batch.Run(ops[i], base);
      if !ok {
        ghost var failed := plat.calls - 1;
        ghost var atFailure := plat.calls;
        forward := plat.log[|old(plat.log)|..];
        StoppedAt(old(plat.log), plat.log, ops, i);
        batch.Rollback(base);
        if OneFailureAtMost(plat.fault, old(plat.calls), plat.calls) {
          forall j: nat | atFailure <= j < plat.calls ensures plat.fault(j) == Works {
            assert plat.fault(failed) == Works || plat.fault(j) == Works;
          }
        }
        return;
      }
      i := i + 1;
    }
    assert ops[..i] == ops;
    ok := true;
    forward := Sent(ops);
  }

  lemma SentNext(ops: seq<Op>, i: nat)
    requires i < |ops|
    ensures Sent(ops[..i + 1]) == Sent(ops[..i]) + Sent([ops[i]]) && Sent(ops[..0]) == []
  {
    assert ops[..i + 1][..i] == ops[..i];
    assert [ops[i]][..0] == [];
  }

  /** What was logged when step `i` failed is a first part of the program. */
  lemma StoppedAt(before: seq<Op>, after: seq<Op>, ops: seq<Op>, i: nat)
    requires i < |ops|
    requires after in {before + Sent(ops[..i]), before + Sent(ops[..i]) + Sent([ops[i]])}
    ensures before <= after && after[|before|..] <= Sent(ops)
  {
    hide Sent;
    SentPrefix(ops, i);
    SentPrefix(ops, i + 1);
    SentNext(ops, i);
    var part := if after == before + Sent(ops[..i]) then Sent(ops[..i]) else Sent(ops[..i + 1]);
    assert after == before + part;
    assert after[|before|..] == part;
  }

  function KeySet(keys: seq<Key>): set<Key> {
    set k | k in keys
  }

  /** One call for each of `gone` deletions in [lo, hi), the last of them the first to fail
      unless all worked; one that was refused removed nothing. */
  ghost predicate StopsAt(fault: nat -> Fault, lo: nat, hi: nat, gone: nat, ok: bool) {
    if ok then AllWork(fault, lo, hi) && hi == lo + gone
    else
      && lo < hi && AllWork(fault, lo, hi - 1) && fault(hi - 1) != Works
      && hi == lo + gone + if fault(hi - 1) == Refused then 1 else 0
  }

  /** If redis refuses every call from number `n` on, what was removed before is known. */
  lemma RefusedFrom(fault: nat -> Fault, n: nat, lo: nat, hi: nat, gone: nat, ok: bool)
    requires StopsAt(fault, lo, hi, gone, ok) && lo <= n
    requires forall c: nat :: fault(c) == if c < n then Works else Refused
    ensures if ok then gone <= n - lo else gone == n - lo
  {
    assert lo <= n < hi && ok ==> fault(n) == Works;
    assert lo <= n < hi - 1 ==> fault(n) == Works;
  }

  /** An unbatched deletion loop, `for key in keys { plat.del(key)?; }`: it stops at the
      first failure, whose row may have gone all the same. */
  method DeleteEach(plat: Platform, keys: seq<Key>) returns (ok: bool, ghost gone: nat)
    requires plat.Valid()
    modifies plat
    ensures plat.Valid() && old(plat.calls) <= plat.calls
    ensures gone <= |keys| && plat.rows == old(plat.rows) - KeySet(keys[..gone])
    ensures ok ==> gone == |keys|
    ensures ok <==> AllWork(plat.fault, old(plat.calls), plat.calls)
    ensures StopsAt(plat.fault, old(plat.calls), plat.calls, gone, ok)
  {
    gone := 0;
    assert plat.rows - KeySet(keys[..0]) == plat.rows;
    for i := 0 to |keys|
      invariant plat.Valid() && old(plat.calls) <= plat.calls && gone == i
      invariant plat.rows == old(plat.rows) - KeySet(keys[..i])
      invariant plat.calls == old(plat.calls) + i && AllWork(plat.fault, old(plat.calls), plat.calls)
    {
      assert KeySet(keys[..i + 1]) == KeySet(keys[..i]) + {keys[i]} by {
        assert keys[..i + 1] == keys[..i] + [keys[i]];
      }
      ok := plat.Write(Del(keys[i]));
      gone := if plat.fault(plat.calls - 1) == Refused then i else i + 1;
      if !ok { return; }
    }
    assert keys[..|keys|] == keys;
    ok := true;
  }

  /** Keys of one database by name. */
  function KeysNamed(db: int, names: seq<string>): (keys: seq<Key>)
    ensures |keys| == |names|
    ensures forall i :: 0 <= i < |names| ==> keys[i] == Key(db, names[i])
  {
    seq(|names|, i requires 0 <= i < |names| => Key(db, names[i]))
  }

  /** Unbatched writes, each followed by `?`: they stop at the first failure, whose
      write may have been carried out all the same. */
  method WriteEach(plat: Platform, ops: seq<Op>) returns (ok: bool, ghost done: nat)
    requires plat.Valid() && forall i :: 0 <= i < |ops| ==> Reaches(ops[i])
    modifies plat
    ensures plat.Valid() && old(plat.calls) <= plat.calls
    ensures done <= |ops| && plat.rows == ExecAll(old(plat.rows), ops[..done])
    ensures plat.log == old(plat.log) + ops[..done]
    ensures ok ==> done == |ops|
    ensures ok <==> AllWork(plat.fault, old(plat.calls), plat.calls)
  {
    done := 0;
    for i := 0 to |ops|
      invariant plat.Valid() && old(plat.calls) <= plat.calls && done == i
      invariant plat.rows == ExecAll(old(plat.rows), ops[..i]) && plat.log == old(plat.log) + ops[..i]
      invariant AllWork(plat.fault, old(plat.calls), plat.calls)
    {
      assert ops[..i + 1][..i] == ops[..i];
      ok := plat.Write(ops[i]);
      done := if plat.fault(plat.calls - 1) == Refused then i else i + 1;
      if !ok { return; }
    }
    assert ops[..|ops|] == ops;
    ok := true;
  }

  /** No key is written twice. */
  ghost predicate DistinctKeys(ops: seq<Op>) {
    forall i, j :: 0 <= i < j < |ops| ==> ops[i].key != ops[j].key
  }

  /** What a row reads after a program that writes it once, or not at all. */
  lemma {:induction false} WrittenOnce(db: Db, ops: seq<Op>, key: Key)
    requires DistinctKeys(ops)
    ensures forall i :: 0 <= i < |ops| && ops[i].key == key ==> RowOf(ExecAll(db, ops), key) == ExecRow(RowOf(db, key), ops[i])
    ensures (forall i :: 0 <= i < |ops| ==> ops[i].key != key) ==> RowOf(ExecAll(db, ops), key) == RowOf(db, key)
    decreases |ops|
  {
    if |ops| > 0 {
      var front := ops[..|ops| - 1];
      WrittenOnce(db, front, key);
      ExecReads(ExecAll(db, front), ops[|ops| - 1], key);
      assert forall i :: 0 <= i < |front| ==> front[i] == ops[i];
    }
  }

  /** A row that no write names reads as before. */
  lemma {:induction false} Untouched(db: Db, ops: seq<Op>, key: Key)
    requires forall i :: 0 <= i < |ops| ==> ops[i].key != key
    ensures RowOf(ExecAll(db, ops), key) == RowOf(db, key) && (key in ExecAll(db, ops) <==> key in db)
    decreases |ops|
  {
    if |ops| > 0 {
      Untouched(db, ops[..|ops| - 1], key);
      ExecKeepsOthers(ExecAll(db, ops[..|ops| - 1]), ops[|ops| - 1], key);
    }
  }
}
