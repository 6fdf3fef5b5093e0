/** The per-port summary of the spanning-tree rows (`src/sonic/stp.rs`): the worst state
    over the VLAN instances, the summed counters, the root guard flag. */
module PortDigest {
  import opened Common
  import opened Text
  import opened Store
  import opened Keys

  /** How bad a state is; a state that is not known ranks worst. */
  function Severity(state: string): nat {
    var s := LowerAscii(state);
    if s == "forwarding" then 0
    else if s == "learning" then 1
    else if s == "listening" then 2
    else if s == "blocking" then 3
    else if s == "disabled" then 4
    else 5
  }

  /** The state a row reports. */
  function StateOf(row: Row): Option<string> {
    match Field(row, "port_state")
    case None => None
    case Some(s) => Some(LowerAscii(s))
  }

  function SentOf(row: Row): Option<nat> {
    NumField(row, "bpdu_sent", U64_MAX)
  }

  function ReceivedOf(row: Row): Option<nat> {
    NumField(row, "bpdu_received", U64_MAX)
  }

  predicate GuardRuns(row: Row) {
    Field(row, "root_guard_timer").Some? && Field(row, "root_guard_timer").value != "0"
  }

  /** One counter more: a 64-bit sum that wraps, None as long as no row had a value. */
  function Add(total: Option<nat>, v: Option<nat>): Option<nat> {
    match v
    case None => total
    case Some(n) => Some((total.GetOr(0) + n) % (U64_MAX + 1))
  }

  /** A 64-bit total after one more value, if there is one. */
  function Counted(total: Option<nat>, v: Option<nat>): Option<nat> {
    if v == None then total else Some((total.GetOr(0) + v.value) % 0x1_0000_0000_0000_0000)
  }

  /** The counters of the rows summed up in the order they come. */
  function Summed(rows: seq<Row>, counter: Row -> Option<nat>): Option<nat>
    decreases |rows|
  {
    if rows == [] then None else Add(Summed(rows[..|rows| - 1], counter), counter(rows[|rows| - 1]))
  }

  /** The state is one of those reported, no other is worse, and it is the first such. */
  ghost predicate Worst(rows: seq<Row>, state: Option<string>) {
    match state
    case None => forall i :: 0 <= i < |rows| ==> StateOf(rows[i]) == None
    case Some(w) =>
      exists i :: 0 <= i < |rows| && StateOf(rows[i]) == Some(w) && IsFirstWorst(rows, i)
  }

  ghost predicate IsFirstWorst(rows: seq<Row>, i: nat)
    requires i < |rows| && StateOf(rows[i]).Some?
  {
    var bad := Severity(StateOf(rows[i]).value);
    && (forall j :: 0 <= j < |rows| && StateOf(rows[j]).Some? ==> Severity(StateOf(rows[j]).value) <= bad)
    && (forall j :: 0 <= j < i && StateOf(rows[j]).Some? ==> Severity(StateOf(rows[j]).value) < bad)
  }

  /** A port's digest, updated row by row. */
  class PortOper {
    var worstState: Option<string>
    var bpduSent: Option<nat>
    var bpduReceived: Option<nat>
    var rootGuardActive: bool

    /** The digest summarises the rows folded so far. */
    ghost predicate Summarises(rows: seq<Row>)
      reads this
    {
      && Worst(rows, worstState)
      && bpduSent == Summed(rows, SentOf) && bpduReceived == Summed(rows, ReceivedOf)
      && (rootGuardActive <==> exists i :: 0 <= i < |rows| && GuardRuns(rows[i]))
    }

    constructor ()
      ensures Summarises([])
    {
      worstState, bpduSent, bpduReceived, rootGuardActive := None, None, None, false;
    }

    /** `fold_port_oper`. */
    method Fold(row: Row, ghost rows: seq<Row>)
      requires Summarises(rows)
      modifies this
      ensures Summarises(rows + [row])
      // each counter takes its own field, the flag its own
      ensures bpduSent == Counted(old(bpduSent), NumField(row, "bpdu_sent", U64_MAX))
      ensures bpduReceived == Counted(old(bpduReceived), NumField(row, "bpdu_received", U64_MAX))
      ensures rootGuardActive <==> old(rootGuardActive) || Field(row, "root_guard_timer") !in {None, Some("0")}
    {
      RowCounts(row, bpduSent, bpduReceived);
      hide StateOf, Severity, SentOf, ReceivedOf, GuardRuns, Add, Counted, NumField, Field;
      ghost var all := rows + [row];
      ghost var before := worstState;
      var state := StateOf(row);
      if state.Some? && (worstState == None || Severity(state.value) > Severity(worstState.value)) {
        worstState := state;
      }
      WorstNext(rows, row, before, worstState);
      SummedNext(rows, row, SentOf);
      SummedNext(rows, row, ReceivedOf);
      bpduSent := Add(bpduSent, SentOf(row));
      bpduReceived := Add(bpduReceived, ReceivedOf(row));
      assert all[|rows|] == row && forall i :: 0 <= i < |rows| ==> all[i] == rows[i];
      if GuardRuns(row) {
        rootGuardActive := true;
      }
    }
  }

  // The states from best to worst; a word that is none of them is worse still.
  const STATES: seq<string> := ["forwarding", "learning", "listening", "blocking", "disabled"]

  lemma SeverityOf(state: string, rank: nat)
    requires state == LowerAscii(state) && rank <= |STATES|
    ensures Severity(state) < rank <==> exists i :: 0 <= i < rank && STATES[i] == state
  {
    assert "forwarding"[0] == 'f' && "learning"[1] == 'e' && "listening"[1] == 'i' && "blocking"[0] == 'b' && "disabled"[0] == 'd'
      && "learning"[0] == "listening"[0] == 'l';
    hide LowerAscii;
    assert rank > 0 && state == STATES[0] ==> Severity(state) == 0;
    assert rank > 1 && state == STATES[1] ==> Severity(state) == 1;
    assert rank > 2 && state == STATES[2] ==> Severity(state) == 2;
    assert rank > 3 && state == STATES[3] ==> Severity(state) == 3;
    assert rank > 4 && state == STATES[4] ==> Severity(state) == 4;
  }

  lemma LowerTwice(s: string)
    ensures LowerAscii(LowerAscii(s)) == LowerAscii(s)
  {
  }

  lemma StateIsLower(row: Row)
    ensures StateOf(row).Some? ==> LowerAscii(StateOf(row).value) == StateOf(row).value
  {
    if StateOf(row).Some? {
      LowerTwice(Field(row, "port_state").value);
    }
  }

  /** The state summarised is among the best few exactly when every state reported is: one
      port that blocks, or is in no known state, is never summed up as forwarding. */
  lemma WorstMeans(rows: seq<Row>, state: string, rank: nat)
    requires Worst(rows, Some(state)) && rank <= |STATES|
    ensures (exists r :: 0 <= r < rank && STATES[r] == state)
       <==> forall i :: 0 <= i < |rows| && StateOf(rows[i]).Some? ==> exists r :: 0 <= r < rank && STATES[r] == StateOf(rows[i]).value
  {
    hide StateOf, Severity, LowerAscii, STATES;
    var i :| 0 <= i < |rows| && StateOf(rows[i]) == Some(state) && IsFirstWorst(rows, i);
    StateIsLower(rows[i]);
    SeverityOf(state, rank);
    forall j | 0 <= j < |rows| && StateOf(rows[j]).Some?
      ensures Severity(StateOf(rows[j]).value) < rank <==> exists r :: 0 <= r < rank && STATES[r] == StateOf(rows[j]).value {
      StateIsLower(rows[j]);
      SeverityOf(StateOf(rows[j]).value, rank);
    }
  }

  lemma RowCounts(row: Row, sent: Option<nat>, received: Option<nat>)
    ensures Add(sent, SentOf(row)) == Counted(sent, NumField(row, "bpdu_sent", U64_MAX))
    ensures Add(received, ReceivedOf(row)) == Counted(received, NumField(row, "bpdu_received", U64_MAX))
    ensures GuardRuns(row) <==> Field(row, "root_guard_timer") !in {None, Some("0")}
  {
    hide NumField, Field;
  }

  lemma SummedNext(rows: seq<Row>, row: Row, counter: Row -> Option<nat>)
    ensures Summed(rows + [row], counter) == Add(Summed(rows, counter), counter(row))
  {
    assert (rows + [row])[..|rows|] == rows;
  }

  lemma WorstNext(rows: seq<Row>, row: Row, before: Option<string>, after: Option<string>)
    requires Worst(rows, before)
    requires after == if StateOf(row).Some? && (before == None || Severity(StateOf(row).value) > Severity(before.value))
                      then StateOf(row) else before
    ensures Worst(rows + [row], after)
  {
    hide StateOf, Severity;
    var all := rows + [row];
    assert all[|rows|] == row && forall i :: 0 <= i < |rows| ==> all[i] == rows[i];
    if after.Some? {
      if before.Some? {
        var i :| 0 <= i < |rows| && StateOf(rows[i]) == before && IsFirstWorst(rows, i);
        if after == StateOf(row) && Severity(StateOf(row).value) > Severity(before.value) {
          assert IsFirstWorst(all, |rows|);
        } else {
          assert StateOf(all[i]) == after && IsFirstWorst(all, i);
        }
      } else {
        assert IsFirstWorst(all, |rows|);
      }
    }
  }

  /** All rows of a port folded, in the order they come. */
  method Digest(rows: seq<Row>) returns (digest: PortOper)
    ensures fresh(digest) && digest.Summarises(rows)
  {
    hide Worst, Summed, GuardRuns;
    digest := new PortOper();
    assert rows[..0] == [];
    for i := 0 to |rows|
      invariant fresh(digest) && digest.Summarises(rows[..i])
    {
      assert rows[..i + 1] == rows[..i] + [rows[i]];
      digest.Fold(rows[i], rows[..i]);
    }
    assert rows[..|rows|] == rows;
  }

  lemma WrapOnce(a: nat, b: nat)
    ensures (a % (U64_MAX + 1) + b) % (U64_MAX + 1) == (a + b) % (U64_MAX + 1)
  {
    var q := a / (U64_MAX + 1);
    assert a + b == q * (U64_MAX + 1) + (a % (U64_MAX + 1) + b);
  }

  lemma AddSwap(total: Option<nat>, x: Option<nat>, y: Option<nat>)
    ensures Add(Add(total, x), y) == Add(Add(total, y), x)
  {
    if x.Some? && y.Some? {
      WrapOnce(total.GetOr(0) + x.value, y.value);
      WrapOnce(total.GetOr(0) + y.value, x.value);
      assert total.GetOr(0) + x.value + y.value == total.GetOr(0) + y.value + x.value;
    }
  }

  /** A row counts the same wherever it stands. */
  lemma {:induction false} SummedAnywhere(a: seq<Row>, x: Row, b: seq<Row>, counter: Row -> Option<nat>)
    ensures Summed(a + [x] + b, counter) == Add(Summed(a + b, counter), counter(x))
    decreases |b|
  {
    hide Add;
    if b == [] {
      assert a + [x] + b == a + [x] && a + b == a;
      SummedNext(a, x, counter);
    } else {
      var front, y := b[..|b| - 1], b[|b| - 1];
      SummedAnywhere(a, x, front, counter);
      assert a + [x] + b == (a + [x] + front) + [y] && a + b == (a + front) + [y];
      SummedNext(a + [x] + front, y, counter);
      SummedNext(a + front, y, counter);
      AddSwap(Summed(a + front, counter), counter(x), counter(y));
    }
  }

  lemma OneFewer(front: seq<Row>, x: Row, a: seq<Row>, b: seq<Row>)
    requires multiset(front + [x]) == multiset(a + [x] + b)
    ensures multiset(front) == multiset(a + b)
  {
    var f, g := multiset(front), multiset(a + b);
    assert f + multiset{x} == g + multiset{x};
    assert f == (f + multiset{x}) - multiset{x} && g == (g + multiset{x}) - multiset{x};
  }

  lemma {:induction false} SummedInAnyOrder(s: seq<Row>, t: seq<Row>, counter: Row -> Option<nat>)
    requires multiset(s) == multiset(t)
    ensures Summed(s, counter) == Summed(t, counter)
    decreases |s|
  {
    hide Add;
    if s == [] {
      assert t == [] by { assert |multiset(s)| == |multiset(t)|; }
    } else {
      var front, x := s[..|s| - 1], s[|s| - 1];
      assert s == front + [x];
      assert x in multiset(t);
      var j :| 0 <= j < |t| && t[j] == x;
      var a, b := t[..j], t[j + 1..];
      assert t == a + [x] + b;
      OneFewer(front, x, a, b);
      SummedInAnyOrder(front, a + b, counter);
      SummedAnywhere(a, x, b, counter);
      SummedNext(front, x, counter);
    }
  }

  /** The order of the rows settles nothing but which of the equally bad states is named:
      for any two orders of the same rows the sums and the guard flag agree, and the worst
      states are equally bad. */
  lemma OrderHardlyMatters(s: seq<Row>, t: seq<Row>, a: Option<string>, b: Option<string>)
    requires multiset(s) == multiset(t) && Worst(s, a) && Worst(t, b)
    ensures Summed(s, SentOf) == Summed(t, SentOf) && Summed(s, ReceivedOf) == Summed(t, ReceivedOf)
    ensures (exists i :: 0 <= i < |s| && GuardRuns(s[i])) <==> (exists i :: 0 <= i < |t| && GuardRuns(t[i]))
    ensures (a.Some? <==> b.Some?) && (a.Some? ==> Severity(a.value) == Severity(b.value))
  {
    hide StateOf, Severity, SentOf, ReceivedOf, GuardRuns;
    SummedInAnyOrder(s, t, SentOf);
    SummedInAnyOrder(s, t, ReceivedOf);
    forall r ensures r in s <==> r in t {
      assert r in multiset(s) <==> r in multiset(t);
    }
    SameGuard(s, t);
    SameGuard(t, s);
    if a.Some? {
      var i :| 0 <= i < |s| && StateOf(s[i]) == a && IsFirstWorst(s, i);
      assert s[i] in t;
    }
    if b.Some? {
      var j :| 0 <= j < |t| && StateOf(t[j]) == b && IsFirstWorst(t, j);
      assert t[j] in s;
    }
  }

  lemma SameGuard(s: seq<Row>, t: seq<Row>)
    requires forall r :: r in s ==> r in t
    ensures (exists i :: 0 <= i < |s| && GuardRuns(s[i])) ==> (exists i :: 0 <= i < |t| && GuardRuns(t[i]))
  {
    hide GuardRuns;
    if i :| 0 <= i < |s| && GuardRuns(s[i]) {
      assert s[i] in t;
    }
  }
}
