/** Calls of `src/sonic/stp.rs` that succeed and leave a VLAN with timers outside the
    relation of section 8.10.2 of IEEE 802.1D-1998. */
module StpWitness {
  import opened Common
  import opened Text
  import opened Store
  import opened Keys
  import opened Vlans
  import opened Stp

  const VLAN10 := VlanName(10)

  /** Spanning tree on with every timer at its default, and one VLAN. */
  const ONE_VLAN: Db := map[GLOBAL := map["mode" := "pvst"], VlanKey(VLAN10) := map["vlanid" := "10"]]

  lemma StoreFacts()
    ensures NoEmptyRows(ONE_VLAN) && GLOBAL in ONE_VLAN && VlanKey(VLAN10) in ONE_VLAN && GLOBAL != VlanKey(VLAN10)
    ensures StoredTimers(RowOf(ONE_VLAN, GLOBAL)) == Timers(15, 2, 20, 32768, 30)
    ensures LIMIT !in ONE_VLAN && forall k :: k in ONE_VLAN ==> !IsStpVlan(k)
  {
    hide VlanName;
    assert "mode"[0] == 'm' && "mode"[1] == 'o' && "forward_delay"[0] == 'f' && "hello_time"[0] == 'h' && "max_age"[1] == 'a'
      && "priority"[0] == 'p' && "rootguard_timeout"[0] == 'r';
    assert GLOBAL.name[3] == '|' && VlanKey(VLAN10).name[3] == 'N' && "STP_VLAN|"[3] == '_';
    assert "mode" in ONE_VLAN[GLOBAL] && "vlanid" in ONE_VLAN[VlanKey(VLAN10)];
    NoFields(RowOf(ONE_VLAN, GLOBAL));
  }

  lemma NoFields(row: Row)
    requires "forward_delay" !in row && "hello_time" !in row && "max_age" !in row && "priority" !in row && "rootguard_timeout" !in row
    ensures StoredTimers(row) == Timers(15, 2, 20, 32768, 30)
  {
    NoNumField(row, "forward_delay");
    NoNumField(row, "hello_time");
    NoNumField(row, "max_age");
    NoNumField(row, "priority");
    NoNumField(row, "rootguard_timeout");
  }

  /** The shortest forward delay and nothing else. */
  const SHORT_DELAY := VlanInput(true, None, Some(Some(4)), None, None)

  /** Every instance is in the relation, the call is accepted, the merged timers are not. */
  lemma ShortDelayBreaks()
    ensures AllRelated(ONE_VLAN) && VlanVerdict(ONE_VLAN, true, VLAN10, SHORT_DELAY, 0) == Done
    ensures MergedTimers(ONE_VLAN, VLAN10, SHORT_DELAY) == VlanTimers(4, 2, 20) && !Related(VlanTimers(4, 2, 20))
    ensures Instances(ONE_VLAN) == {}
  {
    StoreFacts();
    hide ONE_VLAN, StoredTimers, IsStpVlan, VlanKey, VlanName, NumField;
    forall v ensures StpVlanKey(v) !in ONE_VLAN {
      KeysApart(v);
    }
    NoNumField(map[], "forward_delay");
    NoNumField(map[], "hello_time");
    NoNumField(map[], "max_age");
    NoLimit();
  }

  /** The call itself, none of its redis calls failing: done, and the VLAN runs with timers
      outside the relation. */
  method PutVlanBreaksRelation() returns (plat: Platform, r: WriteResult)
    ensures AllRelated(ONE_VLAN) && r.Done?
    ensures InEffect(plat.rows, VLAN10) == VlanTimers(4, 2, 20) && !Related(InEffect(plat.rows, VLAN10))
  {
    hide ONE_VLAN, Related, InEffect, MergedTimers, VlanVerdict, Instances, NoRepeats;
    StoreFacts();
    ShortDelayBreaks();
    plat := new Platform(ONE_VLAN, c => Works, true);
    ghost var done, checked, others, scanned;
    r, done, checked, others, scanned := PutVlan(plat, true, 10, SHORT_DELAY);
    assert r.Done? || r.Unprocessable? ==> others == |Instances(ONE_VLAN) - {StpVlanKey(VLAN10)}| == 0;
    OnlyLimit(others);
  }

  /** With the store and the input right, only the limit can refuse. */
  lemma OnlyLimit(others: nat)
    ensures VlanVerdict(ONE_VLAN, true, VLAN10, SHORT_DELAY, others) in {Done, Unprocessable}
  {
    StoreFacts();
  }

  // ------------------------------------------------------------------ put_global

  /** The VLAN overrides its maximum age within what the default forward delay allows. */
  const ONE_OVERRIDE: Db := ONE_VLAN[StpVlanKey(VLAN10) := map["max_age" := Render(28)]]

  const SHORTER := GlobalInput(Pvst, None, Some(11), None, None, None, None, None, None)

  lemma OverrideFacts()
    ensures NoEmptyRows(ONE_OVERRIDE) && GLOBAL in ONE_OVERRIDE
    ensures Effective(SHORTER, RowOf(ONE_OVERRIDE, GLOBAL)) == Timers(11, 2, 20, 32768, 30)
    ensures forall t: Timers :: Over(RowOf(ONE_OVERRIDE, StpVlanKey(VLAN10)), t) == VlanTimers(t.forwardDelay, t.helloTime, 28)
    ensures AllRelated(ONE_OVERRIDE) && StpVlanKey(VLAN10) in ONE_OVERRIDE
  {
    StoreFacts();
    KeysApart(VLAN10);
    hide ONE_VLAN, StoredTimers, IsStpVlan, VlanKey, VlanName, NumField, Render;
    var row := RowOf(ONE_OVERRIDE, StpVlanKey(VLAN10));
    assert "max_age" in row && "max_age"[0] == 'm' && "forward_delay"[0] == 'f' && "hello_time"[0] == 'h';
    NumFieldReadBack(row, "max_age", 28, U32_MAX);
    NoNumField(row, "forward_delay");
    NoNumField(row, "hello_time");
    forall v | StpVlanKey(v) in ONE_OVERRIDE ensures v == VLAN10 {
      KeysApart(v);
      StpKeyInjective(v, VLAN10);
    }
  }

  /** `put_global` checks the timers it writes and is done; the override over them is out of
      the relation. */
  method PutGlobalBreaksRelation() returns (plat: Platform, r: WriteResult)
    ensures AllRelated(ONE_OVERRIDE) && r.Done?
    ensures InEffect(plat.rows, VLAN10) == VlanTimers(11, 2, 28) && !Related(InEffect(plat.rows, VLAN10))
  {
    OverrideFacts();
    hide ONE_OVERRIDE, AllRelated, Over, InEffect, Effective;
    plat := new Platform(ONE_OVERRIDE, c => Works, true);
    ghost var vlans;
    r, vlans := PutGlobal(plat, true, true, SHORTER);
  }
}
