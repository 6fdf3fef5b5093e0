/** The ACL write calls (`src/sonic/acl.rs`): tables, rules and the descriptions stored
    beside them, and the tables of other owners that they never touch. */
module AclWrites {
  import opened Common
  import opened Text
  import opened Store
  import opened Keys
  import opened Acl
  import opened Diffs

  const TABLE := "ACL_TABLE|"
  const RULE := "ACL_RULE|"
  const DESC := "QUARTZ_ACL_RULE_DESC|"

  function TableKey(table: string): Key {
    Key(CONFIG_DB, TABLE + table)
  }

  function RuleKey(table: string, rule: string): Key {
    Key(CONFIG_DB, RULE + table + "|" + rule)
  }

  function DescKey(table: string, rule: string): Key {
    Key(CONFIG_DB, DESC + table + "|" + rule)
  }

  function RuleOf(k: Key): Option<(string, string)> {
    if k.db == CONFIG_DB then TwoParts(k.name, RULE) else None
  }

  function DescOf(k: Key): Option<(string, string)> {
    if k.db == CONFIG_DB then TwoParts(k.name, DESC) else None
  }

  function RuleName(priority: nat): string {
    "RULE_" + Render(priority)
  }

  // ------------------------------------------------------------------ ownership

  function KindNamed(name: string): Option<Kind> {
    if name == "L3" then Some(L3) else if name == "L3V6" then Some(L3V6) else if name == "MAC" then Some(Mac) else None
  }

  /** The managed type of a table row; None for every other table. */
  function KindOf(row: Row): Option<Kind> {
    KindNamed(UpperAscii(Field(row, "type").GetOr("")))
  }

  predicate Managed(db: Db, table: string) {
    TableKey(table) in db && KindOf(db[TableKey(table)]).Some?
  }

  /** A table of another owner. */
  predicate Foreign(db: Db, table: string) {
    TableKey(table) in db && KindOf(db[TableKey(table)]) == None
  }

  /** The rows of one table: its own, its rules', their descriptions'. */
  predicate OfTable(k: Key, table: string) {
    k == TableKey(table) || Beneath(k, RULE + table + "|") || Beneath(k, DESC + table + "|")
  }

  // ------------------------------------------------------------------ hierarchy

  /** Every rule row has its table. */
  ghost predicate RulesStand(db: Db) {
    forall k :: k in db && RuleOf(k).Some? ==> TableKey(RuleOf(k).value.0) in db
  }

  /** Every description row has its rule. */
  ghost predicate DescsStand(db: Db) {
    forall k :: k in db && DescOf(k).Some? ==> RuleKey(DescOf(k).value.0, DescOf(k).value.1) in db
  }

  ghost predicate Nested(db: Db) {
    RulesStand(db) && DescsStand(db)
  }

  lemma Tables(t: string, r: string, u: string)
    ensures RuleOf(TableKey(t)) == None && DescOf(TableKey(t)) == None
    ensures RuleOf(DescKey(t, r)) == None && DescOf(RuleKey(t, r)) == None
    ensures !Beneath(TableKey(t), RULE) && !Beneath(TableKey(t), DESC)
    ensures TableKey(t) != RuleKey(u, r) && TableKey(t) != DescKey(u, r) && forall v, q :: RuleKey(t, r) != DescKey(v, q)
    ensures !Beneath(RuleKey(t, r), DESC) && !Beneath(DescKey(t, r), RULE)
  {
    assert "ACL_TABLE|"[4] == 'T' && "ACL_RULE|"[4] == 'R' && "QUARTZ_ACL_RULE_DESC|"[0] == 'Q' && "ACL_TABLE|"[0] == 'A' && "ACL_RULE|"[0] == 'A';
    assert TableKey(t).name[4] == 'T' && TableKey(t).name[0] == 'A' && RuleKey(t, r).name[0] == 'A' && DescKey(t, r).name[0] == 'Q';
    assert RuleKey(u, r).name[4] == 'R' && DescKey(u, r).name[0] == 'Q';
    forall v, q ensures RuleKey(t, r) != DescKey(v, q) {
      assert DescKey(v, q).name[0] == 'Q';
    }
  }

  lemma RuleParts(k: Key)
    requires RuleOf(k).Some?
    ensures var (t, r) := RuleOf(k).value; IsPart(t) && r != "" && k == RuleKey(t, r)
  {
    var (t, r) := RuleOf(k).value;
    SplitOnceInverse(k.name[|RULE|..], '|');
    TwoPartsExactly(k.name, RULE, t, r);
  }

  lemma DescParts(k: Key)
    requires DescOf(k).Some?
    ensures var (t, r) := DescOf(k).value; IsPart(t) && r != "" && k == DescKey(t, r)
  {
    var (t, r) := DescOf(k).value;
    SplitOnceInverse(k.name[|DESC|..], '|');
    TwoPartsExactly(k.name, DESC, t, r);
  }

  lemma PartsOf(t: string, r: string)
    requires IsPart(t) && r != ""
    ensures RuleOf(RuleKey(t, r)) == Some((t, r)) && DescOf(DescKey(t, r)) == Some((t, r))
  {
    TwoPartsExactly(RuleKey(t, r).name, RULE, t, r);
    TwoPartsExactly(DescKey(t, r).name, DESC, t, r);
  }

  /** Which table a key belongs to is read off the key. */
  lemma OfTableExactly(t: string, r: string, u: string)
    requires IsPart(t) && IsPart(u)
    ensures OfTable(TableKey(t), u) <==> t == u
    ensures OfTable(RuleKey(t, r), u) <==> t == u
    ensures OfTable(DescKey(t, r), u) <==> t == u
  {
    hide Beneath;
    Tables(t, r, u);
    Tables(u, r, t);
    BeneathExactly(RULE, u, t, r);
    BeneathExactly(DESC, u, t, r);
    assert TableKey(t).name[|TABLE|..] == t && TableKey(u).name[|TABLE|..] == u;
    NotBeneathOthers(t, r, u);
  }

  lemma NotBeneathOthers(t: string, r: string, u: string)
    ensures !Beneath(TableKey(t), RULE + u + "|") && !Beneath(TableKey(t), DESC + u + "|")
    ensures !Beneath(RuleKey(t, r), DESC + u + "|") && !Beneath(DescKey(t, r), RULE + u + "|")
  {
    Tables(t, r, u);
    assert RULE <= RULE + u + "|" && DESC <= DESC + u + "|";
  }

  // ---------------------------------------------------------------- transitions

  /** Creating a table that did not exist, or changing a managed one in place. */
  ghost predicate TableStep(a: Db, b: Db, t: string) {
    TableKey(t) in b && !Foreign(a, t) && SameBut(a, b, k => k == TableKey(t))
  }

  /** Deleting a managed table with its rules and their descriptions. */
  ghost predicate DropStep(a: Db, b: Db, t: string) {
    Managed(a, t) && forall k :: RowOf(b, k) == if OfTable(k, t) then map[] else RowOf(a, k)
  }

  /** Putting a rule into a managed table. */
  ghost predicate PutStep(a: Db, b: Db, t: string, r: string) {
    Managed(a, t) && RuleKey(t, r) in b && SameBut(a, b, k => k == RuleKey(t, r) || k == DescKey(t, r))
  }

  /** Deleting a rule with its description. */
  ghost predicate DeleteStep(a: Db, b: Db, t: string, r: string) {
    && Managed(a, t) && RuleKey(t, r) !in b && DescKey(t, r) !in b
    && SameBut(a, b, k => k == RuleKey(t, r) || k == DescKey(t, r))
  }

  ghost predicate Step(a: Db, b: Db) {
    || a == b
    || (exists t | IsPart(t) :: TableStep(a, b, t))
    || (exists t | IsPart(t) :: DropStep(a, b, t))
    || (exists t, r | IsPart(t) && r != "" :: PutStep(a, b, t, r))
    || (exists t, r | IsPart(t) && r != "" :: DeleteStep(a, b, t, r))
  }

  /** What a transition keeps: both halves of the nesting, and every row of every foreign
      table. */
  ghost predicate Kept(a: Db, b: Db) {
    && (RulesStand(a) ==> RulesStand(b)) && (DescsStand(a) ==> DescsStand(b))
    && (forall u | IsPart(u) && Foreign(a, u) :: Foreign(b, u) && forall k :: OfTable(k, u) ==> RowOf(b, k) == RowOf(a, k))
  }

  lemma ForeignKept(a: Db, b: Db, t: string, u: string)
    requires NoEmptyRows(a) && NoEmptyRows(b) && IsPart(t) && IsPart(u) && Foreign(a, u) && t != u
    requires forall k :: !OfTable(k, t) ==> RowOf(b, k) == RowOf(a, k)
    ensures Foreign(b, u) && forall k :: OfTable(k, u) ==> RowOf(b, k) == RowOf(a, k)
  {
    assert OfTable(TableKey(u), u);
    hide OfTable, KindOf, TableKey;
    forall k | OfTable(k, u) ensures RowOf(b, k) == RowOf(a, k) {
      OneTable(k, t, u);
    }
    assert RowOf(b, TableKey(u)) == RowOf(a, TableKey(u));
  }

  lemma OneTable(k: Key, t: string, u: string)
    requires IsPart(t) && IsPart(u) && OfTable(k, u) && t != u
    ensures !OfTable(k, t)
  {
    if k == TableKey(u) {
      OfTableExactly(u, "", t);
    } else if Beneath(k, RULE + u + "|") {
      var r := k.name[|RULE + u + "|"|..];
      assert k == RuleKey(u, r);
      OfTableExactly(u, r, t);
    } else {
      var r := k.name[|DESC + u + "|"|..];
      assert k == DescKey(u, r);
      OfTableExactly(u, r, t);
    }
  }

  lemma TableKept(a: Db, b: Db, t: string)
    requires NoEmptyRows(a) && NoEmptyRows(b) && IsPart(t) && TableStep(a, b, t)
    ensures Kept(a, b)
  {
    assert OfTable(TableKey(t), t);
    hide OfTable, KindOf, TableKey, RuleKey, RuleOf, DescOf, DescKey;
    var touched := k => k == TableKey(t);
    if RulesStand(a) {
      forall k | k in b && RuleOf(k).Some? ensures TableKey(RuleOf(k).value.0) in b {
        Tables(t, "", "");
        SameRow(a, b, touched, k);
        if RuleOf(k).value.0 != t {
          TableKeyInjective(RuleOf(k).value.0, t);
          SameRow(a, b, touched, TableKey(RuleOf(k).value.0));
        }
      }
    }
    if DescsStand(a) {
      forall k | k in b && DescOf(k).Some? ensures RuleKey(DescOf(k).value.0, DescOf(k).value.1) in b {
        Tables(t, DescOf(k).value.1, DescOf(k).value.0);
        SameRow(a, b, touched, k);
        SameRow(a, b, touched, RuleKey(DescOf(k).value.0, DescOf(k).value.1));
      }
    }
    forall u | IsPart(u) && Foreign(a, u) ensures Foreign(b, u) && forall k :: OfTable(k, u) ==> RowOf(b, k) == RowOf(a, k) {
      ForeignKept(a, b, t, u);
    }
  }

  lemma TableKeyInjective(t: string, u: string)
    ensures TableKey(t) == TableKey(u) ==> t == u
  {
    assert TableKey(t).name[|TABLE|..] == t && TableKey(u).name[|TABLE|..] == u;
  }

  lemma DropKept(a: Db, b: Db, t: string)
    requires NoEmptyRows(a) && NoEmptyRows(b) && IsPart(t) && DropStep(a, b, t)
    ensures Kept(a, b)
  {
    hide OfTable, KindOf, TableKey, RuleKey, RuleOf, DescOf, DescKey;
    forall k ensures k in b <==> k in a && !OfTable(k, t) {
      assert RowOf(b, k) == if OfTable(k, t) then map[] else RowOf(a, k);
    }
    if RulesStand(a) {
      forall k | k in b && RuleOf(k).Some? ensures TableKey(RuleOf(k).value.0) in b {
        RuleParts(k);
        OfTableExactly(RuleOf(k).value.0, RuleOf(k).value.1, t);
      }
    }
    if DescsStand(a) {
      forall k | k in b && DescOf(k).Some? ensures RuleKey(DescOf(k).value.0, DescOf(k).value.1) in b {
        DescParts(k);
        OfTableExactly(DescOf(k).value.0, DescOf(k).value.1, t);
      }
    }
    forall u | IsPart(u) && Foreign(a, u) ensures Foreign(b, u) && forall k :: OfTable(k, u) ==> RowOf(b, k) == RowOf(a, k) {
      ForeignKept(a, b, t, u);
    }
  }

  /** The keys of a rule and its description name their table. */
  lemma RuleInTable(t: string, r: string)
    requires IsPart(t) && r != ""
    ensures RuleOf(RuleKey(t, r)) == Some((t, r)) && DescOf(DescKey(t, r)) == Some((t, r))
    ensures OfTable(RuleKey(t, r), t) && OfTable(DescKey(t, r), t)
    ensures RuleOf(DescKey(t, r)) == None && DescOf(RuleKey(t, r)) == None
    ensures forall u :: TableKey(u) != RuleKey(t, r) && TableKey(u) != DescKey(t, r)
    ensures forall v, q :: RuleKey(v, q) != DescKey(t, r)
  {
    hide OfTable, TableKey, RuleKey, DescKey, RuleOf, DescOf;
    PartsOf(t, r);
    OfTableExactly(t, r, t);
    Tables(t, r, t);
    forall u ensures TableKey(u) != RuleKey(t, r) && TableKey(u) != DescKey(t, r) {
      Tables(u, r, t);
    }
    forall v, q ensures RuleKey(v, q) != DescKey(t, r) {
      Tables(v, q, t);
    }
  }

  lemma PutKept(a: Db, b: Db, t: string, r: string)
    requires NoEmptyRows(a) && NoEmptyRows(b) && IsPart(t) && r != "" && PutStep(a, b, t, r)
    ensures Kept(a, b)
  {
    hide OfTable, KindOf, TableKey, RuleKey, RuleOf, DescOf, DescKey;
    RuleInTable(t, r);
    var touched := k => k == RuleKey(t, r) || k == DescKey(t, r);
    if RulesStand(a) {
      forall k | k in b && RuleOf(k).Some? ensures TableKey(RuleOf(k).value.0) in b {
        SameRow(a, b, touched, TableKey(RuleOf(k).value.0));
        if k != RuleKey(t, r) {
          SameRow(a, b, touched, k);
        }
      }
    }
    if DescsStand(a) {
      forall k | k in b && DescOf(k).Some? ensures RuleKey(DescOf(k).value.0, DescOf(k).value.1) in b {
        if k != DescKey(t, r) && RuleKey(DescOf(k).value.0, DescOf(k).value.1) != RuleKey(t, r) {
          SameRow(a, b, touched, k);
          SameRow(a, b, touched, RuleKey(DescOf(k).value.0, DescOf(k).value.1));
        }
      }
    }
    forall u | IsPart(u) && Foreign(a, u) ensures Foreign(b, u) && forall k :: OfTable(k, u) ==> RowOf(b, k) == RowOf(a, k) {
      ForeignKept(a, b, t, u);
    }
  }

  lemma DeleteKept(a: Db, b: Db, t: string, r: string)
    requires NoEmptyRows(a) && NoEmptyRows(b) && IsPart(t) && r != "" && DeleteStep(a, b, t, r)
    ensures Kept(a, b)
  {
    hide OfTable, KindOf, TableKey, RuleKey, RuleOf, DescOf, DescKey;
    RuleInTable(t, r);
    var touched := k => k == RuleKey(t, r) || k == DescKey(t, r);
    if RulesStand(a) {
      forall k | k in b && RuleOf(k).Some? ensures TableKey(RuleOf(k).value.0) in b {
        SameRow(a, b, touched, k);
        SameRow(a, b, touched, TableKey(RuleOf(k).value.0));
      }
    }
    if DescsStand(a) {
      forall k | k in b && DescOf(k).Some? ensures RuleKey(DescOf(k).value.0, DescOf(k).value.1) in b {
        SameRow(a, b, touched, k);
        DescParts(k);
        var (v, q) := DescOf(k).value;
        if RuleKey(v, q) == RuleKey(t, r) {
          PartsOf(v, q);
        }
        SameRow(a, b, touched, RuleKey(v, q));
      }
    }
    forall u | IsPart(u) && Foreign(a, u) ensures Foreign(b, u) && forall k :: OfTable(k, u) ==> RowOf(b, k) == RowOf(a, k) {
      ForeignKept(a, b, t, u);
    }
  }

  lemma StepKept(a: Db, b: Db)
    requires NoEmptyRows(a) && NoEmptyRows(b) && Step(a, b)
    ensures Kept(a, b)
  {
    hide RulesStand, DescsStand, Foreign, OfTable, TableStep, DropStep, PutStep, DeleteStep;
    if a != b {
      if t :| IsPart(t) && TableStep(a, b, t) {
        TableKept(a, b, t);
      } else if t :| IsPart(t) && DropStep(a, b, t) {
        DropKept(a, b, t);
      } else if t, r :| IsPart(t) && r != "" && PutStep(a, b, t, r) {
        PutKept(a, b, t, r);
      } else {
        var t, r :| IsPart(t) && r != "" && DeleteStep(a, b, t, r);
        DeleteKept(a, b, t, r);
      }
    }
  }

  /** Over every run: rules keep their tables and descriptions their rules, and every row
      of every table that was another owner's at the start is what it was. */
  lemma {:induction false} EveryRunKeeps(states: seq<Db>, n: nat)
    requires n < |states| && Nested(states[0])
    requires forall i :: 0 <= i < |states| ==> NoEmptyRows(states[i])
    requires forall i :: 0 <= i < |states| - 1 ==> Step(states[i], states[i + 1])
    ensures Nested(states[n])
    ensures forall u, k :: IsPart(u) && Foreign(states[0], u) && OfTable(k, u) ==> RowOf(states[n], k) == RowOf(states[0], k)
    ensures forall u :: IsPart(u) && Foreign(states[0], u) ==> Foreign(states[n], u)
    decreases n
  {
    hide RulesStand, DescsStand, Step, Foreign, OfTable, IsPart;
    if n > 0 {
      EveryRunKeeps(states, n - 1);
      assert Step(states[n - 1], states[n]);
      StepKept(states[n - 1], states[n]);
    }
  }

  // ------------------------------------------------------- interrupted deletions

  /** A deletion in the order of `delete_table`, stopped anywhere: the rules, then the
      descriptions, then the table.  A rule gone without its description is one such. */
  ghost predicate DropOrder(a: Db, t: string, gone: set<Key>) {
    && (forall k :: k in gone ==> k in a && OfTable(k, t))
    && ((exists k :: k in gone && Beneath(k, DESC + t + "|")) ==> forall k :: k in a && Beneath(k, RULE + t + "|") ==> k in gone)
    && (TableKey(t) in gone ==> forall k :: k in a && OfTable(k, t) ==> k in gone)
  }

  /** The rules that went had no description, or every description went too. */
  ghost predicate NoneWidowed(a: Db, t: string, gone: set<Key>) {
    || (forall r :: r != "" && RuleKey(t, r) in gone ==> DescKey(t, r) !in a)
    || (forall r :: r != "" && DescKey(t, r) in a ==> DescKey(t, r) in gone)
  }

  /** A deletion stopped anywhere leaves every description its rule exactly when the rules
      that went had none, or all descriptions of the table went as well; rules keep their
      tables wherever it stopped. */
  lemma InterruptedDrop(a: Db, t: string, gone: set<Key>)
    requires IsPart(t) && DescsStand(a) && DropOrder(a, t, gone)
    ensures DescsStand(a - gone) <==> NoneWidowed(a, t, gone)
  {
    hide OfTable, Beneath, RuleOf, DescOf, RuleKey, DescKey, TableKey;
    var after := a - gone;
    if NoneWidowed(a, t, gone) {
      forall k | k in after && DescOf(k).Some? ensures RuleKey(DescOf(k).value.0, DescOf(k).value.1) in after {
        DescParts(k);
        var (u, q) := DescOf(k).value;
        OfTableExactly(u, q, t);
        assert u == t && RuleKey(t, q) in gone ==> DescKey(t, q) in a && DescKey(t, q) !in gone;
      }
    }
    if DescsStand(after) {
      forall r | r != "" && DescKey(t, r) in a && DescKey(t, r) !in gone ensures RuleKey(t, r) in a && RuleKey(t, r) !in gone {
        PartsOf(t, r);
        assert DescKey(t, r) in after;
      }
      if r :| r != "" && RuleKey(t, r) in gone && DescKey(t, r) in a {
        assert DescKey(t, r) in gone;
        UnderTable(t, r);
        forall q | q != "" && DescKey(t, q) in a ensures DescKey(t, q) in gone {
          PartsOf(t, q);
          UnderTable(t, q);
          assert RuleKey(t, q) in gone;
        }
      }
    }
  }

  lemma UnderTable(t: string, r: string)
    ensures Beneath(RuleKey(t, r), RULE + t + "|") && Beneath(DescKey(t, r), DESC + t + "|")
  {
    assert RULE + t + "|" <= RULE + t + "|" + r && DESC + t + "|" <= DESC + t + "|" + r;
  }

  lemma InterruptedDropKeepsRules(a: Db, t: string, gone: set<Key>)
    requires IsPart(t) && RulesStand(a) && DropOrder(a, t, gone)
    ensures RulesStand(a - gone)
  {
    hide OfTable, Beneath, RuleOf, RuleKey, TableKey;
    var after := a - gone;
    forall k | k in after && RuleOf(k).Some? ensures TableKey(RuleOf(k).value.0) in after {
      RuleParts(k);
      var (u, q) := RuleOf(k).value;
      OfTableExactly(u, q, t);
    }
  }

  /** The deletion of one rule, stopped between its two writes: the description keeps its
      rule exactly when there is none. */
  lemma InterruptedDeleteRule(a: Db, t: string, r: string)
    requires IsPart(t) && r != "" && RuleKey(t, r) in a
    ensures DropOrder(a, t, {RuleKey(t, r)})
    ensures DescsStand(a) ==> (DescsStand(a - {RuleKey(t, r)}) <==> DescKey(t, r) !in a)
  {
    hide OfTable, RuleOf, DescOf, RuleKey, DescKey, TableKey, Beneath;
    OfTableExactly(t, r, t);
    Tables(t, r, t);
    NotBeneathOthers(t, r, t);
    if DescsStand(a) {
      InterruptedDrop(a, t, {RuleKey(t, r)});
    }
    RuleInTable(t, r);
    RuleKeysDiffer(t, r);
  }

  lemma RuleKeysDiffer(t: string, r: string)
    ensures forall q :: RuleKey(t, q) == RuleKey(t, r) ==> q == r
    ensures forall q :: RuleKey(t, r) != DescKey(t, q)
  {
    Tables(t, r, t);
    forall q | RuleKey(t, q) == RuleKey(t, r) ensures q == r {
      var p := RULE + t + "|";
      assert RuleKey(t, q).name[|p|..] == q && RuleKey(t, r).name[|p|..] == r;
    }
  }

  /** A deletion stopped anywhere, as a transition; what went is what is missing. */
  ghost predicate PartStep(a: Db, b: Db, t: string) {
    && Managed(a, t) && IsPart(t) && b == a - (a.Keys - b.Keys) && DropOrder(a, t, a.Keys - b.Keys)
  }

  ghost predicate AnyStep(a: Db, b: Db) {
    Step(a, b) || exists t :: PartStep(a, b, t)
  }

  lemma DropOrderIsOfTable(a: Db, t: string, gone: set<Key>)
    requires DropOrder(a, t, gone)
    ensures forall k :: k in gone ==> k in a && OfTable(k, t)
  {
    hide OfTable;
  }

  lemma PartStepKept(a: Db, b: Db, t: string)
    requires NoEmptyRows(a) && NoEmptyRows(b) && PartStep(a, b, t)
    ensures RulesStand(a) ==> RulesStand(b)
    ensures DescsStand(a) ==> (DescsStand(b) <==> NoneWidowed(a, t, a.Keys - b.Keys))
    ensures forall u | IsPart(u) && Foreign(a, u) :: Foreign(b, u) && forall k :: OfTable(k, u) ==> RowOf(b, k) == RowOf(a, k)
  {
    hide OfTable, RulesStand, DescsStand, DropOrder, NoneWidowed, KindOf, TableKey;
    var gone := a.Keys - b.Keys;
    if RulesStand(a) {
      InterruptedDropKeepsRules(a, t, gone);
    }
    if DescsStand(a) {
      InterruptedDrop(a, t, gone);
    }
    DropOrderIsOfTable(a, t, gone);
    OnlyOfTable(a, b, t, gone);
    forall u | IsPart(u) && Foreign(a, u) ensures Foreign(b, u) && forall k :: OfTable(k, u) ==> RowOf(b, k) == RowOf(a, k) {
      ForeignKept(a, b, t, u);
    }
  }

  /** Over every run, deletions stopped anywhere included: rules keep their tables and the
      rows of foreign tables are what they were; and descriptions keep their rules all the
      way exactly when no stopped deletion took a described rule and left a description. */
  lemma {:induction false} EveryRunExactly(states: seq<Db>, n: nat)
    requires n < |states| && Nested(states[0])
    requires forall i :: 0 <= i < |states| ==> NoEmptyRows(states[i])
    requires forall i :: 0 <= i < |states| - 1 ==> AnyStep(states[i], states[i + 1])
    ensures RulesStand(states[n])
    ensures forall u, k :: IsPart(u) && Foreign(states[0], u) && OfTable(k, u) ==> RowOf(states[n], k) == RowOf(states[0], k)
    ensures forall u :: IsPart(u) && Foreign(states[0], u) ==> Foreign(states[n], u)
    ensures (forall i :: 0 <= i <= n ==> DescsStand(states[i])) <==> forall i :: 0 <= i < n ==> !Widows(states[i], states[i + 1])
    decreases n
  {
    hide RulesStand, DescsStand, Step, PartStep, NoneWidowed, Foreign, OfTable, IsPart;
    if n > 0 {
      EveryRunExactly(states, n - 1);
      var a, b := states[n - 1], states[n];
      assert AnyStep(a, b);
      AnyStepKept(a, b);
      assert (forall i :: 0 <= i < n ==> !Widows(states[i], states[i + 1]))
        <==> (forall i :: 0 <= i < n - 1 ==> !Widows(states[i], states[i + 1])) && !Widows(a, b);
    }
  }

  lemma AnyStepKept(a: Db, b: Db)
    requires NoEmptyRows(a) && NoEmptyRows(b) && AnyStep(a, b)
    ensures RulesStand(a) ==> RulesStand(b)
    ensures DescsStand(a) ==> (DescsStand(b) <==> !Widows(a, b))
    ensures forall u | IsPart(u) && Foreign(a, u) :: Foreign(b, u) && forall k :: OfTable(k, u) ==> RowOf(b, k) == RowOf(a, k)
  {
    hide RulesStand, DescsStand, Step, PartStep, NoneWidowed, Foreign, OfTable, IsPart;
    if Step(a, b) {
      StepKept(a, b);
    }
    forall t | PartStep(a, b, t) ensures DescsStand(a) ==> (DescsStand(b) <==> NoneWidowed(a, t, a.Keys - b.Keys)) {
      PartStepKept(a, b, t);
    }
    if t :| PartStep(a, b, t) {
      PartStepKept(a, b, t);
    }
  }

  /** A stopped deletion that took a described rule and left a description. */
  ghost predicate Widows(a: Db, b: Db) {
    exists t :: PartStep(a, b, t) && !NoneWidowed(a, t, a.Keys - b.Keys)
  }

  // ---------------------------------------------------------------------- tables

  datatype TableInput = TableInput(kind: string, stage: string, description: Option<string>, ports: seq<string>)

  predicate ValidTableName(name: string) {
    && name != "" && |name| <= 64
    && forall i :: 0 <= i < |name| ==>
         IsAlphanumeric(name[i]) || name[i] == '-' || name[i] == '_'
  }

  predicate ValidDescription(d: Option<string>) {
    d.Some? ==> |d.value| <= 255 && forall i :: 0 <= i < |d.value| ==> ' ' <= d.value[i] <= '~'
  }

  predicate TableInputOk(input: TableInput) {
    && KindNamed(input.kind).Some? && input.stage in ["ingress", "egress"] && ValidDescription(input.description)
    && forall i, j :: 0 <= i < j < |input.ports| ==> input.ports[i] != input.ports[j]
  }

  function PortRowKey(p: string): Key {
    Key(CONFIG_DB, (if "PortChannel" <= p then "PORTCHANNEL|" else if "Vlan" <= p then "VLAN|" else "PORT|") + p)
  }

  predicate TableOk(db: Db, input: TableInput) {
    TableInputOk(input) && forall i :: 0 <= i < |input.ports| ==> PortRowKey(input.ports[i]) in db
  }

  /** `check_table_input`: a bad payload or a missing interface is a refusal. */
  method CheckTable(plat: Platform, input: TableInput) returns (r: WriteResult)
    requires plat.Valid()
    modifies plat`calls
    ensures old(plat.calls) <= plat.calls && r in {Done, BadRequest, Redis}
    ensures r.Done? ==> TableOk(plat.rows, input)
    ensures AllWork(plat.fault, old(plat.calls), plat.calls) ==>
              r == if TableOk(plat.rows, input) then Done else BadRequest
  {
    hide TableInputOk, PortRowKey;
    if !TableInputOk(input) { return BadRequest; }
    for i := 0 to |input.ports|
      invariant old(plat.calls) <= plat.calls
      invariant forall j :: 0 <= j < i ==> PortRowKey(input.ports[j]) in plat.rows
    {
      var ok, found := plat.Exists(PortRowKey(input.ports[i]));
      if !ok || !found { return if ok then BadRequest else Redis; }
    }
    r := Done;
  }

  function TableFields(input: TableInput): Row {
    map["type" := input.kind, "stage" := input.stage, "ports@" := Join(input.ports, ',')]
    + if input.description.Some? then map["policy_desc" := input.description.value] else map[]
  }

  /** What a table's row says: what was asked for, and of a legacy row no `ports`. */
  ghost predicate TableSays(before: Row, after: Row, input: TableInput) {
    && Raw(after, "type") == Some(input.kind) && Raw(after, "stage") == Some(input.stage)
    && Raw(after, "ports@") == Some(Join(input.ports, ',')) && Raw(after, "policy_desc") == input.description
    && "ports" !in after
    && KeepsOthers(before, after, {"type", "stage", "ports@", "policy_desc", "ports"})
  }

  lemma TableNamesDiffer()
    ensures "type"[0] == 't' && "stage"[0] == 's' && "ports@"[0] == "ports"[0] == "policy_desc"[0] == 'p'
    ensures |"ports"| == 5 && |"ports@"| == 6 && |"policy_desc"| == 11
  {
  }

  lemma TableFieldsRead(row: Row, input: TableInput)
    ensures var start := row + TableFields(input);
      && Raw(start, "type") == Some(input.kind) && Raw(start, "stage") == Some(input.stage)
      && Raw(start, "ports@") == Some(Join(input.ports, ','))
      && Raw(start, "policy_desc") == (if input.description.Some? then input.description else Raw(row, "policy_desc"))
      && forall f :: f !in {"type", "stage", "ports@", "policy_desc"} ==> Raw(start, f) == Raw(row, f)
  {
    TableNamesDiffer();
    hide Join;
  }

  lemma CreatedTableSays(input: TableInput)
    ensures TableSays(map[], TableFields(input), input)
  {
    TableNamesDiffer();
    TableFieldsRead(map[], input);
    assert map[] + TableFields(input) == TableFields(input);
    hide TableFields, Join;
    assert Raw(TableFields(input), "ports") == None;
  }

  lemma UpdatedTableSays(row: Row, input: TableInput)
    ensures TableSays(row, UpdatedRow(row, input), input)
  {
    TableNamesDiffer();
    TableFieldsRead(row, input);
    hide TableFields, Join, PatchedField;
    var start := row + TableFields(input);
    var clear := if input.description == None then Some(None) else None;
    var described := PatchedField(start, "policy_desc", clear);
    PatchedReads(start, "policy_desc", clear);
    PatchedReads(described, "ports", Some(None));
    assert Raw(UpdatedRow(row, input), "ports") == None;
  }

  lemma TableFieldsKind(row: Row, input: TableInput)
    requires KindNamed(input.kind).Some?
    ensures KindOf(row + TableFields(input)) == KindNamed(input.kind) && TableFields(input) != map[]
  {
    hide KindOf, KindNamed, Join;
    assert "type"[0] == 't' && "stage"[0] == 's' && "ports@"[0] == 'p' && "policy_desc"[0] == 'p';
    var after := row + TableFields(input);
    assert "type" in TableFields(input) && after["type"] == input.kind;
    TypeIsKind(after, input.kind);
  }

  /** A managed type is read as it is written. */
  lemma TypeIsKind(row: Row, kind: string)
    requires KindNamed(kind).Some? && "type" in row && row["type"] == kind
    ensures KindOf(row) == KindNamed(kind)
  {
    hide Trim;
    assert IsWord("L3") && IsWord("L3V6") && IsWord("MAC");
    TrimOfTrimmed(kind);
    assert UpperAscii("L3") == "L3" && UpperAscii("L3V6") == "L3V6" && UpperAscii("MAC") == "MAC";
  }

  lemma NameIsPart(name: string)
    requires ValidTableName(name)
    ensures IsPart(name)
  {
  }

  /** `create_table`. */
  method CreateTable(plat: Platform, name: string, input: TableInput) returns (r: WriteResult)
    requires plat.Valid()
    modifies plat
    ensures plat.Valid()
    ensures r in {BadRequest, Conflict} ==> plat.rows == old(plat.rows)
    ensures r.Done? ==> ValidTableName(name) && TableKey(name) !in old(plat.rows)
    ensures r.Done? ==> plat.rows == old(plat.rows)[TableKey(name) := TableFields(input)] && Managed(plat.rows, name)
    ensures r.Done? ==> TableSays(map[], RowOf(plat.rows, TableKey(name)), input)
    ensures plat.rows == old(plat.rows) || (IsPart(name) && TableStep(old(plat.rows), plat.rows, name))
    ensures AllWork(plat.fault, old(plat.calls), plat.calls) ==>
              r == if !ValidTableName(name) then BadRequest else if TableKey(name) in old(plat.rows) then Conflict
                   else if TableOk(old(plat.rows), input) then Done else BadRequest
  {
    CreatedTableSays(input);
    hide TableKey, ValidTableName, TableFields, KindOf, TableSays;
    ghost var db := plat.rows;
    if !ValidTableName(name) { return BadRequest; }
    NameIsPart(name);
    var ok, found := plat.Exists(TableKey(name));
    if !ok || found { return if ok then Conflict else Redis; }
    r := CheckTable(plat, input);
    if !r.Done? { return; }
    TableFieldsKind(map[], input);
    assert map[] + TableFields(input) == TableFields(input);
    var op := HSet(TableKey(name), TableFields(input));
    ok := plat.Write(op);
    if TableKey(name) in plat.rows {
      TableWritten(db, plat.rows, name);
    }
    r := if ok then Done else Redis;
  }

  lemma TableWritten(a: Db, b: Db, t: string)
    requires !Foreign(a, t) && TableKey(t) in b && forall k :: k != TableKey(t) ==> (k in b <==> k in a) && (k in a ==> b[k] == a[k])
    ensures TableStep(a, b, t)
  {
    hide TableKey;
  }

  /** `managed_table`: the row of an existing table this agent may touch. */
  method ManagedTable(plat: Platform, name: string) returns (r: WriteResult, row: Row)
    requires plat.Valid()
    modifies plat`calls
    ensures plat.calls == old(plat.calls) + 1 && r in {Done, NotFound, Conflict, Redis}
    ensures r.Done? ==> Managed(plat.rows, name) && row == plat.rows[TableKey(name)]
    ensures AllWork(plat.fault, old(plat.calls), plat.calls) ==> !r.Redis? && (r.Done? <==> Managed(plat.rows, name))
    ensures AllWork(plat.fault, old(plat.calls), plat.calls) ==> (r.Conflict? <==> Foreign(plat.rows, name))
  {
    hide KindOf, TableKey;
    var ok;
    ok, row := plat.HGetAll(TableKey(name));
    r := if !ok then Redis else if row == map[] then NotFound else if KindOf(row) == None then Conflict else Done;
  }

  /** A description is cleared when none is given; a legacy `ports` field always is. */
  function UpdateOps(key: Key, input: TableInput): seq<Op> {
    [HSet(key, TableFields(input))]
    + PatchField(key, "policy_desc", if input.description == None then Some(None) else None) + PatchField(key, "ports", Some(None))
  }

  function UpdatedRow(row: Row, input: TableInput): Row {
    var described := PatchedField(row + TableFields(input), "policy_desc", if input.description == None then Some(None) else None);
    PatchedField(described, "ports", Some(None))
  }

  lemma UpdateEffect(db: Db, key: Key, input: TableInput)
    requires KindNamed(input.kind).Some?
    ensures RowOf(ExecAll(db, UpdateOps(key, input)), key) == UpdatedRow(RowOf(db, key), input) != map[]
    ensures forall k :: k != key ==> RowOf(ExecAll(db, UpdateOps(key, input)), k) == RowOf(db, k)
  {
    hide TableFields, PatchField, PatchedField, RowOf, ExecAll;
    var first := HSet(key, TableFields(input));
    var clear := if input.description == None then Some(None) else None;
    var a := [first] + PatchField(key, "policy_desc", clear);
    ExecOne(db, first);
    ExecReads(db, first, key);
    PatchFieldEffect(db, key, "policy_desc", clear, [first]);
    PatchFieldEffect(db, key, "ports", Some(None), a);
    TypeStays(RowOf(db, key), input);
    forall k | k != key ensures RowOf(ExecAll(db, UpdateOps(key, input)), k) == RowOf(db, k) {
      Untouched(db, UpdateOps(key, input), k);
    }
  }

  lemma TypeStays(row: Row, input: TableInput)
    ensures "type" in UpdatedRow(row, input)
  {
    assert "type"[0] == 't' && "ports"[0] == 'p' && "policy_desc"[0] == 'p';
    var start := row + TableFields(input);
    assert "type" in TableFields(input);
    var clear := if input.description == None then Some(None) else None;
    PatchedFieldOthers(start, "policy_desc", clear, "type");
    PatchedFieldOthers(PatchedField(start, "policy_desc", clear), "ports", Some(None), "type");
  }

  lemma SameKind(row: Row, kind: string)
    requires KindOf(row).Some?
    ensures UpperAscii(Field(row, "type").GetOr("")) == kind <==> KindNamed(kind) == KindOf(row)
  {
    hide UpperAscii, Field;
  }

  /** `update_table`: the type is immutable. */
  method UpdateTable(plat: Platform, name: string, input: TableInput) returns (r: WriteResult)
    requires plat.Valid()
    modifies plat
    ensures plat.Valid()
    ensures r.Done? ==>
              && Managed(old(plat.rows), name) && TableInputOk(input)
              && KindNamed(input.kind) == KindOf(old(plat.rows)[TableKey(name)])
    ensures r.Done? ==>
              && TableStep(old(plat.rows), plat.rows, name)
              && RowOf(plat.rows, TableKey(name)) == UpdatedRow(old(plat.rows)[TableKey(name)], input)
              && TableSays(old(plat.rows)[TableKey(name)], RowOf(plat.rows, TableKey(name)), input)
    ensures !r.Done? && OneFailureAtMost(plat.fault, old(plat.calls), plat.calls) ==> plat.rows == old(plat.rows)
    ensures !Managed(old(plat.rows), name) ==> plat.rows == old(plat.rows)
    ensures AllWork(plat.fault, old(plat.calls), plat.calls) ==>
              r == if TableKey(name) !in old(plat.rows) then NotFound
                   else if Foreign(old(plat.rows), name) || KindNamed(input.kind) != KindOf(old(plat.rows)[TableKey(name)]) then Conflict
                   else if TableOk(old(plat.rows), input) then Done else BadRequest
  {
    hide TableKey, UpdatedRow, UpdateOps, TableInputOk, TableSays;
    ghost var db := plat.rows;
    var row;
    r, row := ManagedTable(plat, name);
    if !r.Done? { return; }
    SameKind(row, input.kind);
    hide KindOf, KindNamed, UpperAscii, Field;
    if UpperAscii(Field(row, "type").GetOr("")) != input.kind { return Conflict; }
    r := CheckTable(plat, input);
    if !r.Done? { return; }
    UpdateEffect(db, TableKey(name), input);
    UpdatedTableSays(row, input);
    var ok; ghost var forward;
    ok, forward := Apply(plat, UpdateOps(TableKey(name), input));
    r := if ok then Done else Redis;
  }

  /** Deleting rows of the table touches no other, and deleting all of them drops it. */
  lemma OnlyOfTable(a: Db, b: Db, t: string, gone: set<Key>)
    requires b == a - gone
    requires forall k :: k in gone ==> OfTable(k, t)
    ensures forall k :: !OfTable(k, t) ==> RowOf(b, k) == RowOf(a, k)
    ensures Managed(a, t) && (forall k :: k in b ==> !OfTable(k, t)) ==> DropStep(a, b, t)
  {
    hide OfTable, KindOf;
  }

  /** Rules, descriptions, then the table. */
  method DropRows(plat: Platform, name: string) returns (ok: bool, ghost gone: set<Key>)
    requires plat.Valid() && TableKey(name) in plat.rows
    modifies plat
    ensures plat.Valid() && old(plat.calls) <= plat.calls
    ensures ok <==> AllWork(plat.fault, old(plat.calls), plat.calls)
    ensures plat.rows == old(plat.rows) - gone && forall k :: k in gone ==> OfTable(k, name)
    ensures ok ==> forall k :: k in plat.rows ==> !OfTable(k, name)
    ensures DropOrder(old(plat.rows), name, gone)
  {
    KindsOfRows(name);
    hide TableKey, Beneath, OfTable, DropOrder;
    ghost var db := plat.rows;
    ghost var rules, descs, table: set<Key>;
    ok, rules := DeleteBeneath(plat, RULE + name + "|");
    descs, table, gone := {}, {}, rules;
    if ok {
      ok, descs := DeleteBeneath(plat, DESC + name + "|");
      gone := rules + descs;
      assert plat.rows == db - gone;
      if ok {
        ok, table := DropOne(plat, TableKey(name));
        gone := rules + descs + table;
        assert plat.rows == db - gone;
      }
    }
    assert gone == rules + descs + table;
    OrderHolds(db, name, rules, descs, table);
  }

  method DropOne(plat: Platform, key: Key) returns (ok: bool, ghost gone: set<Key>)
    requires plat.Valid()
    modifies plat
    ensures plat.Valid() && plat.calls == old(plat.calls) + 1
    ensures ok == (plat.fault(old(plat.calls)) == Works)
    ensures plat.rows == old(plat.rows) - gone && gone <= {key} && (ok ==> gone == {key})
  {
    ok := plat.Write(Del(key));
    gone := if plat.fault(plat.calls - 1) != Refused then {key} else {};
  }

  /** Rules, descriptions and the table, each part begun only once the last is whole. */
  lemma OrderHolds(a: Db, t: string, rules: set<Key>, descs: set<Key>, table: set<Key>)
    requires forall k :: k in rules ==> k in a && Beneath(k, RULE + t + "|")
    requires forall k :: k in descs ==> k in a && Beneath(k, DESC + t + "|")
    requires table <= {TableKey(t)} && TableKey(t) in a
    requires descs != {} || table != {} ==> forall k :: k in a && Beneath(k, RULE + t + "|") ==> k in rules
    requires table != {} ==> forall k :: k in a && Beneath(k, DESC + t + "|") ==> k in descs
    ensures DropOrder(a, t, rules + descs + table) && forall k :: k in rules + descs + table ==> OfTable(k, t)
    ensures table != {} ==> forall k :: k in a && OfTable(k, t) ==> k in rules + descs + table
  {
    KindsOfRows(t);
    hide TableKey, Beneath;
    if table != {} {
      assert TableKey(t) in table;
    }
  }

  /** The rows of a table are of three kinds. */
  lemma KindsOfRows(name: string)
    ensures forall k :: Beneath(k, RULE + name + "|") ==> !Beneath(k, DESC + name + "|") && k != TableKey(name)
    ensures forall k :: Beneath(k, DESC + name + "|") ==> k != TableKey(name)
  {
    NotBeneathOthers(name, "", name);
    assert "ACL_RULE|"[0] == 'A' && "QUARTZ_ACL_RULE_DESC|"[0] == 'Q';
    forall k | Beneath(k, RULE + name + "|") ensures !Beneath(k, DESC + name + "|") {
      assert (RULE + name + "|")[0] == 'A' && (DESC + name + "|")[0] == 'Q';
      assert k.name[0] == 'A';
    }
  }

  lemma NothingGone(a: Db, t: string)
    ensures NoneWidowed(a, t, {}) && Step(a, a)
  {
  }

  /** What every call on an existing table first answers. */
  function TableVerdict(db: Db, name: string): WriteResult {
    if TableKey(name) !in db then NotFound else if Foreign(db, name) then Conflict else Done
  }

  /** `delete_table`. */
  method DeleteTable(plat: Platform, name: string) returns (r: WriteResult, ghost gone: set<Key>)
    requires plat.Valid()
    modifies plat
    ensures plat.Valid()
    ensures r.Done? ==> DropStep(old(plat.rows), plat.rows, name)
    ensures !Managed(old(plat.rows), name) ==> plat.rows == old(plat.rows)
    ensures forall k :: !OfTable(k, name) ==> RowOf(plat.rows, k) == RowOf(old(plat.rows), k)
    ensures AllWork(plat.fault, old(plat.calls), plat.calls) ==> r == TableVerdict(old(plat.rows), name)
    // wherever it stopped: a transition, and descriptions keep their rules exactly when the
    // rules that went had none or all of them went
    ensures gone == old(plat.rows).Keys - plat.rows.Keys && (IsPart(name) ==> AnyStep(old(plat.rows), plat.rows))
    ensures IsPart(name) && DescsStand(old(plat.rows)) ==> (DescsStand(plat.rows) <==> NoneWidowed(old(plat.rows), name, gone))
  {
    gone := {};
    hide OfTable, KindOf, DropStep, DropOrder, RulesStand, DescsStand, NoneWidowed, Step;
    assert plat.rows.Keys - plat.rows.Keys == {};
    NothingGone(plat.rows, name);
    ghost var db := plat.rows;
    var row;
    r, row := ManagedTable(plat, name);
    if !r.Done? { return; }
    var ok;
    ok, gone := DropRows(plat, name);
    DropOrderIsOfTable(db, name, gone);
    OnlyOfTable(db, plat.rows, name, gone);
    assert gone == db.Keys - plat.rows.Keys;
    if IsPart(name) {
      assert PartStep(db, plat.rows, name);
      if DescsStand(db) {
        InterruptedDrop(db, name, gone);
      }
    }
    r := if ok then Done else Redis;
  }

  // ----------------------------------------------------------------------- rules

  function RuleOps(rule: Key, desc: Key, fields: Row, description: Option<string>): seq<Op> {
    [Del(rule), HSet(rule, fields),
     if description.Some? then HSet(desc, map["description" := description.value]) else Del(desc)]
  }

  lemma RuleOpsEffect(db: Db, rule: Key, desc: Key, fields: Row, description: Option<string>)
    requires rule != desc && fields != map[]
    ensures var after := ExecAll(db, RuleOps(rule, desc, fields, description));
      && RowOf(after, rule) == fields
      && RowOf(after, desc) == (if description.Some? then RowOf(db, desc) + map["description" := description.value] else map[])
      && SameBut(db, after, k => k == rule || k == desc)
  {
    var ops := RuleOps(rule, desc, fields, description);
    var a := Exec(db, ops[0]);
    var b := Exec(a, ops[1]);
    ExecTwo(db, ops[0], ops[1]);
    assert ops == [ops[0], ops[1]] + [ops[2]];
    ExecAllAppend(db, [ops[0], ops[1]], [ops[2]]);
    ExecOne(b, ops[2]);
    assert map[] + fields == fields;
    var touched := k => k == rule || k == desc;
    forall k ensures RowOf(Exec(b, ops[2]), k) == if k == desc then ExecRow(RowOf(b, k), ops[2]) else RowOf(b, k) {
      ExecReads(b, ops[2], k);
    }
    forall k ensures RowOf(b, k) == if k == rule then fields else RowOf(db, k) {
      ExecReads(a, ops[1], k);
      ExecReads(db, ops[0], k);
    }
    assert forall k :: !touched(k) ==> RowOf(ExecAll(db, ops), k) == RowOf(db, k);
  }

  lemma FieldsNotEmpty(kind: Kind, c: Compiled)
    ensures Fields(kind, c) != map[]
  {
    hide Merge, Parts, Initials;
    NamesInitials(kind);
    FieldsRead(NamesFor(kind), c);
  }

  predicate DescriptionIs(db: Db, key: Key, text: string) {
    "description" in RowOf(db, key) && RowOf(db, key)["description"] == text
  }

  /** `put_rule`: a full replace, in one batch. */
  method PutRule(plat: Platform, ip: string -> Option<bool>, table: string, priority: nat, input: RuleInput, description: Option<string>)
    returns (r: WriteResult, ghost kind: Kind)
    requires plat.Valid()
    modifies plat
    ensures plat.Valid()
    ensures r.Done? ==> Managed(old(plat.rows), table) && KindOf(old(plat.rows)[TableKey(table)]) == Some(kind) && Accepted(ip, kind, input)
    // the row is the compiled rule and nothing of what was there before
    ensures r.Done? ==>
              && RowOf(plat.rows, RuleKey(table, RuleName(priority))) == Fields(kind, Meaning(kind, priority, input))
              && RuleSays(RowOf(plat.rows, RuleKey(table, RuleName(priority))), kind, priority, input)
              && (description == None ==> DescKey(table, RuleName(priority)) !in plat.rows)
              && (description.Some? ==> DescriptionIs(plat.rows, DescKey(table, RuleName(priority)), description.value))
              && PutStep(old(plat.rows), plat.rows, table, RuleName(priority))
    ensures !r.Done? && OneFailureAtMost(plat.fault, old(plat.calls), plat.calls) ==> plat.rows == old(plat.rows)
    ensures !Managed(old(plat.rows), table) ==> plat.rows == old(plat.rows)
    ensures AllWork(plat.fault, old(plat.calls), plat.calls) ==>
              r == if !(1 <= priority <= 65535) then BadRequest
                   else if !Managed(old(plat.rows), table) then TableVerdict(old(plat.rows), table)
                   else if ValidDescription(description) && Accepted(ip, KindOf(old(plat.rows)[TableKey(table)]).value, input) then Done
                   else BadRequest
  {
    hide TableKey, RuleKey, DescKey, RuleName, Accepted, Fields, Meaning, KindOf, RuleOps, ValidDescription, RuleSays;
    kind := L3;
    ghost var db := plat.rows;
    if !(1 <= priority <= 65535) {
      r := BadRequest;
      return;
    }
    var row;
    r, row := ManagedTable(plat, table);
    if !r.Done? { return; }
    var k := KindOf(row).value;
    kind := k;
    if !ValidDescription(description) {
      r := BadRequest;
      return;
    }
    var fields := RuleFields(ip, k, priority, input);
    if fields == None {
      r := BadRequest;
      return;
    }
    var rule, desc := RuleKey(table, RuleName(priority)), DescKey(table, RuleName(priority));
    Tables(table, RuleName(priority), table);
    FieldsNotEmpty(k, Meaning(k, priority, input));
    FieldsSay(ip, k, priority, input);
    RuleOpsEffect(db, rule, desc, fields.value, description);
    if description.Some? {
      assert "description" in RowOf(db, desc) + map["description" := description.value];
    }
    var ok; ghost var forward;
    ok, forward := Apply(plat, RuleOps(rule, desc, fields.value, description));
    r := if ok then Done else Redis;
  }

  /** `delete_rule`: the rule, then its description, one DEL each. */
  method DeleteRule(plat: Platform, table: string, priority: nat) returns (r: WriteResult)
    requires plat.Valid()
    modifies plat
    ensures plat.Valid()
    ensures r in {NotFound, Conflict} ==> plat.rows == old(plat.rows)
    ensures var rule, desc := RuleKey(table, RuleName(priority)), DescKey(table, RuleName(priority));
      && (r.Done? ==> rule in old(plat.rows) && plat.rows == old(plat.rows) - {rule, desc})
      && PartlyRemoved(old(plat.rows), plat.rows, rule, desc)
    ensures r.Done? ==> DeleteStep(old(plat.rows), plat.rows, table, RuleName(priority))
    // stopped between its writes it is a transition too, and the description keeps its rule
    // exactly when there is none
    ensures IsPart(table) ==> AnyStep(old(plat.rows), plat.rows)
    ensures var rule, desc := RuleKey(table, RuleName(priority)), DescKey(table, RuleName(priority));
      IsPart(table) && DescsStand(old(plat.rows)) && rule in old(plat.rows) && plat.rows == old(plat.rows) - {rule} ==>
        (DescsStand(plat.rows) <==> desc !in old(plat.rows))
    ensures !Managed(old(plat.rows), table) ==> plat.rows == old(plat.rows)
    // and where it stops, by the first of the two writes to fail
    ensures var rule, desc, n := RuleKey(table, RuleName(priority)), DescKey(table, RuleName(priority)), old(plat.calls) + 2;
      Managed(old(plat.rows), table) && rule in old(plat.rows) && AllWork(plat.fault, old(plat.calls), n) ==>
        plat.rows == AfterRemoval(old(plat.rows), rule, desc, plat.fault, n)
    ensures AllWork(plat.fault, old(plat.calls), plat.calls) ==>
              r == if !Managed(old(plat.rows), table) then TableVerdict(old(plat.rows), table)
                   else if RuleKey(table, RuleName(priority)) in old(plat.rows) then Done else NotFound
  {
    RuleNamed(priority);
    assert AnyStep(plat.rows, plat.rows);
    hide TableKey, RuleKey, DescKey, RuleName, KindOf, AnyStep, DescsStand;
    ghost var db := plat.rows;
    var row;
    r, row := ManagedTable(plat, table);
    if !r.Done? { return; }
    var rule, desc := RuleKey(table, RuleName(priority)), DescKey(table, RuleName(priority));
    hide Managed, DeleteStep;
    var ok, found := plat.Exists(rule);
    if !ok || !found { return if ok then NotFound else Redis; }
    RuleGone(db, table, RuleName(priority));
    ok := RemoveRule(plat, rule, desc);
    r := if ok then Done else Redis;
  }

  /** Neither row has gone, or the rule, or both. */
  predicate PartlyRemoved(a: Db, b: Db, rule: Key, desc: Key) {
    b == a || b == a - {rule} || b == a - {rule, desc}
  }

  /** What the two writes leave, the first being call `n`. */
  function AfterRemoval(db: Db, rule: Key, desc: Key, fault: nat -> Fault, n: nat): Db {
    if fault(n) == Refused then db
    else if fault(n) == Works && fault(n + 1) != Refused then db - {rule, desc}
    else db - {rule}
  }

  /** The two writes. */
  method RemoveRule(plat: Platform, rule: Key, desc: Key) returns (ok: bool)
    requires plat.Valid()
    modifies plat
    ensures plat.Valid() && old(plat.calls) <= plat.calls
    ensures ok <==> AllWork(plat.fault, old(plat.calls), plat.calls)
    ensures PartlyRemoved(old(plat.rows), plat.rows, rule, desc)
    ensures ok ==> plat.rows == old(plat.rows) - {rule, desc}
    ensures plat.rows == AfterRemoval(old(plat.rows), rule, desc, plat.fault, old(plat.calls))
  {
    ghost var db := plat.rows;
    ok := plat.Write(Del(rule));
    if !ok { return; }
    assert db - {rule} - {desc} == db - {rule, desc};
    ok := plat.Write(Del(desc));
  }

  lemma RuleNamed(priority: nat)
    ensures RuleName(priority) != ""
  {
  }

  /** Every way the deletion of a rule can end is a transition. */
  lemma RuleGone(a: Db, t: string, r: string)
    requires Managed(a, t) && RuleKey(t, r) in a && r != ""
    ensures var rule, desc := RuleKey(t, r), DescKey(t, r);
      DeleteStep(a, a - {rule, desc}, t, r)
      && (IsPart(t) ==> AnyStep(a, a) && AnyStep(a, a - {rule}) && AnyStep(a, a - {rule, desc}))
      && (IsPart(t) && DescsStand(a) ==> (DescsStand(a - {rule}) <==> desc !in a))
  {
    hide RuleKey, DescKey, DropOrder, KindOf, TableKey, RulesStand, DescsStand;
    var rule, desc := RuleKey(t, r), DescKey(t, r);
    assert DeleteStep(a, a - {rule, desc}, t, r);
    if IsPart(t) {
      InterruptedDeleteRule(a, t, r);
      var b := a - {rule};
      assert a.Keys - b.Keys == {rule};
      assert PartStep(a, b, t);
    }
  }
}
