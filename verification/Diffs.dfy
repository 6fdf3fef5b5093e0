/** Converging a family of rows to a desired set (`diff_rows` of `src/sonic/switching.rs`
    and the loops that carry its result out): one row per element, deleted or written at
    most once. */
module Diffs {
  import opened Common
  import opened Text
  import opened Store
  import opened Keys

  /** `diff_rows`: what to delete and what to write. */
  function Dels<K, V>(current: map<K, V>, desired: map<K, V>): set<K> {
    current.Keys - desired.Keys
  }

  function Sets<K, V(==)>(current: map<K, V>, desired: map<K, V>): map<K, V> {
    map k | k in desired && !(k in current && current[k] == desired[k]) :: desired[k]
  }

  /** The diff converges, deletes nothing it writes, and touches nothing that already
      agrees. */
  lemma DiffConverges<K, V>(current: map<K, V>, desired: map<K, V>)
    ensures (current - Dels(current, desired)) + Sets(current, desired) == desired
    ensures Dels(current, desired) !! Sets(current, desired).Keys
    ensures forall k :: k in Dels(current, desired) || k in Sets(current, desired) <==>
              (k in current || k in desired) && !(k in current && k in desired && current[k] == desired[k])
  {
  }

  // ----------------------------------------------------- carrying a diff out

  /** Distinct elements have distinct rows. */
  ghost predicate Injective<K(!new)>(keyOf: K -> Key, on: set<K>) {
    forall x, y :: x in on && y in on && keyOf(x) == keyOf(y) ==> x == y
  }

  /** A program that deletes the rows of `dels` and writes the rows of `sets`, each
      once, in some order. */
  ghost predicate CarriesOut<K(!new)>(ops: seq<Op>, keyOf: K -> Key, dels: set<K>, sets: map<K, Row>) {
    && DistinctKeys(ops)
    && (forall x :: x in dels ==> Del(keyOf(x)) in ops)
    && (forall x :: x in sets ==> HSet(keyOf(x), sets[x]) in ops)
    && (forall i :: 0 <= i < |ops| ==> IsOneOf(ops[i], keyOf, dels, sets))
  }

  ghost predicate IsOneOf<K(!new)>(op: Op, keyOf: K -> Key, dels: set<K>, sets: map<K, Row>) {
    || (exists x :: x in dels && op == Del(keyOf(x)))
    || (exists x :: x in sets && op == HSet(keyOf(x), sets[x]))
  }

  /** Every row after the program, by element; rows of no element are untouched. */
  lemma CarriedOut<K(!new)>(db: Db, ops: seq<Op>, keyOf: K -> Key, dels: set<K>, sets: map<K, Row>, x: K)
    requires CarriesOut(ops, keyOf, dels, sets) && dels !! sets.Keys && Injective(keyOf, dels + sets.Keys + {x})
    ensures RowOf(ExecAll(db, ops), keyOf(x)) ==
              if x in dels then map[] else if x in sets then RowOf(db, keyOf(x)) + sets[x] else RowOf(db, keyOf(x))
  {
    WrittenOnce(db, ops, keyOf(x));
    if x in dels {
      var i :| 0 <= i < |ops| && ops[i] == Del(keyOf(x));
    } else if x in sets {
      var i :| 0 <= i < |ops| && ops[i] == HSet(keyOf(x), sets[x]);
    } else {
      forall i | 0 <= i < |ops| ensures ops[i].key != keyOf(x) {
        assert IsOneOf(ops[i], keyOf, dels, sets);
      }
    }
  }

  lemma OthersUntouched<K(!new)>(db: Db, ops: seq<Op>, keyOf: K -> Key, dels: set<K>, sets: map<K, Row>, key: Key)
    requires CarriesOut(ops, keyOf, dels, sets)
    requires forall x :: x in dels || x in sets ==> keyOf(x) != key
    ensures RowOf(ExecAll(db, ops), key) == RowOf(db, key)
  {
    WrittenOnce(db, ops, key);
    forall i | 0 <= i < |ops| ensures ops[i].key != key {
      assert IsOneOf(ops[i], keyOf, dels, sets);
    }
  }

  /** The elements of a set, each once, in some order. */
  method Listed<K(==,!new)>(items: set<K>) returns (order: seq<K>)
    ensures forall x :: x in items <==> x in order
    ensures forall i, j :: 0 <= i < j < |order| ==> order[i] != order[j]
  {
    order := [];
    var todo := items;
    while todo != {}
      invariant forall x :: x in items <==> x in todo || x in order
      invariant forall x :: x in todo ==> x !in order
      invariant forall i, j :: 0 <= i < j < |order| ==> order[i] != order[j]
      decreases todo
    {
      var x :| x in todo;
      order := order + [x];
      todo := todo - {x};
    }
  }

  /** First the deletions, then the writes. */
  method CarryOut<K(==,!new)>(keyOf: K -> Key, dels: set<K>, sets: map<K, Row>) returns (ops: seq<Op>)
    requires dels !! sets.Keys && Injective(keyOf, dels + sets.Keys)
    requires forall x :: x in sets ==> sets[x] != map[]
    ensures CarriesOut(ops, keyOf, dels, sets)
    ensures forall i :: 0 <= i < |ops| ==> Reaches(ops[i])
  {
    ops := [];
    var gone := Listed(dels);
    for i := 0 to |gone|
      invariant |ops| == i && forall j :: 0 <= j < i ==> ops[j] == Del(keyOf(gone[j]))
    {
      ops := ops + [Del(keyOf(gone[i]))];
    }
    var come := Listed(sets.Keys);
    assert forall i :: 0 <= i < |come| ==> come[i] in sets;
    for i := 0 to |come|
      invariant |ops| == |gone| + i
      invariant forall j :: 0 <= j < |gone| ==> ops[j] == Del(keyOf(gone[j]))
      invariant forall j :: 0 <= j < i ==> ops[|gone| + j] == HSet(keyOf(come[j]), sets[come[j]])
    {
      ops := ops + [HSet(keyOf(come[i]), sets[come[i]])];
    }
    InOrder(ops, keyOf, dels, sets, gone, come);
  }

  /** Deletions, then writes, each of one element, carry the diff out. */
  lemma InOrder<K(!new)>(ops: seq<Op>, keyOf: K -> Key, dels: set<K>, sets: map<K, Row>, gone: seq<K>, come: seq<K>)
    requires dels !! sets.Keys && Injective(keyOf, dels + sets.Keys) && forall x :: x in sets ==> sets[x] != map[]
    requires (forall x :: x in dels <==> x in gone) && forall x :: x in sets <==> x in come
    requires forall i, j :: 0 <= i < j < |gone| ==> gone[i] != gone[j]
    requires forall i, j :: 0 <= i < j < |come| ==> come[i] != come[j]
    requires |ops| == |gone| + |come|
    requires forall j :: 0 <= j < |gone| ==> ops[j] == Del(keyOf(gone[j]))
    requires forall j :: 0 <= j < |come| ==> ops[|gone| + j] == HSet(keyOf(come[j]), sets[come[j]])
    ensures CarriesOut(ops, keyOf, dels, sets)
    ensures forall i :: 0 <= i < |ops| ==> Reaches(ops[i])
  {
    assert forall i :: 0 <= i < |gone| ==> gone[i] in dels;
    assert forall i :: 0 <= i < |come| ==> come[i] in sets;
    forall x | x in dels ensures Del(keyOf(x)) in ops {
      var i :| 0 <= i < |gone| && gone[i] == x;
      assert ops[i] == Del(keyOf(x));
    }
    forall x | x in sets ensures HSet(keyOf(x), sets[x]) in ops {
      var i :| 0 <= i < |come| && come[i] == x;
      assert ops[|gone| + i] == HSet(keyOf(x), sets[x]);
    }
    forall i | 0 <= i < |ops| ensures IsOneOf(ops[i], keyOf, dels, sets) {
      if i >= |gone| {
        assert ops[|gone| + (i - |gone|)] == HSet(keyOf(come[i - |gone|]), sets[come[i - |gone|]]);
      }
    }
    forall i, j | 0 <= i < j < |ops| ensures ops[i].key != ops[j].key {
      var x := if i < |gone| then gone[i] else come[i - |gone|];
      var y := if j < |gone| then gone[j] else come[j - |gone|];
      assert i >= |gone| ==> ops[|gone| + (i - |gone|)].key == keyOf(x);
      assert j >= |gone| ==> ops[|gone| + (j - |gone|)].key == keyOf(y);
      assert x != y && x in dels + sets.Keys && y in dels + sets.Keys;
    }
  }

  // ---------------------------------------------------------- tri-state fields

  /** One tri-state field: set, clear or leave. */
  function PatchField(key: Key, field: string, v: Option<Option<string>>): (ops: seq<Op>)
    ensures forall i :: 0 <= i < |ops| ==> ops[i].key == key && !ops[i].Del? && Reaches(ops[i])
  {
    match v
    case None => []
    case Some(None) => [HDel(key, {field})]
    case Some(Some(x)) => assert field in map[field := x]; [HSet(key, map[field := x])]
  }

  function Rendered(v: Option<Option<nat>>): Option<Option<string>> {
    match v
    case None => None
    case Some(None) => Some(None)
    case Some(Some(n)) => Some(Some(Render(n)))
  }

  function PatchedField(row: Row, field: string, v: Option<Option<string>>): Row {
    match v
    case None => row
    case Some(None) => row - {field}
    case Some(Some(x)) => row[field := x]
  }

  lemma PatchFieldEffect(db: Db, key: Key, field: string, v: Option<Option<string>>, rest: seq<Op>)
    ensures RowOf(ExecAll(db, rest + PatchField(key, field, v)), key) == PatchedField(RowOf(ExecAll(db, rest), key), field, v)
  {
    var ops := PatchField(key, field, v);
    ExecAllAppend(db, rest, ops);
    if ops != [] {
      ExecOne(ExecAll(db, rest), ops[0]);
      ExecReads(ExecAll(db, rest), ops[0], key);
    }
  }

  /** A patched row, field by field: this one was set, cleared or left, no other changed. */
  lemma PatchedReads(row: Row, field: string, v: Option<Option<string>>)
    ensures Raw(PatchedField(row, field, v), field) == if v.Some? then v.value else Raw(row, field)
    ensures forall other :: other != field ==> Raw(PatchedField(row, field, v), other) == Raw(row, other)
  {
  }

  // Fields patched one after the other, each by its own name.

  lemma TwoPatched(row: Row, f: string, t: Option<Option<string>>, g: string, u: Option<Option<string>>)
    requires f != g
    ensures var after := PatchedField(PatchedField(row, f, t), g, u);
      && PatchesText(row, after, f, t) && PatchesText(row, after, g, u)
      && KeepsOthers(row, after, {f, g})
  {
    hide PatchedField, Raw;
    PatchedReads(row, f, t);
    PatchedReads(PatchedField(row, f, t), g, u);
  }

  lemma ThreePatched(row: Row, f: string, t: Option<Option<string>>,
                     g: string, u: Option<Option<string>>, h: string, v: Option<Option<string>>)
    requires f != g && f != h && g != h
    ensures var after := PatchedField(PatchedField(PatchedField(row, f, t), g, u), h, v);
      && PatchesText(row, after, f, t) && PatchesText(row, after, g, u) && PatchesText(row, after, h, v)
      && KeepsOthers(row, after, {f, g, h})
  {
    hide PatchedField, Raw;
    TwoPatched(row, f, t, g, u);
    PatchedReads(PatchedField(PatchedField(row, f, t), g, u), h, v);
  }

  lemma FourPatched(row: Row, f: string, t: Option<Option<string>>, g: string, u: Option<Option<string>>,
                    h: string, v: Option<Option<string>>, i: string, w: Option<Option<string>>)
    requires f != g && f != h && f != i && g != h && g != i && h != i
    ensures var after := PatchedField(PatchedField(PatchedField(PatchedField(row, f, t), g, u), h, v), i, w);
      && PatchesText(row, after, f, t) && PatchesText(row, after, g, u) && PatchesText(row, after, h, v)
      && PatchesText(row, after, i, w)
      && KeepsOthers(row, after, {f, g, h, i})
  {
    hide PatchedField, Raw;
    ThreePatched(row, f, t, g, u, h, v);
    PatchedReads(PatchedField(PatchedField(PatchedField(row, f, t), g, u), h, v), i, w);
  }

  lemma FivePatched(row: Row, f: string, t: Option<Option<string>>, g: string, u: Option<Option<string>>,
                    h: string, v: Option<Option<string>>, i: string, w: Option<Option<string>>, j: string, x: Option<Option<string>>)
    requires f != g && f != h && f != i && f != j && g != h && g != i && g != j && h != i && h != j && i != j
    ensures var after := PatchedField(PatchedField(PatchedField(PatchedField(PatchedField(row, f, t), g, u), h, v), i, w), j, x);
      && PatchesText(row, after, f, t) && PatchesText(row, after, g, u) && PatchesText(row, after, h, v)
      && PatchesText(row, after, i, w) && PatchesText(row, after, j, x)
      && KeepsOthers(row, after, {f, g, h, i, j})
  {
    hide PatchedField, Raw;
    FourPatched(row, f, t, g, u, h, v, i, w);
    PatchedReads(PatchedField(PatchedField(PatchedField(PatchedField(row, f, t), g, u), h, v), i, w), j, x);
  }

  lemma SixPatched(row: Row, f: string, t: Option<Option<string>>, g: string, u: Option<Option<string>>, h: string, v: Option<Option<string>>,
                   i: string, w: Option<Option<string>>, j: string, x: Option<Option<string>>, k: string, y: Option<Option<string>>)
    requires f != g && f != h && f != i && f != j && f != k && g != h && g != i && g != j && g != k && h != i && h != j && h != k && i != j && i != k && j != k
    ensures var after := PatchedField(PatchedField(PatchedField(PatchedField(PatchedField(PatchedField(row, f, t), g, u), h, v), i, w), j, x), k, y);
      && PatchesText(row, after, f, t) && PatchesText(row, after, g, u) && PatchesText(row, after, h, v)
      && PatchesText(row, after, i, w) && PatchesText(row, after, j, x) && PatchesText(row, after, k, y)
      && KeepsOthers(row, after, {f, g, h, i, j, k})
  {
    hide PatchedField, Raw;
    FivePatched(row, f, t, g, u, h, v, i, w, j, x);
    PatchedReads(PatchedField(PatchedField(PatchedField(PatchedField(PatchedField(row, f, t), g, u), h, v), i, w), j, x), k, y);
  }

  /** A number patched in as text reads as the number. */
  lemma NumberPatched(before: Row, after: Row, name: string, v: Option<Option<nat>>)
    requires PatchesText(before, after, name, Rendered(v))
    ensures PatchesNumber(before, after, name, v)
  {
    hide Render, SaysNumber;
    if v.Some? {
      RenderedSays(after, name, v.value);
    }
  }

  /** Patching one field leaves the others. */
  lemma PatchedFieldOthers(row: Row, field: string, v: Option<Option<string>>, other: string)
    requires other != field
    ensures other in PatchedField(row, field, v) <==> other in row
    ensures other in row ==> PatchedField(row, field, v)[other] == row[other]
  {
  }
}
