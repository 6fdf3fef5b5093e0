/** Reading keys and fields (`src/sonic/store.rs`, the degrading read helpers). */
module Keys {
  import opened Common
  import opened Text
  import opened Store

  /** A value as `field` reads it: trimmed, None when nothing is left. */
  function Present(s: string): Option<string> {
    if Trim(s) != "" then Some(Trim(s)) else None
  }

  /** A hash field, trimmed; None when absent or empty. */
  function Field(row: Row, name: string): Option<string> {
    if name in row then Present(row[name]) else None
  }

  /** A field that holds an unsigned number no larger than `max`. */
  function NumField(row: Row, name: string, max: nat): Option<nat> {
    match Field(row, name)
    case None => None
    case Some(s) => ParseUnsigned(s, max)
  }

  /** `parse_bool` of a field. */
  function BoolField(row: Row, name: string): Option<bool> {
    match Field(row, name)
    case None => None
    case Some(s) =>
      if LowerAscii(s) == "true" then Some(true) else if LowerAscii(s) == "false" then Some(false) else None
  }

  /** A number written into a field is read back. */
  lemma NumFieldReadBack(row: Row, name: string, n: nat, max: nat)
    requires n <= max && name in row && row[name] == Render(n)
    ensures NumField(row, name, max) == Some(n)
  {
    RenderIsWord(n);
    TrimOfTrimmed(Render(n));
    ParseOfRender(n, max);
  }

  lemma BoolFieldReadBack(row: Row, name: string, b: bool)
    requires name in row && row[name] == if b then "true" else "false"
    ensures BoolField(row, name) == Some(b)
  {
    hide Trim;
    assert IsWord("true") && IsWord("false");
    TrimOfTrimmed("true");
    TrimOfTrimmed("false");
    assert LowerAscii("true") == "true" && LowerAscii("false") == "false";
  }

  // ---------------------------------------------------------- what a row says

  /** A field as it stands. */
  function Raw(row: Row, name: string): Option<string> {
    if name in row then Some(row[name]) else None
  }

  /** The field reads as this number, at every width it fits; None: there is no field. */
  ghost predicate SaysNumber(row: Row, name: string, v: Option<nat>) {
    match v
    case None => name !in row
    case Some(n) => forall max: nat :: n <= max ==> NumField(row, name, max) == Some(n)
  }

  /** A tri-state number: set, cleared, or left as it was. */
  ghost predicate PatchesNumber(before: Row, after: Row, name: string, v: Option<Option<nat>>) {
    if v.Some? then SaysNumber(after, name, v.value) else Raw(after, name) == Raw(before, name)
  }

  /** A tri-state text. */
  predicate PatchesText(before: Row, after: Row, name: string, v: Option<Option<string>>) {
    Raw(after, name) == if v.Some? then v.value else Raw(before, name)
  }

  ghost predicate SaysBool(row: Row, name: string, b: bool) {
    BoolField(row, name) == Some(b)
  }

  /** Every field but these is what it was. */
  ghost predicate KeepsOthers(before: Row, after: Row, written: set<string>) {
    forall name :: name !in written ==> Raw(after, name) == Raw(before, name)
  }

  lemma RenderedSays(row: Row, name: string, v: Option<nat>)
    requires Raw(row, name) == if v.Some? then Some(Render(v.value)) else None
    ensures SaysNumber(row, name, v)
  {
    hide NumField, Render;
    if v.Some? {
      forall max: nat | v.value <= max ensures NumField(row, name, max) == v {
        NumFieldReadBack(row, name, v.value, max);
      }
    }
  }

  lemma FlagSays(row: Row, name: string, b: bool)
    requires Raw(row, name) == Some(if b then "true" else "false")
    ensures SaysBool(row, name, b)
  {
    hide BoolField;
    BoolFieldReadBack(row, name, b);
  }

  /** `key_suffix`: None on an empty suffix. */
  function KeySuffix(key: string, prefix: string): Option<string> {
    if prefix <= key && |key| > |prefix| then Some(key[|prefix|..]) else None
  }

  /** `check_cidrs`, one address: enough shape to form a key. */
  predicate ValidCidr(a: string) {
    && SplitOnce(a, '/').Some?
    && (var (ip, len) := SplitOnce(a, '/').value; ip != "" && len != "" && AllDigits(len))
    && Lacks(a, '|') && forall i :: 0 <= i < |a| ==> !IsSpace(a[i])
  }

  /** `two_parts`: split at the first `|` after the prefix, both parts non-empty. */
  function TwoParts(key: string, prefix: string): Option<(string, string)> {
    if !(prefix <= key) then None
    else
      match SplitOnce(key[|prefix|..], '|')
      case None => None
      case Some((a, b)) => if a != "" && b != "" then Some((a, b)) else None
  }

  /** `three_parts`. */
  function ThreeParts(key: string, prefix: string): Option<(string, string, string)> {
    if !(prefix <= key) then None
    else
      match SplitOnce(key[|prefix|..], '|')
      case None => None
      case Some((a, rest)) =>
        match SplitOnce(rest, '|')
        case None => None
        case Some((b, c)) => if a != "" && b != "" && c != "" then Some((a, b, c)) else None
  }

  /** Splitting inverts building, and only a built key splits. */
  lemma TwoPartsExactly(key: string, prefix: string, a: string, b: string)
    requires Lacks(a, '|')
    ensures TwoParts(key, prefix) == Some((a, b)) <==> key == prefix + a + "|" + b && a != "" && b != ""
  {
    if key == prefix + a + "|" + b {
      assert key[|prefix|..] == a + ['|'] + b;
      SplitOnceOf(a, '|', b);
    }
    if TwoParts(key, prefix) == Some((a, b)) {
      SplitOnceInverse(key[|prefix|..], '|');
      assert key == prefix + key[|prefix|..];
    }
  }

  lemma ThreePartsExactly(key: string, prefix: string, a: string, b: string, c: string)
    requires Lacks(a, '|') && Lacks(b, '|')
    ensures ThreeParts(key, prefix) == Some((a, b, c))
       <==> key == prefix + a + "|" + (b + "|" + c) && a != "" && b != "" && c != ""
  {
    var rest := b + ['|'] + c;
    SplitOnceOf(b, '|', c);
    if key == prefix + a + "|" + rest {
      TwoPartsExactly(key, prefix, a, rest);
    }
    if ThreeParts(key, prefix) == Some((a, b, c)) {
      var tail := SplitOnce(key[|prefix|..], '|').value.1;
      TwoPartsExactly(key, prefix, a, tail);
      SplitOnceInverse(tail, '|');
    }
  }

  /** A row of CONFIG_DB whose key starts with the prefix. */
  predicate Beneath(k: Key, prefix: string) {
    k.db == CONFIG_DB && prefix <= k.name
  }

  /** `valid_vrf`. */
  predicate ValidVrf(vrf: string) {
    vrf == "default" || "Vrf" <= vrf
  }

  /** A name that can be a part of a key. */
  predicate IsPart(s: string) {
    s != "" && Lacks(s, '|')
  }

  /** The rows below one part are those that carry it. */
  lemma BeneathExactly(table: string, part: string, v: string, rest: string)
    requires IsPart(part) && IsPart(v)
    ensures Beneath(Key(CONFIG_DB, table + v + "|" + rest), table + part + "|") <==> v == part
  {
    var name := table + v + "|" + rest;
    var p := table + part + "|";
    assert v == part ==> name == p + rest;
    if p <= name {
      assert name == p + name[|p|..];
      assert name[|table|..] == v + ['|'] + rest == part + ['|'] + name[|p|..];
      SplitOnceOf(v, '|', rest);
      SplitOnceOf(part, '|', name[|p|..]);
    }
  }

  /** The keys of a complete scan, as rows. */
  lemma ScannedExactly(db: Db, names: seq<string>, prefix: string, k: Key)
    requires forall n :: n in names <==> Key(CONFIG_DB, n) in db && prefix <= n
    ensures k in KeysNamed(CONFIG_DB, names) <==> k in db && Beneath(k, prefix)
  {
    if k.db == CONFIG_DB {
      assert k == Key(CONFIG_DB, k.name);
      if k.name in names {
        var i :| 0 <= i < |names| && names[i] == k.name;
        assert KeysNamed(CONFIG_DB, names)[i] == k;
      }
    }
  }

  /** Delete every row a scan finds below the prefix, one DEL each, up to the first
      failure. */
  method DeleteBeneath(plat: Platform, prefix: string) returns (ok: bool, ghost gone: set<Key>)
    requires plat.Valid()
    modifies plat
    ensures plat.Valid() && old(plat.calls) <= plat.calls
    ensures ok <==> AllWork(plat.fault, old(plat.calls), plat.calls)
    ensures plat.rows == old(plat.rows) - gone && forall k :: k in gone ==> k in old(plat.rows) && Beneath(k, prefix)
    ensures ok ==> forall k :: k in old(plat.rows) && Beneath(k, prefix) ==> k in gone
  {
    ghost var before := plat.rows;
    gone := {};
    var names;
    ok, names := plat.Scan(CONFIG_DB, prefix);
    if !ok { return; }
    var keys := KeysNamed(CONFIG_DB, names);
    forall k ensures k in keys <==> k in before && Beneath(k, prefix) {
      ScannedExactly(before, names, prefix, k);
    }
    hide Beneath;
    ghost var n;
    ok, n := DeleteEach(plat, keys);
    gone := KeySet(keys[..n]);
    assert n == |keys| ==> keys[..n] == keys;
    assert forall k :: k in keys[..n] ==> k in keys;
  }
}
