/** The MAC table (`src/sonic/fdb.rs`): MAC spellings, static entries, and the learned
    table resolved with two caches. */
module Fdb {
  import opened Common
  import opened Text
  import opened Store
  import opened Keys
  import opened Vlans

  // ------------------------------------------------------------- MAC spellings

  predicate IsLowerHex(c: char) {
    '0' <= c <= '9' || 'a' <= c <= 'f'
  }

  function Lower(c: char): char {
    if 'A' <= c <= 'Z' then (c as int + 32) as char else c
  }

  /** The hexadecimal digits of a string, in lower case. */
  function Hex(s: string): (r: string)
    ensures forall i :: 0 <= i < |r| ==> IsLowerHex(r[i])
    decreases |s|
  {
    if s == "" then ""
    else
      var rest := Hex(s[..|s| - 1]);
      if IsHexDigit(s[|s| - 1]) then rest + [Lower(s[|s| - 1])] else rest
  }

  predicate IsMacChar(c: char) {
    IsHexDigit(c) || c == ':' || c == '-' || c == '.' || c == ' '
  }

  /** Six pairs joined by colons. */
  function Pairs(h: string): string
    requires |h| == 12
  {
    h[..2] + ":" + h[2..4] + ":" + h[4..6] + ":" + h[6..8] + ":" + h[8..10] + ":" + h[10..]
  }

  lemma PairsStart(h: string)
    requires |h| == 12
    ensures |Pairs(h)| == 17 && Pairs(h)[0] == h[0] && Pairs(h)[1] == h[1]
  {
    assert h[..2][0] == h[0] && h[..2][1] == h[1];
  }

  predicate AllMacChars(s: string) {
    forall i :: 0 <= i < |s| ==> IsMacChar(s[i])
  }

  /** `normalize_mac`. */
  function NormalizeMac(s: string): Option<string> {
    var h := Hex(Trim(s));
    if |h| != 12 || !AllMacChars(s) then None else Some(Pairs(h))
  }

  lemma {:induction false} HexAppend(a: string, b: string)
    ensures Hex(a + b) == Hex(a) + Hex(b)
    decreases |b|
  {
    if b == "" {
      assert a + b == a;
    } else {
      HexAppend(a, b[..|b| - 1]);
      assert (a + b)[..|a + b| - 1] == a + b[..|b| - 1];
    }
  }

  lemma {:induction false} HexOfHex(h: string)
    requires forall i :: 0 <= i < |h| ==> IsLowerHex(h[i])
    ensures Hex(h) == h
    decreases |h|
  {
    if h != "" {
      HexOfHex(h[..|h| - 1]);
    }
  }

  lemma HexOfPairs(h: string)
    requires |h| == 12 && forall i :: 0 <= i < |h| ==> IsLowerHex(h[i])
    ensures Hex(Pairs(h)) == h
  {
    assert Hex(":") == "" && Hex("") == "";
    hide Hex;
    var a := h[..2] + ":";
    var b := a + h[2..4] + ":";
    var c := b + h[4..6] + ":";
    var d := c + h[6..8] + ":";
    var e := d + h[8..10] + ":";
    PairStep("", h[..2]);
    PairStep(a, h[2..4]);
    PairStep(b, h[4..6]);
    PairStep(c, h[6..8]);
    PairStep(d, h[8..10]);
    HexAppend(e, h[10..]);
    HexOfHex(h[10..]);
    assert "" + h[..2] == h[..2];
    assert h[..2] + h[2..4] + h[4..6] + h[6..8] + h[8..10] + h[10..] == h;
  }

  lemma PairStep(prefix: string, pair: string)
    requires forall i :: 0 <= i < |pair| ==> IsLowerHex(pair[i])
    ensures Hex(prefix + pair + ":") == Hex(prefix) + pair
  {
    assert ":"[..0] == "" && Hex(":") == "";
    hide Hex;
    HexAppend(prefix + pair, ":");
    HexAppend(prefix, pair);
    HexOfHex(pair);
  }

  predicate Inked(s: string) {
    forall i :: 0 <= i < |s| ==> IsMacChar(s[i]) && !IsSpace(s[i])
  }

  lemma InkedAppend(a: string, b: string)
    requires Inked(a) && Inked(b)
    ensures Inked(a + b)
  {
  }

  lemma HexIsInked(h: string, lo: nat, hi: nat)
    requires lo <= hi <= |h| && forall i :: 0 <= i < |h| ==> IsLowerHex(h[i])
    ensures Inked(h[lo..hi])
  {
  }

  lemma PairIsInked(prefix: string, h: string, lo: nat)
    requires Inked(prefix) && lo + 2 <= |h| && forall i :: 0 <= i < |h| ==> IsLowerHex(h[i])
    ensures Inked(prefix + h[lo..lo + 2] + ":")
  {
    HexIsInked(h, lo, lo + 2);
    InkedAppend(prefix, h[lo..lo + 2]);
    InkedAppend(prefix + h[lo..lo + 2], ":");
  }

  lemma NothingIsInked()
    ensures Inked("")
  {
  }

  lemma PairsAreMac(h: string)
    requires |h| == 12 && forall i :: 0 <= i < |h| ==> IsLowerHex(h[i])
    ensures AllMacChars(Pairs(h)) && |Pairs(h)| == 17 && Trim(Pairs(h)) == Pairs(h)
  {
    hide Inked, Trim, IsLowerHex;
    NothingIsInked();
    var a := "" + h[0..2] + ":";
    assert a == h[..2] + ":";
    PairIsInked("", h, 0);
    PairIsInked(a, h, 2);
    PairIsInked(a + h[2..4] + ":", h, 4);
    PairIsInked(a + h[2..4] + ":" + h[4..6] + ":", h, 6);
    var e := a + h[2..4] + ":" + h[4..6] + ":" + h[6..8] + ":";
    PairIsInked(e, h, 8);
    HexIsInked(h, 10, 12);
    InkedAppend(e + h[8..10] + ":", h[10..12]);
    assert h[10..12] == h[10..] && Pairs(h) == e + h[8..10] + ":" + h[10..12];
    InkedIsTrimmed(Pairs(h));
  }

  lemma InkedIsTrimmed(s: string)
    requires Inked(s)
    ensures AllMacChars(s) && Trim(s) == s
  {
    TrimOfTrimmed(s);
  }

  /** Normalising is idempotent, and two accepted spellings normalise alike exactly when
      they have the same hexadecimal digits. */
  lemma NormalMacExactly(a: string, b: string)
    requires NormalizeMac(a).Some?
    ensures NormalizeMac(NormalizeMac(a).value) == NormalizeMac(a)
    ensures NormalizeMac(b).Some? ==> (NormalizeMac(a) == NormalizeMac(b) <==> Hex(Trim(a)) == Hex(Trim(b)))
  {
    hide Hex, Pairs, Trim, AllMacChars, NormalizeMac;
    Normalized(a);
    if NormalizeMac(b).Some? {
      Normalized(b);
    }
  }

  lemma Normalized(s: string)
    requires NormalizeMac(s).Some?
    ensures |Hex(Trim(s))| == 12 && NormalizeMac(s).value == Pairs(Hex(Trim(s)))
    ensures Hex(NormalizeMac(s).value) == Hex(Trim(s))
    ensures NormalizeMac(NormalizeMac(s).value) == NormalizeMac(s)
  {
    hide Hex, Pairs, Trim, AllMacChars;
    HexOfPairs(Hex(Trim(s)));
    PairsAreMac(Hex(Trim(s)));
  }

  /** Twelve digits in pairs are a MAC in its normal spelling. */
  lemma DigitsAreMac(h: string)
    requires |h| == 12 && forall i :: 0 <= i < |h| ==> IsLowerHex(h[i])
    ensures NormalizeMac(Pairs(h)) == Some(Pairs(h)) && |Pairs(h)| == 17 && Pairs(h)[1] == h[1]
  {
    HexOfPairs(h);
    PairsAreMac(h);
    PairsStart(h);
    hide Hex, Pairs, AllMacChars, Trim;
  }

  // ------------------------------------------------------------ static entries

  const FDB := "FDB|"

  /** `parse_static_key`. */
  function ParseStaticKey(suffix: string): Option<(nat, string)> {
    match SplitOnce(suffix, ':')
    case None => None
    case Some((vlan, mac)) =>
      if VlanId(vlan).Some? && NormalizeMac(mac).Some? then Some((VlanId(vlan).value, NormalizeMac(mac).value)) else None
  }

  function StaticPrefix(vlan: nat): string {
    FDB + VlanName(vlan) + ":"
  }

  function StaticKey(vlan: nat, mac: string): Key {
    Key(CONFIG_DB, StaticPrefix(vlan) + mac)
  }

  /** A key that parses to this VLAN and MAC. */
  predicate IsEntryOf(k: Key, vlan: nat, mac: string) {
    k.db == CONFIG_DB && FDB <= k.name && ParseStaticKey(k.name[|FDB|..]) == Some((vlan, mac))
  }

  /** A row that the reader reports as the entry of this VLAN and MAC: it skips the rows
      whose port is absent or blank. */
  predicate Reported(db: Db, k: Key, vlan: nat, mac: string) {
    IsEntryOf(k, vlan, mac) && Field(RowOf(db, k), "port").Some?
  }

  /** Such a key under the canonical VLAN name, the MAC in whatever spelling: what the
      writes look for. */
  predicate IsSpellingOf(k: Key, vlan: nat, mac: string) {
    StaticPrefix(vlan) <= k.name && IsEntryOf(k, vlan, mac)
  }

  /** No row is reported as the entry under a misspelt VLAN name. */
  ghost predicate NoMisspelling(db: Db, vlan: nat, mac: string) {
    forall k :: Reported(db, k, vlan, mac) ==> StaticPrefix(vlan) <= k.name
  }

  lemma {:induction false} LeadingZeroValue(s: string)
    requires AllDigits(s)
    ensures AllDigits("0" + s) && DigitsValue("0" + s) == DigitsValue(s)
    decreases |s|
  {
    if s != "" {
      LeadingZeroValue(s[..|s| - 1]);
      assert ("0" + s)[..|s|] == "0" + s[..|s| - 1];
    } else {
      assert "0" + "" == "0" && "0"[..0] == "";
    }
  }

  lemma ZeroPadded(vlan: nat)
    requires vlan <= U32_MAX
    ensures ParseUnsigned("0" + Render(vlan), U32_MAX) == Some(vlan)
  {
    var s := "0" + Render(vlan);
    ParseOfRender(vlan, U32_MAX);
    LeadingZeroValue(Render(vlan));
    assert Render(vlan)[0] != '+';
    assert AllDigits(Render(vlan)) && s[0] == '0';
    assert forall i :: 0 < i < |s| ==> s[i] == Render(vlan)[i - 1];
  }

  lemma NotUnderCanonical(vlan: nat, mac: string)
    ensures !(StaticPrefix(vlan) <= FDB + "Vlan0" + Render(vlan) + ":" + mac)
  {
    var p, s := StaticPrefix(vlan), FDB + "Vlan0" + Render(vlan) + ":" + mac;
    var i := |p| - 1;
    assert p[i] == ':' && s[i] == Render(vlan)[|Render(vlan)| - 1];
    assert IsDigit(s[i]);
  }

  /** Misspelt VLAN names exist: a row with a leading zero is reported as the same VLAN
      exactly when it names a port, and no write looks at it. */
  lemma LeadingZeroIsReported(db: Db, vlan: nat, mac: string)
    requires vlan <= U32_MAX && NormalizeMac(mac) == Some(mac)
    ensures var k := Key(CONFIG_DB, FDB + "Vlan0" + Render(vlan) + ":" + mac);
      && (Reported(db, k, vlan, mac) <==> Field(RowOf(db, k), "port").Some?)
      && !IsSpellingOf(k, vlan, mac)
  {
    PaddedName(vlan);
    NotUnderCanonical(vlan, mac);
    hide NormalizeMac, VlanId, Render, StaticPrefix;
    NamedIsEntry("Vlan0" + Render(vlan), vlan, mac);
    SameText(FDB, "Vlan0", Render(vlan), mac);
  }

  lemma SameText(a: string, b: string, c: string, d: string)
    ensures a + (b + c) + ":" + d == a + b + c + ":" + d
  {
  }

  /** A key built from any name that is read as the VLAN. */
  lemma NamedIsEntry(name: string, vlan: nat, mac: string)
    requires VlanId(name) == Some(vlan) && Lacks(name, ':') && NormalizeMac(mac) == Some(mac)
    ensures IsEntryOf(Key(CONFIG_DB, FDB + name + ":" + mac), vlan, mac)
  {
    hide NormalizeMac, VlanId;
    SuffixOfKey(FDB, name, mac);
    SplitOnceOf(name, ':', mac);
  }

  lemma SuffixOfKey(p: string, name: string, mac: string)
    ensures p <= p + name + ":" + mac && (p + name + ":" + mac)[|p|..] == name + [':'] + mac
  {
  }

  lemma PaddedName(vlan: nat)
    requires vlan <= U32_MAX
    ensures VlanId("Vlan0" + Render(vlan)) == Some(vlan) && Lacks("Vlan0" + Render(vlan), ':')
  {
    var name := "Vlan0" + Render(vlan);
    ZeroPadded(vlan);
    assert name[4..] == "0" + Render(vlan);
    forall i | 0 <= i < |name| ensures name[i] != ':' {
      if i >= 5 {
        assert name[i] == Render(vlan)[i - 5] && IsDigit(Render(vlan)[i - 5]);
      }
    }
  }

  predicate HexOdd(c: char) {
    c in ['1', '3', '5', '7', '9', 'b', 'd', 'f']
  }

  /** `check_mac`: unicast and not all zero. */
  function CheckMac(mac: string): Option<string> {
    match NormalizeMac(mac)
    case None => None
    case Some(m) => if |m| < 2 || HexOdd(m[1]) || m == "00:00:00:00:00:00" then None else Some(m)
  }

  /** The value of a hexadecimal digit in lower case. */
  function DigitOf(c: char): int
    requires IsLowerHex(c)
  {
    if c <= '9' then c as int - '0' as int else c as int - 'a' as int + 10
  }

  /** Accepted are exactly the unicast addresses but the zero one: the lowest bit of the
      first octet is not set. */
  lemma CheckMacExactly(mac: string)
    ensures CheckMac(mac).Some? <==>
              && NormalizeMac(mac).Some?
              && (var m := NormalizeMac(mac).value; IsLowerHex(m[1]) && DigitOf(m[1]) % 2 == 0 && m != "00:00:00:00:00:00")
    ensures CheckMac(mac).Some? ==> CheckMac(mac) == NormalizeMac(mac)
  {
    if NormalizeMac(mac).Some? {
      PairsStart(Hex(Trim(mac)));
      hide NormalizeMac, Pairs, Hex, Trim;
    }
  }

  /** The canonical key is itself one of the spellings. */
  lemma CanonicalIsSpelling(vlan: nat, mac: string)
    requires vlan <= U32_MAX && NormalizeMac(mac) == Some(mac)
    ensures IsSpellingOf(StaticKey(vlan, mac), vlan, mac)
  {
    hide NormalizeMac, VlanName, VlanId, IsEntryOf;
    VlanNames(vlan);
    VlanNameLacksColon(vlan);
    NamedIsEntry(VlanName(vlan), vlan, mac);
    SuffixOfKey(StaticPrefix(vlan), "", mac);
  }

  lemma VlanNameLacksColon(vlan: nat)
    ensures Lacks(VlanName(vlan), ':')
  {
    forall i | 0 <= i < |VlanName(vlan)| ensures VlanName(vlan)[i] != ':' {
      if i >= 4 {
        assert IsDigit(Render(vlan)[i - 4]);
      }
    }
  }

  method MatchingKeys(plat: Platform, vlan: nat, mac: string) returns (ok: bool, found: seq<Key>)
    requires plat.Valid()
    modifies plat`calls
    ensures old(plat.calls) <= plat.calls
    ensures ok <==> AllWork(plat.fault, old(plat.calls), plat.calls)
    ensures ok ==> forall k :: k in found <==> k in plat.rows && IsSpellingOf(k, vlan, mac)
  {
    assert FDB <= StaticPrefix(vlan);
    hide ParseStaticKey, StaticPrefix;
    found := [];
    var names;
    ok, names := plat.Scan(CONFIG_DB, StaticPrefix(vlan));
    if !ok { return; }
    for i := 0 to |names|
      invariant plat.calls == old(plat.calls) + 1
      invariant forall k :: k in found <==> k.db == CONFIG_DB && k.name in names[..i] && IsSpellingOf(k, vlan, mac)
    {
      assert names[..i + 1] == names[..i] + [names[i]];
      assert names[i] in names;
      if ParseStaticKey(names[i][|FDB|..]) == Some((vlan, mac)) {
        found := found + [Key(CONFIG_DB, names[i])];
      }
    }
    assert names[..|names|] == names;
    forall k: Key ensures k in found <==> k in plat.rows && IsSpellingOf(k, vlan, mac) {
      if k.db == CONFIG_DB {
        assert k == Key(CONFIG_DB, k.name);
      }
    }
  }

  /** What `put_static` answers when no call fails. */
  function StaticVerdict(db: Db, writable: bool, vlan: nat, mac: string, port: string): WriteResult {
    if CheckMac(mac) == None then BadRequest
    else if !writable then Conflict
    else if VlanKey(VlanName(vlan)) !in db then NotFound
    else if MemberKey(VlanName(vlan), port) !in db then BadRequest
    else Done
  }

  method CheckStatic(plat: Platform, writable: bool, vlan: nat, mac: string, port: string) returns (r: WriteResult, m: string)
    requires plat.Valid()
    modifies plat`calls
    ensures old(plat.calls) <= plat.calls && r in {Done, BadRequest, NotFound, Conflict, Redis}
    ensures r.Done? ==> CheckMac(mac) == Some(m) && VlanKey(VlanName(vlan)) in plat.rows && MemberKey(VlanName(vlan), port) in plat.rows
    ensures AllWork(plat.fault, old(plat.calls), plat.calls) ==>
              r == StaticVerdict(plat.rows, writable, vlan, mac, port)
  {
    hide CheckMac, VlanKey, MemberKey;
    m := "";
    if CheckMac(mac) == None {
      r := BadRequest;
      return;
    }
    m := CheckMac(mac).value;
    if !writable {
      r := Conflict;
      return;
    }
    var ok, found := plat.Exists(VlanKey(VlanName(vlan)));
    if !ok || !found {
      r := if ok then NotFound else Redis;
      return;
    }
    ok, found := plat.Exists(MemberKey(VlanName(vlan), port));
    r := if !ok then Redis else if found then Done else BadRequest;
  }

  /** The static entry sits in exactly one row, whatever spelling was there before. */
  method PutStatic(plat: Platform, writable: bool, vlan: nat, mac: string, port: string) returns (r: WriteResult)
    requires plat.Valid() && vlan <= U32_MAX
    modifies plat
    ensures plat.Valid()
    ensures r in {BadRequest, NotFound, Conflict} ==> plat.rows == old(plat.rows)
    ensures r.Done? ==> CheckMac(mac).Some? && MemberKey(VlanName(vlan), port) in old(plat.rows)
    ensures r.Done? ==>
              var m := CheckMac(mac).value;
              // the reader reports the entry from exactly the canonical row, if and only if the port
              // is not blank and no row under a misspelt VLAN name was reported
              && ((forall k :: Reported(plat.rows, k, vlan, m) <==> k == StaticKey(vlan, m))
                  <==> Present(port).Some? && NoMisspelling(old(plat.rows), vlan, m))
              && (forall k :: k in plat.rows && IsSpellingOf(k, vlan, m) <==> k == StaticKey(vlan, m))
              && RowOf(plat.rows, StaticKey(vlan, m)) == RowOf(old(plat.rows), StaticKey(vlan, m)) + map["port" := port, "type" := "static"]
              && (forall k :: !IsSpellingOf(k, vlan, m) ==> RowOf(plat.rows, k) == RowOf(old(plat.rows), k))
    ensures AllWork(plat.fault, old(plat.calls), plat.calls) ==>
              r == StaticVerdict(old(plat.rows), writable, vlan, mac, port)
  {
    hide StaticVerdict, Reported, NoMisspelling, IsSpellingOf, StaticKey, CheckMac, MemberKey, VlanKey, VlanName, Present;
    var m;
    r, m := CheckStatic(plat, writable, vlan, mac, port);
    if !r.Done? { return; }
    CheckedIsNormal(mac, m);
    CanonicalIsSpelling(vlan, m);
    ghost var db := plat.rows;
    var ok := ReplaceStatic(plat, vlan, m, port);
    if ok {
      OneRowExactly(db, plat.rows, vlan, m, port);
    }
    r := if ok then Done else Redis;
  }

  /** One canonical row is all the reader reports exactly when its port is not blank and
      nothing misspelt was reported. */
  lemma OneRowExactly(before: Db, after: Db, vlan: nat, m: string, port: string)
    requires NoEmptyRows(before) && NoEmptyRows(after) && IsSpellingOf(StaticKey(vlan, m), vlan, m)
    requires forall k :: k in after && IsSpellingOf(k, vlan, m) <==> k == StaticKey(vlan, m)
    requires forall k :: !IsSpellingOf(k, vlan, m) ==> RowOf(after, k) == RowOf(before, k)
    requires RowOf(after, StaticKey(vlan, m)) == RowOf(before, StaticKey(vlan, m)) + map["port" := port, "type" := "static"]
    ensures (forall k :: Reported(after, k, vlan, m) <==> k == StaticKey(vlan, m))
       <==> Present(port).Some? && NoMisspelling(before, vlan, m)
  {
    hide ParseStaticKey, StaticKey, StaticPrefix, Present, IsEntryOf;
    var key := StaticKey(vlan, m);
    assert Field(RowOf(after, key), "port") == Present(port);
    assert Reported(after, key, vlan, m) <==> Present(port).Some?;
    hide Reported, IsSpellingOf;
    forall k ensures Reported(after, k, vlan, m) && k != key <==> Reported(before, k, vlan, m) && !(StaticPrefix(vlan) <= k.name) {
      OneRowReported(before, after, vlan, m, k);
    }
  }

  lemma OneRowReported(before: Db, after: Db, vlan: nat, m: string, k: Key)
    requires NoEmptyRows(before) && NoEmptyRows(after) && IsSpellingOf(StaticKey(vlan, m), vlan, m)
    requires k in after && IsSpellingOf(k, vlan, m) <==> k == StaticKey(vlan, m)
    requires !IsSpellingOf(k, vlan, m) ==> RowOf(after, k) == RowOf(before, k)
    ensures Reported(after, k, vlan, m) && k != StaticKey(vlan, m) <==> Reported(before, k, vlan, m) && !(StaticPrefix(vlan) <= k.name)
  {
    hide ParseStaticKey, StaticKey, StaticPrefix, Present, IsEntryOf;
  }

  /** Drop the other spellings, then write the canonical row. */
  method ReplaceStatic(plat: Platform, vlan: nat, m: string, port: string) returns (ok: bool)
    requires plat.Valid() && vlan <= U32_MAX && NormalizeMac(m) == Some(m)
    modifies plat
    ensures plat.Valid() && old(plat.calls) <= plat.calls
    ensures ok ==>
              && (forall k :: k in plat.rows && IsSpellingOf(k, vlan, m) <==> k == StaticKey(vlan, m))
              && RowOf(plat.rows, StaticKey(vlan, m)) == RowOf(old(plat.rows), StaticKey(vlan, m)) + map["port" := port, "type" := "static"]
              && (forall k :: !IsSpellingOf(k, vlan, m) ==> RowOf(plat.rows, k) == RowOf(old(plat.rows), k))
    ensures AllWork(plat.fault, old(plat.calls), plat.calls) ==> ok
  {
    hide NormalizeMac, IsSpellingOf, StaticKey, Exec, KeySet, Except;
    ghost var db := plat.rows;
    var found;
    ok, found := MatchingKeys(plat, vlan, m);
    if !ok { return; }
    var canonical := StaticKey(vlan, m);
    CanonicalIsSpelling(vlan, m);
    var stale := Except(found, canonical);
    ghost var gone;
    ok, gone := DeleteEach(plat, stale);
    if !ok { return; }
    assert stale[..gone] == stale;
    var fields: Row := map["port" := port, "type" := "static"];
    assert "port" in fields;
    StaticWritten(db, plat.rows, vlan, m, stale, fields);
    ok := plat.Write(HSet(canonical, fields));
  }

  lemma StaticWritten(db: Db, cleared: Db, vlan: nat, m: string, stale: seq<Key>, fields: Row)
    requires NoEmptyRows(db) && cleared == db - KeySet(stale) && "port" in fields
    requires forall k :: k in stale <==> k in db && IsSpellingOf(k, vlan, m) && k != StaticKey(vlan, m)
    requires IsSpellingOf(StaticKey(vlan, m), vlan, m)
    ensures var after := Exec(cleared, HSet(StaticKey(vlan, m), fields));
      && (forall k :: k in after && IsSpellingOf(k, vlan, m) <==> k == StaticKey(vlan, m))
      && RowOf(after, StaticKey(vlan, m)) == RowOf(db, StaticKey(vlan, m)) + fields
      && (forall k :: !IsSpellingOf(k, vlan, m) ==> RowOf(after, k) == RowOf(db, k))
  {
    hide IsSpellingOf, StaticKey;
    var key := StaticKey(vlan, m);
    var op := HSet(key, fields);
    assert "port" in RowOf(cleared, key) + fields;
    ExecReads(cleared, op, key);
    forall k | !IsSpellingOf(k, vlan, m) ensures RowOf(Exec(cleared, op), k) == RowOf(db, k) {
      ExecKeepsOthers(cleared, op, k);
    }
  }

  lemma CheckedIsNormal(mac: string, m: string)
    requires CheckMac(mac) == Some(m)
    ensures NormalizeMac(m) == Some(m)
  {
    hide NormalizeMac;
    NormalMacExactly(mac, mac);
  }

  function Except(keys: seq<Key>, k: Key): (r: seq<Key>)
    ensures forall x :: x in r <==> x in keys && x != k
  {
    if keys == [] then [] else if keys[0] == k then Except(keys[1..], k) else [keys[0]] + Except(keys[1..], k)
  }

  method DeleteStatic(plat: Platform, writable: bool, vlan: nat, mac: string) returns (r: WriteResult)
    requires plat.Valid()
    modifies plat
    ensures plat.Valid()
    ensures r in {BadRequest, Conflict} ==> plat.rows == old(plat.rows)
    ensures r.Done? || r.NotFound? ==> CheckMac(mac).Some?
    // the reader reports the entry no more, if and only if no row under a misspelt VLAN name
    // was reported; no other row went
    ensures r.Done? || r.NotFound? ==>
              var m := CheckMac(mac).value;
              (forall k :: !Reported(plat.rows, k, vlan, m)) <==> NoMisspelling(old(plat.rows), vlan, m)
    ensures r.Done? || r.NotFound? ==>
              var m := CheckMac(mac).value;
              forall k :: RowOf(plat.rows, k) == if IsSpellingOf(k, vlan, m) then map[] else RowOf(old(plat.rows), k)
    ensures AllWork(plat.fault, old(plat.calls), plat.calls) ==>
              r == if CheckMac(mac) == None then BadRequest else if !writable then Conflict
                   else if exists k :: k in old(plat.rows) && IsSpellingOf(k, vlan, CheckMac(mac).value) then Done else NotFound
  {
    hide IsSpellingOf, CheckMac, Reported, NoMisspelling;
    if CheckMac(mac) == None { return BadRequest; }
    if !writable { return Conflict; }
    var ok, found := MatchingKeys(plat, vlan, CheckMac(mac).value);
    if !ok { return Redis; }
    ghost var db := plat.rows;
    if found == [] {
      NoneReportedExactly(db, plat.rows, vlan, CheckMac(mac).value);
      return NotFound;
    }
    assert found[0] in found;
    ghost var gone;
    ok, gone := DeleteEach(plat, found);
    assert gone == |found| ==> found[..gone] == found;
    if ok {
      NoneReportedExactly(db, plat.rows, vlan, CheckMac(mac).value);
    }
    r := if ok then Done else Redis;
  }

  lemma NoneReportedExactly(before: Db, after: Db, vlan: nat, m: string)
    requires NoEmptyRows(before) && NoEmptyRows(after)
    requires forall k :: RowOf(after, k) == if IsSpellingOf(k, vlan, m) then map[] else RowOf(before, k)
    ensures (forall k :: !Reported(after, k, vlan, m)) <==> NoMisspelling(before, vlan, m)
  {
    hide ParseStaticKey, StaticPrefix, IsEntryOf, Present;
    forall k ensures Reported(after, k, vlan, m) <==> Reported(before, k, vlan, m) && !(StaticPrefix(vlan) <= k.name) {
      assert RowOf(after, k) == if IsSpellingOf(k, vlan, m) then map[] else RowOf(before, k);
    }
  }

  // ------------------------------------------------------------- learned table

  datatype Entry = Entry(vlan: nat, mac: string, port: string, isStatic: bool)

  function AsicKey(table: string, oid: string): Key {
    Key(ASIC_DB, table + oid)
  }

  function VlanOfBvid(db: Db, bvid: string): Option<nat> {
    NumField(RowOf(db, AsicKey("ASIC_STATE:SAI_OBJECT_TYPE_VLAN:", bvid)), "SAI_VLAN_ATTR_VLAN_ID", U32_MAX)
  }

  function PortOfBridge(db: Db, names: map<string, string>, bridge: string): Option<string> {
    match Field(RowOf(db, AsicKey("ASIC_STATE:SAI_OBJECT_TYPE_BRIDGE_PORT:", bridge)), "SAI_BRIDGE_PORT_ATTR_PORT_ID")
    case None => None
    case Some(oid) => if oid in names then Some(names[oid]) else None
  }

  predicate Contains(s: string, part: string)
    decreases |s|
  {
    part <= s || (s != "" && Contains(s[1..], part))
  }

  predicate IsStaticRow(row: Row) {
    Field(row, "SAI_FDB_ENTRY_ATTR_TYPE").Some? && Contains(Field(row, "SAI_FDB_ENTRY_ATTR_TYPE").value, "STATIC")
  }

  /** One ASIC key resolved directly; `parse` reads the key's JSON tail. */
  function Resolve(db: Db, names: map<string, string>, parse: string -> Option<(string, string)>, key: string): Option<Entry> {
    match parse(key)
    case None => None
    case Some((bvid, mac)) =>
      if VlanOfBvid(db, bvid) == None then None
      else
        var row := RowOf(db, Key(ASIC_DB, key));
        match Field(row, "SAI_FDB_ENTRY_ATTR_BRIDGE_PORT_ID")
        case None => None
        case Some(bridge) =>
          if PortOfBridge(db, names, bridge) == None then None
          else Some(Entry(VlanOfBvid(db, bvid).value, mac, PortOfBridge(db, names, bridge).value, IsStaticRow(row)))
  }

  function ResolveAll(db: Db, names: map<string, string>, parse: string -> Option<(string, string)>, keys: seq<string>): seq<Entry>
    decreases |keys|
  {
    if keys == [] then []
    else
      var rest := ResolveAll(db, names, parse, keys[..|keys| - 1]);
      match Resolve(db, names, parse, keys[|keys| - 1])
      case None => rest
      case Some(e) => rest + [e]
  }

  /** The text holds this part somewhere. */
  ghost predicate Mentions(s: string, part: string) {
    exists i :: 0 <= i <= |s| && part <= s[i..]
  }

  lemma {:induction false} ContainsExactly(s: string, part: string)
    ensures Contains(s, part) <==> Mentions(s, part)
    decreases |s|
  {
    assert s[0..] == s;
    if s != "" {
      ContainsExactly(s[1..], part);
      if i :| 0 <= i <= |s| && part <= s[i..] {
        if i > 0 {
          assert s[1..][i - 1..] == s[i..];
        }
      }
      if i :| 0 <= i <= |s[1..]| && part <= s[1..][i..] {
        assert s[1..][i..] == s[i + 1..];
      }
    }
  }

  /** The key stands for this entry: its MAC, the VLAN of its bridge VLAN, the name of the
      port behind its bridge port, and static exactly when its type mentions STATIC. */
  ghost predicate Denotes(db: Db, names: map<string, string>, parse: string -> Option<(string, string)>, key: string, e: Entry) {
    var row := RowOf(db, Key(ASIC_DB, key));
    var kind := Field(row, "SAI_FDB_ENTRY_ATTR_TYPE");
    && parse(key).Some? && parse(key).value.1 == e.mac
    && NumField(RowOf(db, Key(ASIC_DB, "ASIC_STATE:SAI_OBJECT_TYPE_VLAN:" + parse(key).value.0)), "SAI_VLAN_ATTR_VLAN_ID", U32_MAX) == Some(e.vlan)
    && (e.isStatic <==> kind.Some? && Mentions(kind.value, "STATIC"))
    && exists bridge, oid ::
         && Field(row, "SAI_FDB_ENTRY_ATTR_BRIDGE_PORT_ID") == Some(bridge)
         && Field(RowOf(db, Key(ASIC_DB, "ASIC_STATE:SAI_OBJECT_TYPE_BRIDGE_PORT:" + bridge)), "SAI_BRIDGE_PORT_ATTR_PORT_ID") == Some(oid)
         && oid in names && names[oid] == e.port
  }

  lemma ResolveDenotes(db: Db, names: map<string, string>, parse: string -> Option<(string, string)>, key: string, e: Entry)
    ensures Resolve(db, names, parse, key) == Some(e) <==> Denotes(db, names, parse, key, e)
  {
    hide Field, NumField, Contains, Mentions;
    var row := RowOf(db, Key(ASIC_DB, key));
    if Field(row, "SAI_FDB_ENTRY_ATTR_TYPE").Some? {
      ContainsExactly(Field(row, "SAI_FDB_ENTRY_ATTR_TYPE").value, "STATIC");
    }
  }

  /** The resolved entries are exactly those the keys stand for. */
  lemma {:induction false} ResolvedExactly(db: Db, names: map<string, string>, parse: string -> Option<(string, string)>, keys: seq<string>, e: Entry)
    ensures e in ResolveAll(db, names, parse, keys) <==> exists key :: key in keys && Denotes(db, names, parse, key, e)
    decreases |keys|
  {
    hide Resolve, Denotes;
    if keys != [] {
      var front, last := keys[..|keys| - 1], keys[|keys| - 1];
      assert forall key :: key in keys <==> key in front || key == last;
      ResolvedExactly(db, names, parse, front, e);
      ResolveDenotes(db, names, parse, last, e);
    }
  }

  /** What a cache knows is true of the snapshot. */
  ghost predicate VlansAgree(db: Db, cache: map<string, Option<nat>>) {
    forall b :: b in cache ==> cache[b] == VlanOfBvid(db, b)
  }

  ghost predicate PortsAgree(db: Db, names: map<string, string>, cache: map<string, Option<string>>) {
    forall b :: b in cache ==> cache[b] == PortOfBridge(db, names, b)
  }

  /** Look a VLAN up, reading it the first time only. */
  method VlanCached(plat: Platform, cache: map<string, Option<nat>>, bvid: string) returns (cache': map<string, Option<nat>>)
    requires plat.Valid()
    modifies plat`calls
    ensures old(plat.calls) <= plat.calls && bvid in cache'
    ensures AllWork(plat.fault, old(plat.calls), plat.calls) && VlansAgree(plat.rows, cache) ==> VlansAgree(plat.rows, cache')
  {
    hide NumField, AsicKey;
    cache' := cache;
    if bvid !in cache {
      var _, row := plat.HGetAll(AsicKey("ASIC_STATE:SAI_OBJECT_TYPE_VLAN:", bvid));
      cache' := cache[bvid := NumField(row, "SAI_VLAN_ATTR_VLAN_ID", U32_MAX)];
    }
  }

  method PortCached(plat: Platform, names: map<string, string>, cache: map<string, Option<string>>, bridge: string)
    returns (cache': map<string, Option<string>>)
    requires plat.Valid()
    modifies plat`calls
    ensures old(plat.calls) <= plat.calls && bridge in cache'
    ensures AllWork(plat.fault, old(plat.calls), plat.calls) && PortsAgree(plat.rows, names, cache) ==> PortsAgree(plat.rows, names, cache')
  {
    hide Field, AsicKey;
    cache' := cache;
    if bridge !in cache {
      var _, row := plat.HGetAll(AsicKey("ASIC_STATE:SAI_OBJECT_TYPE_BRIDGE_PORT:", bridge));
      var oid := Field(row, "SAI_BRIDGE_PORT_ATTR_PORT_ID");
      cache' := cache[bridge := if oid.Some? && oid.value in names then Some(names[oid.value]) else None];
    }
  }

  /** One key through the caches. */
  method ResolveCached(plat: Platform, names: map<string, string>, parse: string -> Option<(string, string)>, key: string,
                       vlans: map<string, Option<nat>>, ports: map<string, Option<string>>)
    returns (entry: Option<Entry>, vlans': map<string, Option<nat>>, ports': map<string, Option<string>>)
    requires plat.Valid()
    modifies plat`calls
    ensures old(plat.calls) <= plat.calls
    ensures AllWork(plat.fault, old(plat.calls), plat.calls) && VlansAgree(plat.rows, vlans) && PortsAgree(plat.rows, names, ports) ==>
              && entry == Resolve(plat.rows, names, parse, key)
              && VlansAgree(plat.rows, vlans') && PortsAgree(plat.rows, names, ports')
  {
    hide VlanOfBvid, PortOfBridge, Field, IsStaticRow;
    entry, vlans', ports' := None, vlans, ports;
    var parsed := parse(key);
    if parsed == None { return; }
    var (bvid, mac) := parsed.value;
    vlans' := VlanCached(plat, vlans, bvid);
    if vlans'[bvid] == None { return; }
    var _, row := plat.HGetAll(Key(ASIC_DB, key));
    var bridge := Field(row, "SAI_FDB_ENTRY_ATTR_BRIDGE_PORT_ID");
    if bridge == None { return; }
    ports' := PortCached(plat, names, ports, bridge.value);
    if ports'[bridge.value] == None { return; }
    entry := Some(Entry(vlans'[bvid].value, mac, ports'[bridge.value].value, IsStaticRow(row)));
  }

  /** The loop of `get_table`: both caches filled on the way. */
  method LearnedEntries(plat: Platform, names: map<string, string>, parse: string -> Option<(string, string)>, keys: seq<string>)
    returns (entries: seq<Entry>)
    requires plat.Valid()
    modifies plat`calls
    ensures old(plat.calls) <= plat.calls
    ensures AllWork(plat.fault, old(plat.calls), plat.calls) ==> entries == ResolveAll(plat.rows, names, parse, keys)
  {
    hide Resolve, VlanOfBvid, PortOfBridge;
    entries := [];
    var vlans: map<string, Option<nat>> := map[];
    var ports: map<string, Option<string>> := map[];
    for i := 0 to |keys|
      invariant old(plat.calls) <= plat.calls
      invariant AllWork(plat.fault, old(plat.calls), plat.calls) ==>
                  && entries == ResolveAll(plat.rows, names, parse, keys[..i])
                  && VlansAgree(plat.rows, vlans) && PortsAgree(plat.rows, names, ports)
    {
      assert keys[..i + 1][..i] == keys[..i];
      var entry;
      entry, vlans, ports := ResolveCached(plat, names, parse, keys[i], vlans, ports);
      if entry.Some? {
        entries := entries + [entry.value];
      }
    }
    assert keys[..|keys|] == keys;
  }

  // ------------------------------------------------------- names, order, cut

  const PORT_NAMES := Key(COUNTERS_DB, "COUNTERS_PORT_NAME_MAP")
  const LAG_NAMES := Key(COUNTERS_DB, "COUNTERS_LAG_NAME_MAP")

  /** The object id names exactly this interface in one of the name maps. */
  ghost predicate Names(db: Db, name: string, oid: string) {
    (name in RowOf(db, PORT_NAMES) && RowOf(db, PORT_NAMES)[name] == oid)
    || (name in RowOf(db, LAG_NAMES) && RowOf(db, LAG_NAMES)[name] == oid)
  }

  ghost predicate UniqueIds(db: Db) {
    forall a, b, oid :: Names(db, a, oid) && Names(db, b, oid) ==> a == b
  }

  method AddNames(row: Row, names: map<string, string>) returns (r: map<string, string>)
    ensures forall oid :: oid in r ==> (oid in names && r[oid] == names[oid]) || (r[oid] in row && row[r[oid]] == oid)
    ensures forall name :: name in row ==> row[name] in r
    ensures forall oid :: oid in names ==> oid in r
  {
    r := names;
    var todo := row.Keys;
    while todo != {}
      invariant todo <= row.Keys
      invariant forall oid :: oid in r ==> (oid in names && r[oid] == names[oid]) || (r[oid] in row && row[r[oid]] == oid)
      invariant forall name :: name in row && name !in todo ==> row[name] in r
      invariant forall oid :: oid in names ==> oid in r
      decreases todo
    {
      var name :| name in todo;
      r := r[row[name] := name];
      todo := todo - {name};
    }
  }

  /** Object id to interface name, ports first, then port channels. */
  method OidNames(plat: Platform) returns (names: map<string, string>)
    requires plat.Valid()
    modifies plat`calls
    ensures old(plat.calls) < plat.calls
    ensures AllWork(plat.fault, old(plat.calls), plat.calls) && UniqueIds(plat.rows) ==>
              forall oid, name :: Names(plat.rows, name, oid) <==> oid in names && names[oid] == name
  {
    var _, ports := plat.HGetAll(PORT_NAMES);
    names := AddNames(ports, map[]);
    var _, lags := plat.HGetAll(LAG_NAMES);
    names := AddNames(lags, names);
    if AllWork(plat.fault, old(plat.calls), plat.calls) && UniqueIds(plat.rows) {
      assert ports == RowOf(plat.rows, PORT_NAMES) && lags == RowOf(plat.rows, LAG_NAMES);
      forall oid, name ensures Names(plat.rows, name, oid) <==> oid in names && names[oid] == name {
        if oid in names {
          assert Names(plat.rows, names[oid], oid);
        }
      }
    }
  }

  /** `str` comparison. */
  predicate StrLe(a: string, b: string) {
    a == "" || (b != "" && (a[0] < b[0] || (a[0] == b[0] && StrLe(a[1..], b[1..]))))
  }

  predicate Before(a: Entry, b: Entry) {
    a.vlan < b.vlan || (a.vlan == b.vlan && StrLe(a.mac, b.mac))
  }

  lemma {:induction false} StrTotal(a: string, b: string)
    ensures StrLe(a, b) || StrLe(b, a)
    ensures StrLe(a, b) && StrLe(b, a) ==> a == b
  {
    if a != "" && b != "" && a[0] == b[0] {
      StrTotal(a[1..], b[1..]);
      assert a == [a[0]] + a[1..] && b == [b[0]] + b[1..];
    }
  }

  lemma {:induction false} StrTransitive(a: string, b: string, c: string)
    requires StrLe(a, b) && StrLe(b, c)
    ensures StrLe(a, c)
  {
    if a != "" && a[0] == b[0] == c[0] {
      StrTransitive(a[1..], b[1..], c[1..]);
    }
  }

  /** Texts ascend: the first is the start of the second, or the smaller where they first
      differ. */
  ghost predicate Ascend(a: string, b: string) {
    exists k :: 0 <= k <= |a| && k <= |b| && a[..k] == b[..k] && (k == |a| || (k < |b| && a[k] < b[k]))
  }

  lemma {:induction false} StrLeAscends(a: string, b: string)
    requires StrLe(a, b)
    ensures Ascend(a, b)
  {
    if a == "" {
      assert a[..0] == b[..0];
    } else if a[0] < b[0] {
      assert a[..0] == b[..0];
    } else {
      StrLeAscends(a[1..], b[1..]);
      var k :| 0 <= k <= |a[1..]| && k <= |b[1..]| && a[1..][..k] == b[1..][..k] && (k == |a[1..]| || (k < |b[1..]| && a[1..][k] < b[1..][k]));
      assert a[..k + 1] == [a[0]] + a[1..][..k] && b[..k + 1] == [b[0]] + b[1..][..k];
    }
  }

  /** By VLAN, then MAC. */
  ghost predicate InTableOrder(s: seq<Entry>) {
    forall i, j :: 0 <= i < j < |s| ==> s[i].vlan < s[j].vlan || (s[i].vlan == s[j].vlan && Ascend(s[i].mac, s[j].mac))
  }

  lemma InOrderAscends(s: seq<Entry>, n: nat)
    requires InOrder(s) && n <= |s|
    ensures InTableOrder(s[..n])
  {
    hide StrLe, Ascend;
    forall i, j | 0 <= i < j < n ensures s[i].vlan < s[j].vlan || (s[i].vlan == s[j].vlan && Ascend(s[i].mac, s[j].mac)) {
      assert Before(s[i], s[j]);
      if !(s[i].vlan < s[j].vlan) {
        StrLeAscends(s[i].mac, s[j].mac);
      }
    }
  }

  ghost predicate InOrder(s: seq<Entry>) {
    forall i, j :: 0 <= i < j < |s| ==> Before(s[i], s[j])
  }

  /** Place an entry after all that do not come later: the sort is stable. */
  function Place(e: Entry, s: seq<Entry>): (r: seq<Entry>)
    ensures multiset(r) == multiset(s) + multiset{e} && |r| == |s| + 1
  {
    if s == [] then [e]
    else
      assert s == [s[0]] + s[1..];
      if Before(s[0], e) then [s[0]] + Place(e, s[1..]) else [e] + s
  }

  /** `sort_by` on (vlan, mac). */
  function SortEntries(s: seq<Entry>): (r: seq<Entry>)
    ensures multiset(r) == multiset(s) && |r| == |s|
    decreases |s|
  {
    if s == [] then []
    else
      assert s == s[..|s| - 1] + [s[|s| - 1]];
      Place(s[|s| - 1], SortEntries(s[..|s| - 1]))
  }

  lemma {:induction false} PlaceInOrder(e: Entry, s: seq<Entry>)
    requires InOrder(s)
    ensures InOrder(Place(e, s))
    decreases |s|
  {
    hide StrLe;
    if s != [] && Before(s[0], e) {
      PlaceInOrder(e, s[1..]);
      var rest := Place(e, s[1..]);
      forall j | 0 <= j < |rest| ensures Before(s[0], rest[j]) {
        assert rest[j] in multiset(rest);
        assert rest[j] in s[1..] || rest[j] == e;
      }
    } else if s != [] {
      StrTotal(s[0].mac, e.mac);
      forall j | 0 <= j < |s| ensures Before(e, s[j]) {
        BeforeAll(e, s, j);
      }
    }
  }

  lemma BeforeAll(e: Entry, s: seq<Entry>, j: nat)
    requires j < |s| && InOrder(s) && Before(e, s[0])
    ensures Before(e, s[j])
  {
    hide StrLe;
    if j > 0 {
      assert Before(s[0], s[j]);
      if e.vlan == s[j].vlan {
        StrTransitive(e.mac, s[0].mac, s[j].mac);
      }
    }
  }

  /** The sort orders by VLAN, then MAC. */
  lemma {:induction false} SortedInOrder(s: seq<Entry>)
    ensures InOrder(SortEntries(s))
    decreases |s|
  {
    if s != [] {
      SortedInOrder(s[..|s| - 1]);
      PlaceInOrder(s[|s| - 1], SortEntries(s[..|s| - 1]));
    }
  }

  /** The entries of one (VLAN, MAC), in the order they stand. */
  function Only(s: seq<Entry>, vlan: nat, mac: string): seq<Entry>
    decreases |s|
  {
    if s == [] then []
    else if s[0].vlan == vlan && s[0].mac == mac then [s[0]] + Only(s[1..], vlan, mac)
    else Only(s[1..], vlan, mac)
  }

  lemma {:induction false} OnlyAppend(a: seq<Entry>, b: seq<Entry>, vlan: nat, mac: string)
    ensures Only(a + b, vlan, mac) == Only(a, vlan, mac) + Only(b, vlan, mac)
    decreases |a|
  {
    if a == [] {
      assert a + b == b;
    } else {
      OnlyFirst(a[0], a[1..] + b, vlan, mac);
      OnlyFirst(a[0], a[1..], vlan, mac);
      hide Only;
      OnlyAppend(a[1..], b, vlan, mac);
      assert a == [a[0]] + a[1..] && a + b == [a[0]] + (a[1..] + b);
    }
  }

  lemma OnlyFirst(e: Entry, s: seq<Entry>, vlan: nat, mac: string)
    ensures Only([e] + s, vlan, mac) == (if e.vlan == vlan && e.mac == mac then [e] else []) + Only(s, vlan, mac)
  {
    assert ([e] + s)[1..] == s;
  }

  lemma {:induction false} PlaceKeepsOnly(e: Entry, s: seq<Entry>, vlan: nat, mac: string)
    requires InOrder(s)
    ensures Only(Place(e, s), vlan, mac) == Only(s + [e], vlan, mac)
    decreases |s|
  {
    hide StrLe;
    if s == [] {
      assert s + [e] == [e];
    } else if Before(s[0], e) {
      PlaceKeepsOnly(e, s[1..], vlan, mac);
      assert (s + [e])[1..] == s[1..] + [e];
      assert ([s[0]] + Place(e, s[1..]))[1..] == Place(e, s[1..]);
    } else {
      StrTotal(s[0].mac, e.mac);
      OnlyAppend(s, [e], vlan, mac);
      assert ([e] + s)[1..] == s;
      assert [e][1..] == [];
      if e.vlan == vlan && e.mac == mac {
        NoneLater(e, s);
        assert Only([e], vlan, mac) == [e];
      } else {
        assert Only([e], vlan, mac) == [];
      }
    }
  }

  /** Nothing in order after a strictly later entry is of the same VLAN and MAC. */
  lemma NoneLater(e: Entry, s: seq<Entry>)
    requires InOrder(s) && s != [] && !Before(s[0], e)
    ensures Only(s, e.vlan, e.mac) == []
  {
    hide StrLe;
    forall j | 0 <= j < |s| ensures !(s[j].vlan == e.vlan && s[j].mac == e.mac) {
      if j > 0 {
        assert Before(s[0], s[j]);
      }
      StrTotal(e.mac, e.mac);
    }
    NoneOf(s, e.vlan, e.mac);
  }

  lemma {:induction false} NoneOf(s: seq<Entry>, vlan: nat, mac: string)
    requires forall j :: 0 <= j < |s| ==> !(s[j].vlan == vlan && s[j].mac == mac)
    ensures Only(s, vlan, mac) == []
    decreases |s|
  {
    if s != [] {
      NoneOf(s[1..], vlan, mac);
    }
  }

  lemma OnlyOfPlaced(e: Entry, s: seq<Entry>, vlan: nat, mac: string)
    requires InOrder(s)
    ensures Only(Place(e, s), vlan, mac) == Only(s, vlan, mac) + Only([e], vlan, mac)
  {
    hide Only, Place, InOrder, StrLe;
    PlaceKeepsOnly(e, s, vlan, mac);
    OnlyAppend(s, [e], vlan, mac);
  }

  lemma OnlyOfSplit(s: seq<Entry>, vlan: nat, mac: string)
    requires s != []
    ensures Only(s, vlan, mac) == Only(s[..|s| - 1], vlan, mac) + Only([s[|s| - 1]], vlan, mac)
  {
    hide Only;
    OnlyAppend(s[..|s| - 1], [s[|s| - 1]], vlan, mac);
    assert s == s[..|s| - 1] + [s[|s| - 1]];
  }

  /** Entries of the same VLAN and MAC keep their order. */
  lemma {:induction false} SortIsStable(s: seq<Entry>, vlan: nat, mac: string)
    ensures Only(SortEntries(s), vlan, mac) == Only(s, vlan, mac)
    decreases |s|
  {
    if s != [] {
      hide Only, Place, InOrder, StrLe;
      var front, last := s[..|s| - 1], s[|s| - 1];
      SortIsStable(front, vlan, mac);
      SortedInOrder(front);
      OnlyOfPlaced(last, SortEntries(front), vlan, mac);
      OnlyOfSplit(s, vlan, mac);
    }
  }

  const TABLE_CAP := 20000

  /** `get_table`: the direct resolution of every key, sorted, cut at the cap; the two
      totals describe the uncut table. */
  method GetTable(plat: Platform, parse: string -> Option<(string, string)>)
    returns (entries: seq<Entry>, truncated: bool, total: nat, ghost names: map<string, string>, ghost keys: seq<string>)
    requires plat.Valid()
    modifies plat`calls
    ensures AllWork(plat.fault, old(plat.calls), plat.calls) ==>
              var all := ResolveAll(plat.rows, names, parse, keys);
              && entries == SortEntries(all)[..Min(TABLE_CAP, |all|)]
              && InTableOrder(entries)
              && (forall e :: e in all <==> exists key :: key in keys && Denotes(plat.rows, names, parse, key, e))
              && total == |all| && (truncated <==> |all| > TABLE_CAP)
              && (forall n :: n in keys <==> Key(ASIC_DB, n) in plat.rows && "ASIC_STATE:SAI_OBJECT_TYPE_FDB_ENTRY:" <= n)
    ensures AllWork(plat.fault, old(plat.calls), plat.calls) && UniqueIds(plat.rows) ==>
              forall oid, name :: Names(plat.rows, name, oid) <==> oid in names && names[oid] == name
  {
    hide Names, UniqueIds, Resolve, Denotes, InTableOrder, InOrder;
    var _, scanned := plat.Scan(ASIC_DB, "ASIC_STATE:SAI_OBJECT_TYPE_FDB_ENTRY:");
    keys := scanned;
    var map_ := OidNames(plat);
    names := map_;
    var resolved := LearnedEntries(plat, map_, parse, scanned);
    entries := SortEntries(resolved);
    SortedInOrder(resolved);
    InOrderAscends(entries, Min(TABLE_CAP, |entries|));
    forall e ensures e in ResolveAll(plat.rows, names, parse, keys) <==> exists key :: key in keys && Denotes(plat.rows, names, parse, key, e) {
      ResolvedExactly(plat.rows, names, parse, keys, e);
    }
    total := |entries|;
    truncated := total > TABLE_CAP;
    entries := entries[..Min(TABLE_CAP, |entries|)];
  }
}
