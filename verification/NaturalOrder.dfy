/** Natural ordering of interface names (`src/sonic/switching.rs` natural_cmp and
    take_number) and the sort-then-dedup that uses it. */
module NaturalOrder {
  import opened Common

  type Byte = b: int | 0 <= b < 256
  type Name = seq<Byte>

  datatype Order = Less | Equal | Greater {
    function Flip(): Order {
      match this
      case Less => Greater
      case Equal => Equal
      case Greater => Less
    }
  }

  function Cmp(x: int, y: int): Order {
    if x < y then Less else if x == y then Equal else Greater
  }

  predicate IsAsciiDigit(b: Byte) {
    48 <= b <= 57
  }

  // ----------------------------------------------------------------- the tokens

  /** A digit run by its value, capped at the largest 64-bit number, or another byte. */
  datatype Token = Num(value: nat) | Ch(byte: Byte)

  function DigitRun(s: Name): (n: nat)
    ensures n <= |s|
    ensures forall i :: 0 <= i < n ==> IsAsciiDigit(s[i])
    ensures n < |s| ==> !IsAsciiDigit(s[n])
  {
    if s == [] || !IsAsciiDigit(s[0]) then 0 else 1 + DigitRun(s[1..])
  }

  function DigitOf(b: Byte): int {
    b as int - 48
  }

  function Decimal(digits: Name): int {
    if digits == [] then 0 else 10 * Decimal(digits[..|digits| - 1]) + DigitOf(digits[|digits| - 1])
  }

  function Cap(n: int): int {
    if n > U64_MAX then U64_MAX else n
  }

  lemma {:induction false} DecimalNonNegative(digits: Name)
    requires forall i :: 0 <= i < |digits| ==> IsAsciiDigit(digits[i])
    ensures Decimal(digits) >= 0
  {
    if digits != [] {
      DecimalNonNegative(digits[..|digits| - 1]);
    }
  }

  /** The run's value without overflow. */
  function RunValue(s: Name): nat {
    DecimalNonNegative(s[..DigitRun(s)]);
    Cap(Decimal(s[..DigitRun(s)]))
  }

  function Tokens(s: Name): seq<Token>
    decreases |s|
  {
    if s == [] then []
    else if IsAsciiDigit(s[0]) then [Num(RunValue(s))] + Tokens(s[DigitRun(s)..])
    else [Ch(s[0])] + Tokens(s[1..])
  }

  /** Numbers by value, bytes by value; a number stands where the digits stand. */
  function CmpToken(x: Token, y: Token): Order {
    match (x, y)
    case (Num(m), Num(n)) => Cmp(m, n)
    case (Ch(b), Ch(c)) => Cmp(b, c)
    case (Num(_), Ch(c)) => Cmp(48, c)
    case (Ch(b), Num(_)) => Cmp(b, 48)
  }

  /** Lexicographic comparison, a proper prefix being less. */
  function CmpTokens(x: seq<Token>, y: seq<Token>): Order {
    if x == [] then (if y == [] then Equal else Less)
    else if y == [] then Greater
    else match CmpToken(x[0], y[0])
         case Equal => CmpTokens(x[1..], y[1..])
         case other => other
  }

  // ------------------------------------------------------------- which is less

  /** A cut that splits no digit run. */
  predicate CleanCut(p: Name, rest: Name) {
    p == [] || rest == [] || !IsAsciiDigit(p[|p| - 1]) || !IsAsciiDigit(rest[0])
  }

  /** The first thing in which two names differ: one has ended, or two numbers of which one
      is smaller, or two bytes, not both digits, of which one is smaller. */
  predicate HeadLess(u: Name, v: Name) {
    if u == [] || v == [] then u == [] && v != []
    else if IsAsciiDigit(u[0]) && IsAsciiDigit(v[0]) then RunValue(u) < RunValue(v)
    else u[0] < v[0]
  }

  /** After parts that read alike, `a` is the lesser. */
  ghost predicate LessAt(a: Name, b: Name, i: nat, j: nat) {
    && i <= |a| && j <= |b| && Tokens(a[..i]) == Tokens(b[..j])
    && CleanCut(a[..i], a[i..]) && CleanCut(b[..j], b[j..]) && HeadLess(a[i..], b[j..])
  }

  ghost predicate IsLess(a: Name, b: Name) {
    exists i, j :: LessAt(a, b, i, j)
  }

  lemma {:induction false} TokensAppend(p: Name, rest: Name)
    requires CleanCut(p, rest)
    ensures Tokens(p + rest) == Tokens(p) + Tokens(rest)
    decreases |p|
  {
    if p == [] {
      assert p + rest == rest;
    } else {
      hide Tokens, RunValue, DigitRun;
      var n := FirstLen(p);
      var token := if IsAsciiDigit(p[0]) then Num(RunValue(p)) else Ch(p[0]);
      FirstOfAppend(p, rest);
      TokensAppend(p[n..], rest);
      assert [token] + Tokens(p[n..]) + Tokens(rest) == [token] + (Tokens(p[n..]) + Tokens(rest));
    }
  }

  lemma FirstOfAppend(p: Name, rest: Name)
    requires p != [] && CleanCut(p, rest)
    ensures var token, n := if IsAsciiDigit(p[0]) then Num(RunValue(p)) else Ch(p[0]), FirstLen(p);
      && Tokens(p) == [token] + Tokens(p[n..]) && Tokens(p + rest) == [token] + Tokens(p[n..] + rest)
      && CleanCut(p[n..], rest)
  {
    TokensStep(p);
    TokensStep(p + rest);
    hide Tokens, Decimal;
    RunOfAppend(p, rest);
    SplitAppend(p, rest, FirstLen(p));
  }

  lemma SplitAppend(p: Name, rest: Name, n: nat)
    requires 0 < n <= |p|
    ensures (p + rest)[0] == p[0] && (p + rest)[..n] == p[..n] && (p + rest)[n..] == p[n..] + rest
  {
  }

  lemma TokensStep(s: Name)
    requires s != []
    ensures Tokens(s) == if IsAsciiDigit(s[0]) then [Num(RunValue(s))] + Tokens(s[DigitRun(s)..]) else [Ch(s[0])] + Tokens(s[1..])
  {
  }

  lemma {:induction false} RunOfAppend(p: Name, rest: Name)
    requires CleanCut(p, rest)
    ensures DigitRun(p + rest) == if p == [] then DigitRun(rest) else DigitRun(p)
    decreases |p|
  {
    if p == [] {
      assert p + rest == rest;
    } else {
      assert (p + rest)[1..] == p[1..] + rest;
      if IsAsciiDigit(p[0]) {
        RunOfAppend(p[1..], rest);
      }
    }
  }

  lemma {:induction false} SameStart(x: seq<Token>, u: seq<Token>, v: seq<Token>)
    ensures CmpTokens(x + u, x + v) == CmpTokens(u, v)
  {
    if x == [] {
      assert x + u == u && x + v == v;
    } else {
      SameStart(x[1..], u, v);
      assert (x + u)[1..] == x[1..] + u && (x + v)[1..] == x[1..] + v;
    }
  }

  lemma HeadDecides(u: Name, v: Name)
    requires HeadLess(u, v)
    ensures CmpTokens(Tokens(u), Tokens(v)) == Less
  {
  }

  lemma LessAtIsLess(a: Name, b: Name, i: nat, j: nat)
    requires LessAt(a, b, i, j)
    ensures CmpTokens(Tokens(a), Tokens(b)) == Less
  {
    hide Tokens, CmpTokens, HeadLess;
    TokensAppend(a[..i], a[i..]);
    TokensAppend(b[..j], b[j..]);
    assert a == a[..i] + a[i..] && b == b[..j] + b[j..];
    SameStart(Tokens(a[..i]), Tokens(a[i..]), Tokens(b[j..]));
    HeadDecides(a[i..], b[j..]);
  }

  /** How many bytes the first token takes. */
  function FirstLen(s: Name): (n: nat)
    requires s != []
    ensures 0 < n <= |s|
  {
    if IsAsciiDigit(s[0]) then DigitRun(s) else 1
  }

  lemma FirstToken(s: Name)
    requires s != []
    ensures CleanCut(s[..FirstLen(s)], s[FirstLen(s)..])
    ensures Tokens(s) == Tokens(s[..FirstLen(s)]) + Tokens(s[FirstLen(s)..])
    ensures Tokens(s[..FirstLen(s)]) == [Tokens(s)[0]] && Tokens(s[FirstLen(s)..]) == Tokens(s)[1..]
  {
    var n := FirstLen(s);
    assert s == s[..n] + s[n..];
    TokensAppend(s[..n], s[n..]);
    OneToken(s[..n]);
  }

  lemma {:induction false} OneToken(s: Name)
    requires s != [] && (|s| == 1 || forall i :: 0 <= i < |s| ==> IsAsciiDigit(s[i]))
    ensures |Tokens(s)| == 1
  {
    if IsAsciiDigit(s[0]) {
      WholeRun(s);
      assert s[|s|..] == [];
    }
  }

  lemma {:induction false} WholeRun(s: Name)
    requires forall i :: 0 <= i < |s| ==> IsAsciiDigit(s[i])
    ensures DigitRun(s) == |s|
  {
    if s != [] {
      WholeRun(s[1..]);
    }
  }

  lemma {:induction false} LessIsLessAt(a: Name, b: Name) returns (i: nat, j: nat)
    requires CmpTokens(Tokens(a), Tokens(b)) == Less
    ensures LessAt(a, b, i, j)
    decreases |a|
  {
    hide Tokens, CmpTokens, HeadLess, FirstLen, CleanCut;
    if HeadLess(a, b) {
      i, j := 0, 0;
      LessAtStart(a, b);
    } else {
      SameFirst(a, b);
      var m, n := FirstLen(a), FirstLen(b);
      FirstToken(a);
      FirstToken(b);
      var i', j' := LessIsLessAt(a[m..], b[n..]);
      i, j := m + i', n + j';
      CutFurther(a, m, i');
      CutFurther(b, n, j');
    }
  }

  lemma LessAtStart(a: Name, b: Name)
    requires HeadLess(a, b)
    ensures LessAt(a, b, 0, 0)
  {
    assert a[0..] == a && b[0..] == b && a[..0] == b[..0] == [];
  }

  lemma SameFirst(a: Name, b: Name)
    requires CmpTokens(Tokens(a), Tokens(b)) == Less && !HeadLess(a, b)
    ensures a != [] && b != [] && Tokens(a) != [] && Tokens(b) != []
    ensures Tokens(a)[0] == Tokens(b)[0] && CmpTokens(Tokens(a)[1..], Tokens(b)[1..]) == Less
  {
    TokensNormal(a);
    TokensNormal(b);
    hide RunValue, DigitRun;
  }

  lemma CutFurther(s: Name, m: nat, i: nat)
    requires s != [] && m == FirstLen(s) && i <= |s| - m && CleanCut(s[m..][..i], s[m..][i..])
    ensures CleanCut(s[..m + i], s[m + i..]) && Tokens(s[..m + i]) == Tokens(s[..m]) + Tokens(s[m..][..i])
    ensures s[m..][i..] == s[m + i..]
  {
    FirstToken(s);
    assert s[..m + i] == s[..m] + s[m..][..i];
    TokensAppend(s[..m], s[m..][..i]);
  }

  /** Which of two names is less, said without the comparison: after parts that read alike
      one has ended, or holds the smaller number, or the smaller byte. */
  lemma NaturalLessExactly(a: Name, b: Name)
    ensures CmpTokens(Tokens(a), Tokens(b)) == Less <==> IsLess(a, b)
    ensures CmpTokens(Tokens(a), Tokens(b)) == Greater <==> IsLess(b, a)
    ensures CmpTokens(Tokens(a), Tokens(b)) == Equal <==> Tokens(a) == Tokens(b)
  {
    hide LessAt, Tokens, CmpTokens;
    if i, j :| LessAt(a, b, i, j) {
      LessAtIsLess(a, b, i, j);
    }
    if i, j :| LessAt(b, a, i, j) {
      LessAtIsLess(b, a, i, j);
    }
    TokensNormal(a);
    TokensNormal(b);
    CmpTokensFlip(Tokens(a), Tokens(b));
    CmpTokensEqualExactly(Tokens(a), Tokens(b));
    if CmpTokens(Tokens(a), Tokens(b)) == Less {
      var i, j := LessIsLessAt(a, b);
    }
    if CmpTokens(Tokens(b), Tokens(a)) == Less {
      var i, j := LessIsLessAt(b, a);
    }
  }

  /** So numbers at one place order names by value: Ethernet4 before Ethernet12. */
  lemma NumbersOrder(p: Name, x: Name, y: Name, s: Name, t: Name)
    requires p == [] || !IsAsciiDigit(p[|p| - 1])
    requires x != [] && y != [] && (forall i :: 0 <= i < |x| ==> IsAsciiDigit(x[i])) && forall i :: 0 <= i < |y| ==> IsAsciiDigit(y[i])
    requires (s == [] || !IsAsciiDigit(s[0])) && (t == [] || !IsAsciiDigit(t[0]))
    requires Cap(Decimal(x)) < Cap(Decimal(y))
    ensures Natural(p + x + s, p + y + t) == Less
  {
    var a, b := p + x + s, p + y + t;
    NumberAfter(p, x, s);
    NumberAfter(p, y, t);
    assert LessAt(a, b, |p|, |p|);
    NaturalLessExactly(a, b);
  }

  lemma NumberAfter(p: Name, x: Name, s: Name)
    requires x != [] && (forall i :: 0 <= i < |x| ==> IsAsciiDigit(x[i])) && (s == [] || !IsAsciiDigit(s[0]))
    ensures (p + x + s)[..|p|] == p && (p + x + s)[|p|..] == x + s && IsAsciiDigit((x + s)[0])
    ensures RunValue(x + s) == Cap(Decimal(x))
  {
    hide Decimal;
    RunOfAppend(x, s);
    WholeRun(x);
    assert (x + s)[..|x|] == x;
    assert p + x + s == p + (x + s);
  }

  /** Bytes at one place order names by byte. */
  lemma BytesOrder(p: Name, b: Byte, c: Byte, s: Name, t: Name)
    requires b < c && !(IsAsciiDigit(b) && IsAsciiDigit(c))
    requires p == [] || !IsAsciiDigit(p[|p| - 1]) || !(IsAsciiDigit(b) || IsAsciiDigit(c))
    ensures Natural(p + [b] + s, p + [c] + t) == Less
  {
    var x, y := p + [b] + s, p + [c] + t;
    assert x[..|p|] == p && y[..|p|] == p && x[|p|..] == [b] + s && y[|p|..] == [c] + t;
    assert LessAt(x, y, |p|, |p|);
    NaturalLessExactly(x, y);
  }

  /** A name comes before every longer one that goes on with another token. */
  lemma PrefixOrders(p: Name, s: Name)
    requires s != [] && CleanCut(p, s)
    ensures Natural(p, p + s) == Less
  {
    assert p[..|p|] == p && p[|p|..] == [] && (p + s)[..|p|] == p && (p + s)[|p|..] == s;
    assert LessAt(p, p + s, |p|, |p|);
    NaturalLessExactly(p, p + s);
  }

  // ------------------------------------------------------------- the algorithm

  /** `saturating_mul(10).saturating_add(d)` over the digits. */
  function SaturatingFold(acc: int, digits: Name): int
    decreases |digits|
  {
    if digits == [] then acc else SaturatingFold(Cap(Cap(acc * 10) + DigitOf(digits[0])), digits[1..])
  }

  function TakeNumber(s: Name): (int, Name) {
    var end := DigitRun(s);
    (SaturatingFold(0, s[..end]), s[end..])
  }

  /** Saturating at every step equals capping the exact value once. */
  lemma {:induction false} FoldIsCapped(done: Name, rest: Name)
    requires forall i :: 0 <= i < |done| ==> IsAsciiDigit(done[i])
    requires forall i :: 0 <= i < |rest| ==> IsAsciiDigit(rest[i])
    ensures SaturatingFold(Cap(Decimal(done)), rest) == Cap(Decimal(done + rest))
    decreases |rest|
  {
    if rest == [] {
      assert done + rest == done;
    } else {
      var done' := done + [rest[0]];
      assert done'[..|done'| - 1] == done;
      DecimalNonNegative(done);
      assert Cap(Cap(Cap(Decimal(done)) * 10) + DigitOf(rest[0])) == Cap(Decimal(done'));
      FoldIsCapped(done', rest[1..]);
      assert done' + rest[1..] == done + rest;
    }
  }

  lemma TakeNumberValue(s: Name)
    ensures TakeNumber(s) == (RunValue(s), s[DigitRun(s)..])
  {
    FoldIsCapped([], s[..DigitRun(s)]);
    assert [] + s[..DigitRun(s)] == s[..DigitRun(s)];
  }

  /** natural_cmp: the two slices advance together, by a digit run or by a byte. */
  method NaturalCmp(a: Name, b: Name) returns (r: Order)
    ensures r == Natural(a, b)
    // after parts that read alike, the lesser has ended or holds the smaller number or byte
    ensures (r == Less <==> IsLess(a, b)) && (r == Greater <==> IsLess(b, a)) && (r == Equal <==> Tokens(a) == Tokens(b))
  {
    NaturalLessExactly(a, b);
    var x, y := a, b;
    while true
      invariant CmpTokens(Tokens(x), Tokens(y)) == CmpTokens(Tokens(a), Tokens(b))
      decreases |x|
    {
      if x == [] && y == [] {
        return Equal;
      } else if x == [] {
        return Less;
      } else if y == [] {
        return Greater;
      } else if IsAsciiDigit(x[0]) && IsAsciiDigit(y[0]) {
        TakeNumberValue(x);
        TakeNumberValue(y);
        var (na, restA) := TakeNumber(x);
        var (nb, restB) := TakeNumber(y);
        if Cmp(na, nb) != Equal {
          return Cmp(na, nb);
        }
        x, y := restA, restB;
      } else {
        if Cmp(x[0], y[0]) != Equal {
          return Cmp(x[0], y[0]);
        }
        x, y := x[1..], y[1..];
      }
    }
  }

  // ------------------------------------------------------------ a total preorder

  function Natural(a: Name, b: Name): Order {
    CmpTokens(Tokens(a), Tokens(b))
  }

  predicate AtMost(a: Name, b: Name) {
    Natural(a, b) != Greater
  }

  lemma {:induction false} CmpTokensEqualExactly(x: seq<Token>, y: seq<Token>)
    requires Normal(x) && Normal(y)
    ensures CmpTokens(x, y) == Equal <==> x == y
  {
    if x != [] && y != [] {
      CmpTokensEqualExactly(x[1..], y[1..]);
      assert x == [x[0]] + x[1..] && y == [y[0]] + y[1..];
    }
  }

  /** Byte tokens are never digits. */
  ghost predicate Normal(x: seq<Token>) {
    forall i :: 0 <= i < |x| && x[i].Ch? ==> !IsAsciiDigit(x[i].byte)
  }

  lemma {:induction false} TokensNormal(s: Name)
    ensures Normal(Tokens(s))
    decreases |s|
  {
    if s != [] {
      TokensNormal(if IsAsciiDigit(s[0]) then s[DigitRun(s)..] else s[1..]);
    }
  }

  lemma {:induction false} CmpTokensFlip(x: seq<Token>, y: seq<Token>)
    ensures CmpTokens(y, x) == CmpTokens(x, y).Flip()
  {
    if x != [] && y != [] {
      CmpTokensFlip(x[1..], y[1..]);
    }
  }

  lemma {:induction false} CmpTokensTransitive(x: seq<Token>, y: seq<Token>, z: seq<Token>)
    requires Normal(x) && Normal(y) && Normal(z)
    requires CmpTokens(x, y) != Greater && CmpTokens(y, z) != Greater
    ensures CmpTokens(x, z) != Greater
  {
    if x != [] && y != [] && z != [] && CmpToken(x[0], y[0]) == Equal && CmpToken(y[0], z[0]) == Equal {
      CmpTokensTransitive(x[1..], y[1..], z[1..]);
    }
  }

  /** natural_cmp is a total preorder, and two names tie exactly when their tokens are
      the same: leading zeros and digits beyond 64 bits are what it cannot see. */
  lemma NaturalIsTotalPreorder(a: Name, b: Name, c: Name)
    ensures Natural(a, a) == Equal
    ensures Natural(b, a) == Natural(a, b).Flip()
    ensures AtMost(a, b) && AtMost(b, c) ==> AtMost(a, c)
    ensures Natural(a, b) == Equal <==> Tokens(a) == Tokens(b)
  {
    TokensNormal(a);
    TokensNormal(b);
    TokensNormal(c);
    CmpTokensEqualExactly(Tokens(a), Tokens(a));
    CmpTokensEqualExactly(Tokens(a), Tokens(b));
    CmpTokensFlip(Tokens(a), Tokens(b));
    if AtMost(a, b) && AtMost(b, c) {
      CmpTokensTransitive(Tokens(a), Tokens(b), Tokens(c));
    }
  }

  /** Distinct names can tie: "1" and "01". */
  lemma DistinctNamesCanTie()
    ensures Natural([49], [48, 49]) == Equal
  {
    assert DigitRun([48, 49][1..]) == 1;
    assert DigitRun([49]) == 1 && DigitRun([48, 49]) == 2;
    assert [49][..1] == [49] && [48, 49][..2] == [48, 49];
    assert [48, 49][..1] == [48];
    assert Decimal([48]) == 0 && Decimal([49]) == 1 && Decimal([48, 49]) == 1;
    assert [49][1..] == [] && [48, 49][2..] == [];
  }

  // ----------------------------------------------------------- sort, then dedup

  ghost predicate Sorted(t: seq<Name>) {
    forall i, j :: 0 <= i < j < |t| ==> AtMost(t[i], t[j])
  }

  /** The elements tying with `key`, in order. */
  function Class(s: seq<Name>, key: seq<Token>): seq<Name> {
    if s == [] then []
    else if Tokens(s[0]) == key then [s[0]] + Class(s[1..], key)
    else Class(s[1..], key)
  }

  /** What `sort_by` guarantees: sorted, and stable, that is, elements that tie keep
      their order. */
  ghost predicate StableSortOf(t: seq<Name>, s: seq<Name>) {
    Sorted(t) && forall key :: Class(t, key) == Class(s, key)
  }

  /** `dedup`: drop an element equal to its predecessor. */
  function Dedup(t: seq<Name>): seq<Name> {
    if |t| < 2 then t
    else if t[0] == t[1] then Dedup(t[1..])
    else [t[0]] + Dedup(t[1..])
  }

  ghost predicate Distinct(t: seq<Name>) {
    forall i, j :: 0 <= i < j < |t| ==> t[i] != t[j]
  }

  /** `p` occurs in `s`, in order, not necessarily adjacent. */
  predicate Subsequence(p: seq<Name>, s: seq<Name>) {
    if p == [] then true
    else if s == [] then false
    else if p[0] == s[0] then Subsequence(p[1..], s[1..])
    else Subsequence(p, s[1..])
  }

  lemma {:induction false} SubsequenceOfClass(p: seq<Name>, s: seq<Name>, key: seq<Token>)
    requires forall i :: 0 <= i < |p| ==> Tokens(p[i]) == key
    ensures Subsequence(p, s) <==> Subsequence(p, Class(s, key))
    decreases |s|
  {
    if p != [] && s != [] {
      if p[0] == s[0] {
        SubsequenceOfClass(p[1..], s[1..], key);
      } else {
        SubsequenceOfClass(p, s[1..], key);
      }
    }
  }

  lemma {:induction false} MemberOfClass(x: Name, s: seq<Name>)
    ensures x in s <==> x in Class(s, Tokens(x))
  {
    if s != [] {
      MemberOfClass(x, s[1..]);
      assert x in s <==> x == s[0] || x in s[1..];
    }
  }

  lemma {:induction false} DedupFacts(t: seq<Name>)
    ensures forall x :: x in Dedup(t) <==> x in t
    ensures |t| > 0 ==> |Dedup(t)| > 0 && Dedup(t)[0] == t[0]
    ensures forall i :: 0 <= i < |Dedup(t)| - 1 ==> Dedup(t)[i] != Dedup(t)[i + 1]
  {
    if |t| >= 2 {
      DedupFacts(t[1..]);
      assert forall x :: x in t <==> x == t[0] || x in t[1..];
    }
  }

  /** Removing repeats neither adds nor loses a pattern without adjacent repeats. */
  lemma {:induction false} DedupKeepsPatterns(p: seq<Name>, t: seq<Name>)
    requires forall i :: 0 <= i < |p| - 1 ==> p[i] != p[i + 1]
    ensures Subsequence(p, Dedup(t)) <==> Subsequence(p, t)
    decreases |t|
  {
    if |t| >= 2 && p != [] {
      DedupFacts(t[1..]);
      DedupKeepsPatterns(p, t[1..]);
      if t[0] == t[1] {
        if p[0] == t[0] && |p| > 1 {
          assert p[1] != t[1];
        }
      } else {
        if p[0] == t[0] {
          DedupKeepsPatterns(p[1..], t[1..]);
        }
        assert ([t[0]] + Dedup(t[1..]))[1..] == Dedup(t[1..]);
      }
    }
  }

  lemma {:induction false} SubsequenceAt(p: seq<Name>, s: seq<Name>, i: nat)
    requires p != [] && i < |s| && p[0] == s[i] && Subsequence(p[1..], s[i + 1..])
    ensures Subsequence(p, s)
    decreases i
  {
    if i > 0 {
      assert s[1..][i - 1 + 1..] == s[i + 1..];
      if p[0] == s[0] {
        LongerSubsequence(p[1..], s[1..], i);
      } else {
        SubsequenceAt(p, s[1..], i - 1);
      }
    }
  }

  lemma {:induction false} LongerSubsequence(p: seq<Name>, s: seq<Name>, i: nat)
    requires i <= |s| && Subsequence(p, s[i..])
    ensures Subsequence(p, s)
    decreases |s|, i
  {
    if i > 0 && p != [] {
      LongerSubsequence(p, s[1..], i - 1);
      assert s[1..][i - 1..] == s[i..];
      if p[0] == s[0] {
        DropFirst(p, s[1..]);
      }
    } else {
      assert i == 0 ==> s[i..] == s;
    }
  }

  lemma {:induction false} DropFirst(p: seq<Name>, s: seq<Name>)
    requires p != [] && Subsequence(p, s)
    ensures Subsequence(p[1..], s)
    decreases |s|
  {
    if p[0] == s[0] {
      LongerSubsequence(p[1..], s, 1);
    } else {
      DropFirst(p, s[1..]);
      if |p| > 1 && p[1] == s[0] {
        DropFirst(p[1..], s[1..]);
        assert p[1..][1..] == p[1..][1..];
      }
    }
  }

  /** An occurrence of x, y, x pins x and y to one tie class of a sorted list. */
  lemma {:induction false} SandwichTies(t: seq<Name>, x: Name, y: Name)
    requires Sorted(t) && Subsequence([x, y, x], t)
    ensures Tokens(x) == Tokens(y)
  {
    if t[0] == x {
      assert [x, y, x][1..] == [y, x];
      var j := OccursAfter([y, x], t[1..]);
      assert [y, x][1..] == [x];
      var k := OccursAfter([x], t[1..][j + 1..]);
      assert AtMost(t[0], t[1 + j]) && AtMost(t[1 + j], t[1 + j + 1 + k]);
      NaturalIsTotalPreorder(x, y, x);
    } else {
      SandwichTies(t[1..], x, y);
    }
  }

  lemma {:induction false} OccursAfter(p: seq<Name>, s: seq<Name>) returns (i: nat)
    requires p != [] && Subsequence(p, s)
    ensures i < |s| && s[i] == p[0] && Subsequence(p[1..], s[i + 1..])
    decreases |s|
  {
    if s[0] == p[0] {
      i := 0;
    } else {
      i := OccursAfter(p, s[1..]);
      i := i + 1;
      assert s[1..][i..] == s[i + 1..];
    }
  }

  /** In a list without equal neighbours, a repeat encloses something else. */
  lemma RepeatEncloses(d: seq<Name>, i: nat, j: nat)
    requires i < j < |d| && d[i] == d[j]
    requires forall k :: 0 <= k < |d| - 1 ==> d[k] != d[k + 1]
    ensures d[i + 1] != d[i] && Subsequence([d[i], d[i + 1], d[i]], d)
  {
    var x, y := d[i], d[i + 1];
    assert [x, y, x][1..] == [y, x] && [y, x][1..] == [x];
    SubsequenceAt([x], d[i + 2..], j - i - 2);
    assert d[i + 1..][0] == y && d[i + 1..][1..] == d[i + 2..];
    SubsequenceAt([y, x], d[i + 1..], 0);
    SubsequenceAt([x, y, x], d, i);
  }

  /** A pattern x, y, x among the distinct elements of a list is impossible. */
  lemma PatternRepeats(d: seq<Name>, x: Name, y: Name)
    requires x != y && Subsequence([x, y, x], d)
    ensures !Distinct(d)
  {
    assert [x, y, x][1..] == [y, x] && [y, x][1..] == [x];
    var i := OccursAfter([x, y, x], d);
    var j := OccursAfter([y, x], d[i + 1..]);
    var k := OccursAfter([x], d[i + 1..][j + 1..]);
    assert d[i] == d[i + 1 + j + 1 + k];
  }

  lemma SortKeepsTiePatterns(s: seq<Name>, t: seq<Name>, x: Name, y: Name)
    requires StableSortOf(t, s) && Tokens(x) == Tokens(y)
    ensures Subsequence([x, y, x], t) <==> Subsequence([x, y, x], s)
    ensures x in t <==> x in s
  {
    SubsequenceOfClass([x, y, x], s, Tokens(x));
    SubsequenceOfClass([x, y, x], t, Tokens(x));
    MemberOfClass(x, s);
    MemberOfClass(x, t);
    assert Class(t, Tokens(x)) == Class(s, Tokens(x));
  }

  lemma RepeatComesFromTie(s: seq<Name>, t: seq<Name>) returns (x: Name, y: Name)
    requires StableSortOf(t, s) && !Distinct(Dedup(t))
    ensures x != y && Tokens(x) == Tokens(y) && Subsequence([x, y, x], s)
  {
    hide Subsequence, Class, Tokens, Dedup;
    DedupFacts(t);
    var i, j :| 0 <= i < j < |Dedup(t)| && Dedup(t)[i] == Dedup(t)[j];
    RepeatEncloses(Dedup(t), i, j);
    x, y := Dedup(t)[i], Dedup(t)[i + 1];
    DedupKeepsPatterns([x, y, x], t);
    SandwichTies(t, x, y);
    SortKeepsTiePatterns(s, t, x, y);
  }

  /** Sort-then-dedup leaves each name exactly once if and only if the input never has
      a name, then another name tying with it, then the first name again. */
  lemma SortDedupIsUniqueExactly(s: seq<Name>, t: seq<Name>)
    requires StableSortOf(t, s)
    ensures forall x :: x in Dedup(t) <==> x in s
    ensures Distinct(Dedup(t))
       <==> forall x, y :: x != y && Tokens(x) == Tokens(y) ==> !Subsequence([x, y, x], s)
  {
    hide Subsequence, Class, Tokens, Dedup;
    DedupFacts(t);
    forall x ensures x in t <==> x in s {
      SortKeepsTiePatterns(s, t, x, x);
    }
    if !Distinct(Dedup(t)) {
      var x, y := RepeatComesFromTie(s, t);
    }
    forall x, y | x != y && Tokens(x) == Tokens(y) && Subsequence([x, y, x], s)
      ensures !Distinct(Dedup(t))
    {
      SortKeepsTiePatterns(s, t, x, y);
      DedupKeepsPatterns([x, y, x], t);
      PatternRepeats(Dedup(t), x, y);
    }
  }

  /** "1", "01", "1" already stands in a stable order, and keeps "1" twice. */
  lemma SortDedupCanRepeat()
    ensures var s: seq<Name> := [[49], [48, 49], [49]];
      StableSortOf(s, s) && !Distinct(Dedup(s))
  {
    var s: seq<Name> := [[49], [48, 49], [49]];
    DistinctNamesCanTie();
    NaturalIsTotalPreorder([49], [48, 49], [49]);
    assert Natural([48, 49], [49]) == Equal;
    assert Subsequence([[49], [48, 49], [49]], s);
    SortDedupIsUniqueExactly(s, s);
  }

  /** So a list in which no two distinct names tie comes out without repeats. */
  lemma SortDedupUniqueWithoutTies(s: seq<Name>, t: seq<Name>)
    requires StableSortOf(t, s)
    requires forall x, y :: x in s && y in s && Natural(x, y) == Equal ==> x == y
    ensures Distinct(Dedup(t)) && forall x :: x in Dedup(t) <==> x in s
  {
    forall x, y | x != y && Tokens(x) == Tokens(y) ensures !Subsequence([x, y, x], s) {
      if Subsequence([x, y, x], s) {
        assert [x, y, x][1..] == [y, x];
        var i := OccursAfter([x, y, x], s);
        var j := OccursAfter([y, x], s[i + 1..]);
        NaturalIsTotalPreorder(x, y, x);
      }
    }
    SortDedupIsUniqueExactly(s, t);
  }
}
