/** Device identifiers (`src/identity/deviceid.rs`): MSB-first Crockford base32 over an
    accumulator that wraps at 32 bits, against the grouping of section 6 of RFC 4648. */
module DeviceId {
  import opened Text

  type Byte = b: int | 0 <= b < 256
  type Bit = bool

  function Int(b: Bit): int {
    if b then 1 else 0
  }

  const CROCKFORD: string := "0123456789ABCDEFGHJKMNPQRSTVWXYZ"
  const WORD: int := 0x1_0000_0000

  // ------------------------------------------------------------- the bit string

  function BitsOf(n: nat, width: nat): (r: seq<Bit>)
    ensures |r| == width
  {
    if width == 0 then [] else BitsOf(n / 2, width - 1) + [n % 2 == 1]
  }

  function ByteBits(b: Byte): (r: seq<Bit>)
    ensures |r| == 8
  {
    BitsOf(b, 8)
  }

  /** All bits, most significant first. */
  function Bits(data: seq<Byte>): (r: seq<Bit>)
    ensures |r| == 8 * |data|
  {
    if data == [] then [] else Bits(data[..|data| - 1]) + ByteBits(data[|data| - 1])
  }

  /** A bit string read as a binary number. */
  function Number(bits: seq<Bit>): nat {
    if bits == [] then 0 else 2 * Number(bits[..|bits| - 1]) + Int(bits[|bits| - 1])
  }

  const NO_BITS: seq<Bit> := [false, false, false, false, false]

  function PadLen(n: nat): nat {
    (5 - n % 5) % 5
  }

  /** Zero-padded on the right to whole groups of five. */
  function Padded(bits: seq<Bit>): (r: seq<Bit>)
    ensures |bits| <= |r| == 5 * ((|bits| + 4) / 5) && r[..|bits|] == bits
  {
    bits + NO_BITS[..PadLen(|bits|)]
  }

  lemma {:induction false} NumberBound(bits: seq<Bit>)
    ensures 0 <= Number(bits) < Pow2(|bits|)
  {
    if bits != [] {
      NumberBound(bits[..|bits| - 1]);
    }
  }

  function Pow2(n: nat): (p: nat)
    ensures p > 0
  {
    if n == 0 then 1 else 2 * Pow2(n - 1)
  }

  lemma Pow2Table()
    ensures Pow2(0) == 1 && Pow2(1) == 2 && Pow2(2) == 4 && Pow2(3) == 8 && Pow2(4) == 16
    ensures Pow2(5) == 32 && Pow2(6) == 64 && Pow2(7) == 128 && Pow2(8) == 256
  {
  }

  /** The i-th group of five bits of the padded string. */
  function Group(data: seq<Byte>, i: nat): (g: nat)
    requires 5 * i < 8 * |data|
    ensures g < 32
  {
    var p := Padded(Bits(data));
    assert 5 * i + 5 <= 5 * ((8 * |data| + 4) / 5);
    NumberBound(p[5 * i..5 * i + 5]);
    Pow2Table();
    Number(p[5 * i..5 * i + 5])
  }

  function GroupCount(len: nat): nat {
    (8 * len + 4) / 5
  }

  /** The whole encoding: one character a group. */
  function Encode(data: seq<Byte>): (r: string)
    ensures |r| == GroupCount(|data|)
  {
    seq(GroupCount(|data|), i requires 0 <= i < GroupCount(|data|) => CROCKFORD[Group(data, i)])
  }

  // ---------------------------------------------------------- the accumulator

  lemma {:induction false} NumberAppend(a: seq<Bit>, b: seq<Bit>)
    ensures Number(a + b) == Number(a) * Pow2(|b|) + Number(b)
    decreases |b|
  {
    if b == [] {
      assert a + b == a;
    } else {
      var front := b[..|b| - 1];
      assert (a + b)[..|a + b| - 1] == a + front && (a + b)[|a + b| - 1] == b[|b| - 1];
      calc {
        Number(a + b);
        2 * Number(a + front) + Int(b[|b| - 1]);
        { NumberAppend(a, front); }
        2 * (Number(a) * Pow2(|front|) + Number(front)) + Int(b[|b| - 1]);
        { assert Number(a) * (2 * Pow2(|front|)) == 2 * (Number(a) * Pow2(|front|)); }
        Number(a) * Pow2(|b|) + Number(b);
      }
    }
  }

  lemma {:induction false} NumberOfBits(n: nat, width: nat)
    requires n < Pow2(width)
    ensures Number(BitsOf(n, width)) == n
  {
    if width > 0 {
      NumberOfBits(n / 2, width - 1);
      assert BitsOf(n, width)[..width - 1] == BitsOf(n / 2, width - 1);
    }
  }

  lemma ByteNumber(b: Byte)
    ensures Number(ByteBits(b)) == b
  {
    Pow2Table();
    NumberOfBits(b, 8);
  }

  /** Shifting eight bits in, modulo 2^32. */
  lemma ShiftIn(bits: seq<Bit>, b: Byte, acc: int)
    requires acc == Number(bits) % WORD
    ensures (acc * 256 % WORD) + b == Number(bits + ByteBits(b)) % WORD
  {
    NumberAppend(bits, ByteBits(b));
    ByteNumber(b);
    Pow2Table();
    ShiftMod(Number(bits), b);
  }

  lemma ShiftMod(x: int, b: Byte)
    ensures (x % WORD * 256 % WORD) + b == (x * 256 + b) % WORD
  {
    var q, r := x / WORD, x % WORD;
    var q', r' := r / 0x100_0000, r % 0x100_0000;
    assert r * 256 == WORD * q' + 256 * r';
    assert x * 256 + b == WORD * (256 * q + q') + (256 * r' + b);
  }

  lemma DivUnique(x: int, m: int, q: int, r: int)
    requires 0 <= r < m && x == q * m + r
    ensures x / m == q && x % m == r
  {
    var d := x / m - q;
    assert x / m * m == q * m + d * m;
    assert d * m == r - x % m;
    assert d >= 1 ==> d * m >= m;
    assert d <= -1 ==> d * m <= -m;
  }

  /** Extracting five bits from a window that survives the wrap-around at w. */
  lemma ExtractMod(a: int, g: int, v: int, m: int, k: int, w: int)
    requires m > 0 && k > 0 && 0 <= g < 32 && 0 <= v < m && w == 32 * k * m && w > 0
    ensures ((a * 32 + g) * m + v) % w / m % 32 == g
  {
    var x := (a * 32 + g) * m + v;
    var h := a % k;
    var y := h * 32 + g;
    assert 0 <= y <= 32 * k - 1;
    ProductBound(y, 32 * k - 1, m);
    assert (32 * k - 1) * m == w - m;
    assert 0 <= y * m + v < w;
    assert a == a / k * k + h;
    assert a * 32 + g == a / k * (32 * k) + y;
    Distribute(a / k, 32 * k, y, m);
    DivUnique(x, w, a / k, y * m + v);
    DivUnique(y * m + v, m, y, v);
    DivUnique(y, 32, h, g);
  }

  lemma ProductBound(a: int, b: int, m: int)
    requires 0 <= a <= b && m > 0
    ensures 0 <= a * m <= b * m
  {
  }

  lemma Distribute(q: int, n: int, y: int, m: int)
    ensures (q * n + y) * m == q * (n * m) + y * m
  {
  }

  lemma WordFactor(rest: nat)
    requires rest <= 7
    ensures 32 * (0x800_0000 / Pow2(rest)) * Pow2(rest) == WORD
  {
    Pow2Table();
  }

  lemma WindowValue(a: seq<Bit>, g: seq<Bit>, v: seq<Bit>)
    requires |g| == 5
    ensures Number(a + g + v) == (Number(a) * 32 + Number(g)) * Pow2(|v|) + Number(v)
    ensures Number(g) < 32 && Number(v) < Pow2(|v|)
  {
    hide Number;
    NumberAppend(a, g);
    NumberAppend(a + g, v);
    NumberBound(v);
    NumberBound(g);
    Pow2Table();
  }

  /** The accumulator's window of five bits is the group `rest` bits from the end. */
  lemma Window(bits: seq<Bit>, rest: nat)
    requires rest <= 7 && rest + 5 <= |bits|
    ensures Number(bits) % WORD / Pow2(rest) % 32 == Number(bits[|bits| - rest - 5..|bits| - rest])
  {
    hide Number, Pow2;
    var n := |bits|;
    var a, g, v := bits[..n - rest - 5], bits[n - rest - 5..n - rest], bits[n - rest..];
    assert bits == a + g + v;
    WindowValue(a, g, v);
    WordFactor(rest);
    ExtractMod(Number(a), Number(g), Number(v), Pow2(rest), 0x800_0000 / Pow2(rest), WORD);
  }

  /** The trailing partial group, shifted left. */
  lemma LastWindow(bits: seq<Bit>, rest: nat)
    requires 1 <= rest <= 4 && rest <= |bits|
    ensures Number(bits) % WORD * Pow2(5 - rest) % WORD % 32 == Number(bits[|bits| - rest..] + NO_BITS[..5 - rest])
  {
    var a, v := bits[..|bits| - rest], bits[|bits| - rest..];
    hide Number;
    assert bits == a + v;
    NumberAppend(a, v);
    NumberBound(v);
    NumberAppend(v, NO_BITS[..5 - rest]);
    ZeroNumber(5 - rest);
    Pow2Table();
    PartialMod(Number(a), Number(v), rest);
  }

  lemma ZeroNumber(n: nat)
    requires n <= 5
    ensures Number(NO_BITS[..n]) == 0
  {
    if n > 0 {
      ZeroNumber(n - 1);
      assert NO_BITS[..n][..n - 1] == NO_BITS[..n - 1];
    }
  }

  lemma PartialMod(a: int, v: int, rest: nat)
    requires 1 <= rest <= 4 && 0 <= v < Pow2(rest)
    ensures (a * Pow2(rest) + v) % WORD * Pow2(5 - rest) % WORD % 32 == v * Pow2(5 - rest)
  {
    Pow2Table();
    var x := (a * Pow2(rest) + v) % WORD;
    var q := (a * Pow2(rest) + v) / WORD;
    if rest == 1 { var h := a - q * 0x8000_0000; assert x == h * 2 + v; WordMod32(h, v * 16); assert x * 16 == h * 32 + v * 16; }
    else if rest == 2 { var h := a - q * 0x4000_0000; assert x == h * 4 + v; WordMod32(h, v * 8); assert x * 8 == h * 32 + v * 8; }
    else if rest == 3 { var h := a - q * 0x2000_0000; assert x == h * 8 + v; WordMod32(h, v * 4); assert x * 4 == h * 32 + v * 4; }
    else { var h := a - q * 0x1000_0000; assert x == h * 16 + v; WordMod32(h, v * 2); assert x * 2 == h * 32 + v * 2; }
  }

  lemma WordMod32(h: int, w: int)
    requires 0 <= w < 32
    ensures (h * 32 + w) % WORD % 32 == w
  {
    var x := h * 32 + w;
    assert x % WORD == 32 * (h - 0x800_0000 * (x / WORD)) + w;
  }

  // ------------------------------------------------------------- the algorithm

  lemma BitsPrefix(data: seq<Byte>, k: nat)
    requires k <= |data|
    ensures Bits(data[..k]) == Bits(data)[..8 * k]
    decreases |data|
  {
    if k < |data| {
      var front := data[..|data| - 1];
      BitsPrefix(front, k);
      assert front[..k] == data[..k];
      assert Bits(data)[..8 * k] == Bits(front)[..8 * k];
    } else {
      assert data[..k] == data;
    }
  }

  /** Group i is already complete in the bits of the first k bytes. */
  lemma GroupInPrefix(data: seq<Byte>, k: nat, i: nat)
    requires k <= |data| && 5 * i + 5 <= 8 * k
    ensures Group(data, i) == Number(Bits(data[..k])[5 * i..5 * i + 5])
  {
    BitsPrefix(data, k);
    var p := Padded(Bits(data));
    assert p[5 * i..5 * i + 5] == Bits(data)[..8 * k][5 * i..5 * i + 5];
  }

  lemma LastGroup(data: seq<Byte>, i: nat, rest: nat)
    requires 5 * i + rest == 8 * |data| && 1 <= rest <= 4
    ensures i + 1 == GroupCount(|data|)
    ensures Group(data, i) == Number(Bits(data)[|Bits(data)| - rest..] + NO_BITS[..5 - rest])
  {
    hide Bits, Number;
    PaddedEnd(Bits(data), i, rest);
  }

  lemma PaddedEnd(bits: seq<Bit>, i: nat, rest: nat)
    requires 5 * i + rest == |bits| && 1 <= rest <= 4
    ensures |Padded(bits)| == 5 * i + 5
    ensures Padded(bits)[5 * i..5 * i + 5] == bits[|bits| - rest..] + NO_BITS[..5 - rest]
  {
    assert PadLen(|bits|) == 5 - rest;
  }

  /** The next character the inner loop pushes is the next group's. */
  lemma EmitsGroup(data: seq<Byte>, k: nat, i: nat, rest: nat, acc: int)
    requires k <= |data| && rest <= 7 && 5 * i + 5 + rest == 8 * k
    requires acc == Number(Bits(data[..k])) % WORD
    ensures i < |Encode(data)| && Encode(data)[i] == CROCKFORD[acc / Pow2(rest) % 32]
  {
    hide Number, Pow2, Group;
    Window(Bits(data[..k]), rest);
    GroupInPrefix(data, k, i);
    assert |Bits(data[..k])| == 8 * k;
  }

  lemma EmitsLast(data: seq<Byte>, i: nat, rest: nat, acc: int)
    requires 1 <= rest <= 4 && 5 * i + rest == 8 * |data|
    requires acc == Number(Bits(data)) % WORD
    ensures i + 1 == |Encode(data)| && Encode(data)[i] == CROCKFORD[acc * Pow2(5 - rest) % WORD % 32]
  {
    hide Number, Pow2, Group;
    LastWindow(Bits(data), rest);
    LastGroup(data, i, rest);
  }

  /** crockford_prefix: at most n characters, the first ones of the whole encoding. */
  method CrockfordPrefix(data: seq<Byte>, n: nat) returns (out: string)
    requires n >= 1
    ensures |out| == if n <= GroupCount(|data|) then n else GroupCount(|data|)
    ensures out == Encode(data)[..|out|]
  {
    hide Number, Bits, Encode, Pow2;
    out := "";
    var acc, bits := 0, 0;
    var k := 0;
    EmptyNumber();
    assert data[..0] == [];
    while k < |data|
      invariant 0 <= k <= |data| && 0 <= bits < 5
      invariant acc == Number(Bits(data[..k])) % WORD
      invariant 5 * |out| + bits == 8 * k
      invariant |out| < n && |out| <= GroupCount(|data|) && out == Encode(data)[..|out|]
    {
      ShiftIn(Bits(data[..k]), data[k], acc);
      BitsStep(data, k);
      acc := acc * 256 % WORD + data[k];
      bits := bits + 8;
      k := k + 1;
      while bits >= 5
        invariant 0 <= bits <= 12
        invariant 5 * |out| + bits == 8 * k
        invariant |out| < n && |out| <= GroupCount(|data|) && out == Encode(data)[..|out|]
        decreases bits
      {
        bits := bits - 5;
        EmitsGroup(data, k, |out|, bits, acc);
        out := out + [CROCKFORD[acc / Pow2(bits) % 32]];
        if |out| == n {
          return;
        }
      }
    }
    assert data[..k] == data;
    if bits > 0 && |out| < n {
      EmitsLast(data, |out|, bits, acc);
      out := out + [CROCKFORD[acc * Pow2(5 - bits) % WORD % 32]];
    }
  }

  lemma BitsStep(data: seq<Byte>, k: nat)
    requires k < |data|
    ensures Bits(data[..k + 1]) == Bits(data[..k]) + ByteBits(data[k])
  {
    assert data[..k + 1][..k] == data[..k];
  }

  lemma EmptyNumber()
    ensures Number(Bits([])) == 0
  {
  }

  // --------------------------------------------------------------- injectivity

  /** The alphabet is in increasing order. */
  lemma AlphabetIncreases(i: nat, j: nat)
    requires i < 32 && j < 32
    ensures i < j ==> CROCKFORD[i] < CROCKFORD[j]
  {
    AlphabetCode(i);
    AlphabetCode(j);
  }

  lemma AlphabetCode(i: nat)
    requires i < 32
    ensures CROCKFORD[i] as int
         == if i < 10 then 48 + i else if i < 18 then 55 + i else if i < 20 then 56 + i
            else if i < 22 then 57 + i else if i < 27 then 58 + i else 59 + i
  {
  }

  lemma AlphabetInjective(i: nat, j: nat)
    requires i < 32 && j < 32 && CROCKFORD[i] == CROCKFORD[j]
    ensures i == j
  {
    AlphabetIncreases(i, j);
    AlphabetIncreases(j, i);
  }

  lemma {:induction false} NumberInjective(a: seq<Bit>, b: seq<Bit>)
    requires |a| == |b| && Number(a) == Number(b)
    ensures a == b
  {
    if a != [] {
      var n := |a| - 1;
      var x, y := Number(a[..n]), Number(b[..n]);
      assert 2 * x + Int(a[n]) == 2 * y + Int(b[n]);
      assert x == y && Int(a[n]) == Int(b[n]);
      NumberInjective(a[..n], b[..n]);
      assert a == a[..n] + [a[n]] && b == b[..n] + [b[n]];
    }
  }

  /** The first n characters agree exactly when the first 5 n bits do. */
  lemma {:induction false} EncodePrefixAgreesExactly(a: seq<Byte>, b: seq<Byte>, n: nat)
    requires n <= GroupCount(|a|) && n <= GroupCount(|b|)
    ensures Encode(a)[..n] == Encode(b)[..n] <==> Padded(Bits(a))[..5 * n] == Padded(Bits(b))[..5 * n]
  {
    hide Padded, Number, Bits, Encode;
    if n > 0 {
      EncodePrefixAgreesExactly(a, b, n - 1);
      var p, q, m := Padded(Bits(a)), Padded(Bits(b)), 5 * (n - 1);
      EncodeStep(a, n - 1);
      EncodeStep(b, n - 1);
      SplitEqual(Encode(a)[..n], Encode(b)[..n], n - 1);
      SplitEqual(p[..5 * n], q[..5 * n], m);
      assert p[..5 * n][..m] == p[..m] && q[..5 * n][..m] == q[..m];
      assert p[..5 * n][m..] == p[m..m + 5] && q[..5 * n][m..] == q[m..m + 5];
      if CROCKFORD[Group(a, n - 1)] == CROCKFORD[Group(b, n - 1)] {
        AlphabetInjective(Group(a, n - 1), Group(b, n - 1));
        NumberInjective(p[m..m + 5], q[m..m + 5]);
      }
    }
  }

  lemma SplitEqual<T>(x: seq<T>, y: seq<T>, m: nat)
    requires |x| == |y| && m <= |x|
    ensures x == y <==> x[..m] == y[..m] && x[m..] == y[m..]
  {
    assert x == x[..m] + x[m..] && y == y[..m] + y[m..];
  }

  lemma EncodeStep(data: seq<Byte>, i: nat)
    requires i < GroupCount(|data|)
    ensures Encode(data)[..i + 1][..i] == Encode(data)[..i]
    ensures Encode(data)[..i + 1][i..] == [CROCKFORD[Group(data, i)]]
  {
  }

  lemma {:induction false} BitsInjective(a: seq<Byte>, b: seq<Byte>)
    requires |a| == |b| && Bits(a) == Bits(b)
    ensures a == b
  {
    if a != [] {
      var n := |a| - 1;
      var x, y := Bits(a[..n]), Bits(b[..n]);
      assert Bits(a)[..8 * n] == x && Bits(b)[..8 * n] == y;
      assert Bits(a)[8 * n..] == ByteBits(a[n]) && Bits(b)[8 * n..] == ByteBits(b[n]);
      ByteNumber(a[n]);
      ByteNumber(b[n]);
      BitsInjective(a[..n], b[..n]);
      assert a == a[..n] + [a[n]] && b == b[..n] + [b[n]];
    }
  }

  /** Full-length outputs of inputs of one length tell the inputs apart. */
  lemma EncodeInjective(a: seq<Byte>, b: seq<Byte>)
    requires |a| == |b| && Encode(a) == Encode(b)
    ensures a == b
  {
    hide Padded, Encode, Bits;
    var n := GroupCount(|a|);
    EncodePrefixAgreesExactly(a, b, n);
    assert Padded(Bits(a)) == Padded(Bits(a))[..5 * n] == Padded(Bits(b))[..5 * n] == Padded(Bits(b));
    assert Bits(a) == Padded(Bits(a))[..8 * |a|] == Bits(b);
    BitsInjective(a, b);
  }

  // ------------------------------------------------------------- the identifier

  /** "QS-" and sixteen characters in groups of four, from a 32-byte digest. */
  method DeriveDeviceId(digest: seq<Byte>) returns (id: string)
    requires |digest| == 32
    ensures id == DeviceIdOf(digest)
  {
    var chars := CrockfordPrefix(digest, 16);
    id := "QS-" + Join([chars[0..4], chars[4..8], chars[8..12], chars[12..16]], '-');
  }

  function DeviceIdOf(digest: seq<Byte>): string
    requires |digest| == 32
  {
    var c := Encode(digest)[..16];
    "QS-" + Join([c[0..4], c[4..8], c[8..12], c[12..16]], '-')
  }

  lemma JoinFour(a: string, b: string, c: string, d: string)
    ensures Join([a, b, c, d], '-') == a + "-" + b + "-" + c + "-" + d
  {
    assert [a, b, c, d][1..] == [b, c, d] && [b, c, d][1..] == [c, d] && [c, d][1..] == [d];
    assert Join([c, d], '-') == c + "-" + d;
    assert Join([b, c, d], '-') == b + "-" + (c + "-" + d);
    assert Join([a, b, c, d], '-') == a + "-" + (b + "-" + (c + "-" + d));
  }

  /** Two digests give the same identifier exactly when their first ten bytes agree:
      the identifier carries 80 bits of the digest and no more. */
  lemma DeviceIdCarriesTenBytes(a: seq<Byte>, b: seq<Byte>)
    requires |a| == |b| == 32
    ensures DeviceIdOf(a) == DeviceIdOf(b) <==> a[..10] == b[..10]
  {
    hide Encode, Bits, Padded;
    IdDeterminesChars(a);
    IdDeterminesChars(b);
    EncodePrefixAgreesExactly(a, b, 16);
    BitsPrefix(a, 10);
    BitsPrefix(b, 10);
    assert Padded(Bits(a))[..80] == Padded(Bits(a))[..256][..80] == Bits(a)[..80];
    assert Padded(Bits(b))[..80] == Padded(Bits(b))[..256][..80] == Bits(b)[..80];
    if Bits(a[..10]) == Bits(b[..10]) {
      BitsInjective(a[..10], b[..10]);
    }
  }

  lemma IdDeterminesChars(digest: seq<Byte>)
    requires |digest| == 32
    ensures var id := DeviceIdOf(digest);
      |id| == 22 && Encode(digest)[..16] == id[3..7] + id[8..12] + id[13..17] + id[18..22]
  {
    hide Encode;
    var c := Encode(digest)[..16];
    JoinFour(c[0..4], c[4..8], c[8..12], c[12..16]);
    assert c == c[0..4] + c[4..8] + c[8..12] + c[12..16];
  }
}
