/** The string operations of the source that the parsers rely on: trimming,
    splitting on white space and on separators, lines, decimal numbers. */
module Text {
  import opened Common

  // ---------------------------------------------------------------- white space

  /** The Unicode White_Space property, which `trim` and `split_whitespace` use. */
  predicate IsSpace(c: char) {
    || '\t' <= c <= '\r' || c == ' ' || c == '\U{85}' || c == '\U{A0}' || c == '\U{1680}'
    || '\U{2000}' <= c <= '\U{200A}' || c == '\U{2028}' || c == '\U{2029}' || c == '\U{202F}'
    || c == '\U{205F}' || c == '\U{3000}'
  }

  /** A non-empty string without white space: what survives tokenisation whole. */
  predicate IsWord(s: string) {
    s != "" && forall i :: 0 <= i < |s| ==> !IsSpace(s[i])
  }

  function TrimStart(s: string): (r: string)
    ensures |r| <= |s| && r == s[|s| - |r|..]
    ensures r != "" ==> !IsSpace(r[0])
    ensures s != "" && !IsSpace(s[0]) ==> r == s
  {
    if s == "" then "" else if IsSpace(s[0]) then TrimStart(s[1..]) else s
  }

  function TrimEnd(s: string): (r: string)
    ensures |r| <= |s| && r == s[..|r|]
    ensures r != "" ==> !IsSpace(r[|r| - 1])
    ensures s != "" && !IsSpace(s[|s| - 1]) ==> r == s
  {
    if s == "" then "" else if IsSpace(s[|s| - 1]) then TrimEnd(s[..|s| - 1]) else s
  }

  function Trim(s: string): string {
    TrimEnd(TrimStart(s))
  }

  predicate Trimmed(s: string) {
    s == "" || (!IsSpace(s[0]) && !IsSpace(s[|s| - 1]))
  }

  lemma TrimYieldsTrimmed(s: string)
    ensures Trimmed(Trim(s))
  {
    var t := TrimStart(s);
    assert TrimEnd(t) != "" ==> TrimEnd(t)[0] == t[0];
  }

  lemma TrimOfTrimmed(s: string)
    ensures Trim(s) == s <==> Trimmed(s)
  {
    TrimYieldsTrimmed(s);
  }

  lemma {:induction false} TrimEndSuffix(a: string, b: string)
    requires TrimEnd(b) != ""
    ensures TrimEnd(a + b) == a + TrimEnd(b)
    decreases |b|
  {
    if IsSpace(b[|b| - 1]) {
      TrimEndSuffix(a, b[..|b| - 1]);
      assert (a + b)[..|a + b| - 1] == a + b[..|b| - 1];
    } else {
      assert (a + b)[|a + b| - 1] == b[|b| - 1];
    }
  }

  lemma {:induction false} TrimEndAllSpace(a: string, b: string)
    requires TrimEnd(b) == ""
    ensures TrimEnd(a + b) == TrimEnd(a)
    decreases |b|
  {
    if b == "" {
      assert a + b == a;
    } else {
      assert IsSpace(b[|b| - 1]);
      TrimEndAllSpace(a, b[..|b| - 1]);
      assert (a + b)[..|a + b| - 1] == a + b[..|b| - 1];
      assert (a + b)[|a + b| - 1] == b[|b| - 1];
    }
  }

  /** Trimming either end first gives the same string. */
  lemma {:induction false} TrimCommutes(s: string)
    ensures TrimStart(TrimEnd(s)) == Trim(s)
    decreases |s|
  {
    if s == "" {
    } else if !IsSpace(s[0]) {
      TrimEndKeepsFirst(s);
    } else if TrimEnd(s[1..]) == "" {
      TrimEndAllSpace(s[..1], s[1..]);
      assert s == s[..1] + s[1..];
      assert TrimEnd(s[..1]) == "";
      TrimCommutes(s[1..]);
    } else {
      TrimEndSuffix(s[..1], s[1..]);
      assert s == s[..1] + s[1..];
      TrimCommutes(s[1..]);
      assert TrimEnd(s)[1..] == TrimEnd(s[1..]);
    }
  }

  lemma {:induction false} TrimEndKeepsFirst(s: string)
    requires s != "" && !IsSpace(s[0])
    ensures TrimEnd(s) != "" && TrimEnd(s)[0] == s[0]
    decreases |s|
  {
    if |s| > 1 && IsSpace(s[|s| - 1]) {
      TrimEndKeepsFirst(s[..|s| - 1]);
    }
  }

  /** An address parser like the standard library's accepts only words.  Its result tells
      IPv4 addresses, or is the address itself. */
  ghost predicate ParsesWords<A>(ip: string -> Option<A>) {
    forall s :: ip(s).Some? ==> IsWord(s)
  }

  // ------------------------------------------------------------------- tokens

  /** Length of the leading run without white space. */
  function WordLen(s: string): (n: nat)
    ensures n <= |s|
    ensures forall i :: 0 <= i < n ==> !IsSpace(s[i])
    ensures n < |s| ==> IsSpace(s[n])
  {
    if s == "" || IsSpace(s[0]) then 0 else 1 + WordLen(s[1..])
  }

  /** `split_whitespace`: the maximal runs without white space. */
  function Tokens(s: string): seq<string>
    decreases |s|
  {
    if s == "" then []
    else if IsSpace(s[0]) then Tokens(s[1..])
    else [s[..WordLen(s)]] + Tokens(s[WordLen(s)..])
  }

  lemma {:induction false} TokensAreWords(s: string)
    ensures forall i :: 0 <= i < |Tokens(s)| ==> IsWord(Tokens(s)[i])
    decreases |s|
  {
    if s == "" {
    } else if IsSpace(s[0]) {
      TokensAreWords(s[1..]);
    } else {
      TokensAreWords(s[WordLen(s)..]);
    }
  }

  lemma WordLenOfWord(w: string, rest: string)
    requires forall i :: 0 <= i < |w| ==> !IsSpace(w[i])
    requires rest == "" || IsSpace(rest[0])
    ensures WordLen(w + rest) == |w|
  {
    assert forall i :: 0 <= i < |w| ==> (w + rest)[i] == w[i];
    assert rest != "" ==> (w + rest)[|w|] == rest[0];
  }

  lemma {:induction false} TokensOfWord(w: string, rest: string)
    requires IsWord(w)
    requires rest == "" || IsSpace(rest[0])
    ensures Tokens(w + rest) == [w] + Tokens(rest)
  {
    WordLenOfWord(w, rest);
    assert (w + rest)[0] == w[0];
    assert (w + rest)[..|w|] == w && (w + rest)[|w|..] == rest;
  }

  lemma {:induction false} TokensTrimStart(s: string)
    ensures Tokens(TrimStart(s)) == Tokens(s)
    decreases |s|
  {
    if s != "" && IsSpace(s[0]) {
      TokensTrimStart(s[1..]);
    }
  }

  lemma {:induction false} TokensDropLastSpace(s: string)
    requires s != "" && IsSpace(s[|s| - 1])
    ensures Tokens(s[..|s| - 1]) == Tokens(s)
    decreases |s|
  {
    var t := s[..|s| - 1];
    if t == "" {
      assert s[1..] == "";
    } else if IsSpace(s[0]) {
      TokensDropLastSpace(s[1..]);
      assert t[1..] == s[1..][..|s[1..]| - 1];
    } else {
      var n := WordLen(s);
      var w, rest := s[..n], s[n..];
      var rest' := rest[..|rest| - 1];
      calc {
        Tokens(t);
        { assert t == w + rest'; TokensOfWord(w, rest'); }
        [w] + Tokens(rest');
        { TokensDropLastSpace(rest); }
        [w] + Tokens(rest);
        { assert s == w + rest; TokensOfWord(w, rest); }
        Tokens(s);
      }
    }
  }

  lemma {:induction false} TokensTrimEnd(s: string)
    ensures Tokens(TrimEnd(s)) == Tokens(s)
    decreases |s|
  {
    if s != "" && IsSpace(s[|s| - 1]) {
      TokensDropLastSpace(s);
      TokensTrimEnd(s[..|s| - 1]);
    }
  }

  /** Tokenising does not see the white space that trimming removes. */
  lemma TokensTrim(s: string)
    ensures Tokens(Trim(s)) == Tokens(s)
  {
    TokensTrimEnd(TrimStart(s));
    TokensTrimStart(s);
  }

  /** Words joined by single spaces: what a `format!("{a} {b} {c}")` prints and what
      `join(" ")` computes. */
  function Unwords(ws: seq<string>): string {
    if |ws| == 0 then "" else if |ws| == 1 then ws[0] else ws[0] + " " + Unwords(ws[1..])
  }

  lemma {:induction false} UnwordsFirst(w: string, ws: seq<string>)
    requires |ws| > 0
    ensures Unwords([w] + ws) == w + " " + Unwords(ws)
  {
    assert ([w] + ws)[1..] == ws;
  }

  predicate AllWords(ws: seq<string>) {
    forall i :: 0 <= i < |ws| ==> IsWord(ws[i])
  }

  /** Words followed by free text: the words come back, then the tokens of the text. */
  lemma {:induction false} TokensOfUnwordsThen(ws: seq<string>, tail: string)
    requires |ws| > 0 && AllWords(ws)
    ensures Tokens(Unwords(ws) + " " + tail) == ws + Tokens(tail)
  {
    if |ws| == 1 {
      TokensOfWordThen(ws[0], tail);
    } else {
      var more := Unwords(ws[1..]) + " " + tail;
      calc {
        Tokens(Unwords(ws) + " " + tail);
        { assert Unwords(ws) + " " + tail == ws[0] + " " + more; }
        Tokens(ws[0] + " " + more);
        { TokensOfWordThen(ws[0], more); }
        [ws[0]] + Tokens(more);
        { TokensOfUnwordsThen(ws[1..], tail); }
        [ws[0]] + (ws[1..] + Tokens(tail));
        { assert ws == [ws[0]] + ws[1..]; }
        ws + Tokens(tail);
      }
    }
  }

  lemma TokensOfWordThen(w: string, tail: string)
    requires IsWord(w)
    ensures Tokens(w + " " + tail) == [w] + Tokens(tail)
  {
    TokensOfWord(w, " " + tail);
    assert w + " " + tail == w + (" " + tail);
    assert (" " + tail)[1..] == tail;
  }

  lemma {:induction false} TokensOfUnwords(ws: seq<string>)
    requires AllWords(ws)
    ensures Tokens(Unwords(ws)) == ws
  {
    if |ws| > 0 {
      TokensOfUnwordsThen(ws, "");
      var s := Unwords(ws) + " ";
      assert Unwords(ws) + " " + "" == s;
      TokensDropLastSpace(s);
      assert s[..|s| - 1] == Unwords(ws);
    }
  }

  lemma {:induction false} UnwordsTrimmed(ws: seq<string>)
    requires |ws| > 0 && AllWords(ws)
    ensures Unwords(ws) != "" && Trimmed(Unwords(ws))
    ensures Unwords(ws)[0] == ws[0][0]
    ensures forall c :: c in Unwords(ws) && IsSpace(c) ==> c == ' '
  {
    if |ws| > 1 {
      assert AllWords(ws[1..]);
      UnwordsTrimmed(ws[1..]);
      var u := Unwords(ws);
      assert u[|u| - 1] == Unwords(ws[1..])[|Unwords(ws[1..])| - 1];
    }
  }

  /** `to_ascii_lowercase`. */
  function LowerAscii(s: string): string {
    seq(|s|, i requires 0 <= i < |s| => if 'A' <= s[i] <= 'Z' then (s[i] as int + 32) as char else s[i])
  }

  // -------------------------------------------------------------------- lines

  predicate OneLine(s: string) {
    forall i :: 0 <= i < |s| ==> s[i] != '\n' && s[i] != '\r'
  }

  function LineLen(s: string): (n: nat)
    ensures n <= |s|
    ensures forall i :: 0 <= i < n ==> s[i] != '\n'
    ensures n < |s| ==> s[n] == '\n'
  {
    if s == "" || s[0] == '\n' then 0 else 1 + LineLen(s[1..])
  }

  function DropCr(s: string): string {
    if s != "" && s[|s| - 1] == '\r' then s[..|s| - 1] else s
  }

  /** `str::lines`: split at newlines, a final newline optional; a carriage return
      just before the newline belongs to the line ending. */
  function Lines(s: string): seq<string>
    decreases |s|
  {
    if s == "" then []
    else
      var n := LineLen(s);
      if n == |s| then [s] else [DropCr(s[..n])] + Lines(s[n + 1..])
  }

  /** Every line followed by a newline. */
  function Unlines(ls: seq<string>): string {
    if |ls| == 0 then "" else ls[0] + "\n" + Unlines(ls[1..])
  }

  lemma LineLenOf(l: string, rest: string)
    requires forall i :: 0 <= i < |l| ==> l[i] != '\n'
    ensures LineLen(l + "\n" + rest) == |l|
  {
    var s := l + "\n" + rest;
    assert forall i :: 0 <= i < |l| ==> s[i] == l[i];
    assert s[|l|] == '\n';
  }

  lemma LinesCons(l: string, rest: string)
    requires OneLine(l)
    ensures Lines(l + "\n" + rest) == [l] + Lines(rest)
  {
    LineLenOf(l, rest);
    var s := l + "\n" + rest;
    assert s[..|l|] == l && s[|l| + 1..] == rest;
  }

  lemma {:induction false} LinesOfUnlines(ls: seq<string>, rest: string)
    requires forall i :: 0 <= i < |ls| ==> OneLine(ls[i])
    ensures Lines(Unlines(ls) + rest) == ls + Lines(rest)
  {
    if |ls| == 0 {
      assert Unlines(ls) + rest == rest;
    } else {
      var more := Unlines(ls[1..]) + rest;
      calc {
        Lines(Unlines(ls) + rest);
        { assert Unlines(ls) + rest == ls[0] + "\n" + more; }
        Lines(ls[0] + "\n" + more);
        { LinesCons(ls[0], more); }
        [ls[0]] + Lines(more);
        { LinesOfUnlines(ls[1..], rest); }
        [ls[0]] + (ls[1..] + Lines(rest));
        { assert ls == [ls[0]] + ls[1..]; }
        ls + Lines(rest);
      }
    }
  }

  // --------------------------------------------------------- separator splitting

  function FieldLen(s: string, sep: char): (n: nat)
    ensures n <= |s|
    ensures forall i :: 0 <= i < n ==> s[i] != sep
    ensures n < |s| ==> s[n] == sep
  {
    if s == "" || s[0] == sep then 0 else 1 + FieldLen(s[1..], sep)
  }

  /** `s.split(sep)`: always at least one piece. */
  function Split(s: string, sep: char): (r: seq<string>)
    ensures |r| >= 1
    decreases |s|
  {
    var n := FieldLen(s, sep);
    if n == |s| then [s] else [s[..n]] + Split(s[n + 1..], sep)
  }

  /** `join(sep)`. */
  function Join(ps: seq<string>, sep: char): string {
    if |ps| == 0 then "" else if |ps| == 1 then ps[0] else ps[0] + [sep] + Join(ps[1..], sep)
  }

  predicate Lacks(s: string, c: char) {
    forall i :: 0 <= i < |s| ==> s[i] != c
  }

  lemma FieldLenOf(p: string, sep: char, rest: string)
    requires Lacks(p, sep)
    requires rest == "" || rest[0] == sep
    ensures FieldLen(p + rest, sep) == |p|
  {
    assert forall i :: 0 <= i < |p| ==> (p + rest)[i] == p[i];
    assert rest != "" ==> (p + rest)[|p|] == rest[0];
  }

  lemma {:induction false} SplitOfJoin(ps: seq<string>, sep: char)
    requires |ps| > 0
    requires forall i :: 0 <= i < |ps| ==> Lacks(ps[i], sep)
    ensures Split(Join(ps, sep), sep) == ps
  {
    if |ps| == 1 {
      FieldLenOf(ps[0], sep, "");
      assert ps[0] + "" == ps[0];
    } else {
      var more := Join(ps[1..], sep);
      FieldLenOf(ps[0], sep, [sep] + more);
      var s := ps[0] + ([sep] + more);
      assert Join(ps, sep) == s;
      SplitOfJoin(ps[1..], sep);
      assert s[..|ps[0]|] == ps[0] && s[|ps[0]| + 1..] == more;
    }
  }

  lemma CutAtSeparator(s: string, sep: char)
    requires FieldLen(s, sep) < |s|
    ensures s == s[..FieldLen(s, sep)] + [sep] + s[FieldLen(s, sep) + 1..]
  {
    hide FieldLen;
    var n := FieldLen(s, sep);
    assert s[n] == sep;
  }

  lemma {:induction false} JoinOfSplit(s: string, sep: char)
    ensures Join(Split(s, sep), sep) == s
    decreases |s|
  {
    assert Join([s], sep) == s;
    hide Join, FieldLen;
    var n := FieldLen(s, sep);
    if n < |s| {
      var rest := Split(s[n + 1..], sep);
      JoinOfSplit(s[n + 1..], sep);
      JoinFirst(s[..n], rest, sep);
      CutAtSeparator(s, sep);
      assert Split(s, sep) == [s[..n]] + rest;
    } else {
    }
  }

  lemma JoinFirst(p: string, ps: seq<string>, sep: char)
    requires ps != []
    ensures Join([p] + ps, sep) == p + [sep] + Join(ps, sep)
  {
    assert ([p] + ps)[1..] == ps;
  }

  /** `split_once(sep)`. */
  function SplitOnce(s: string, sep: char): Option<(string, string)> {
    var n := FieldLen(s, sep);
    if n == |s| then None else Some((s[..n], s[n + 1..]))
  }

  lemma SplitOnceOf(a: string, sep: char, b: string)
    requires Lacks(a, sep)
    ensures SplitOnce(a + [sep] + b, sep) == Some((a, b))
  {
    FieldLenOf(a, sep, [sep] + b);
    assert a + [sep] + b == a + ([sep] + b);
  }

  lemma SplitOnceInverse(s: string, sep: char)
    requires SplitOnce(s, sep).Some?
    ensures var (a, b) := SplitOnce(s, sep).value; s == a + [sep] + b && Lacks(a, sep)
  {
  }

  // ------------------------------------------------------------------ numbers

  predicate IsDigit(c: char) {
    '0' <= c <= '9'
  }

  predicate AllDigits(s: string) {
    forall i :: 0 <= i < |s| ==> IsDigit(s[i])
  }

  function Digit(d: nat): char
    requires d < 10
  {
    (d + '0' as nat) as char
  }

  function DigitValue(c: char): nat
    requires IsDigit(c)
  {
    c as nat - '0' as nat
  }

  /** Decimal rendering without leading zeros, as `to_string` prints unsigned values. */
  function Render(n: nat): (s: string)
    ensures s != "" && AllDigits(s)
  {
    if n < 10 then [Digit(n)] else Render(n / 10) + [Digit(n % 10)]
  }

  function DigitsValue(s: string): nat
    requires AllDigits(s)
  {
    if s == "" then 0 else 10 * DigitsValue(s[..|s| - 1]) + DigitValue(s[|s| - 1])
  }

  /** `str::parse` for an unsigned type with the given largest value: an optional `+`,
      at least one digit, no overflow. */
  function ParseUnsigned(s: string, max: nat): Option<nat> {
    var digits := if s != "" && s[0] == '+' then s[1..] else s;
    if digits == "" || !AllDigits(digits) then None
    else if DigitsValue(digits) > max then None
    else Some(DigitsValue(digits))
  }

  lemma {:induction false} DigitsValueOfRender(n: nat)
    ensures DigitsValue(Render(n)) == n
  {
    if n >= 10 {
      DigitsValueOfRender(n / 10);
      assert Render(n)[..|Render(n)| - 1] == Render(n / 10);
    }
  }

  /** Parsing what was rendered gives the number back, whenever it fits. */
  lemma ParseOfRender(n: nat, max: nat)
    ensures ParseUnsigned(Render(n), max) == if n <= max then Some(n) else None
  {
    DigitsValueOfRender(n);
    assert Render(n)[0] != '+';
  }

  lemma RenderInjective(a: nat, b: nat)
    requires Render(a) == Render(b)
    ensures a == b
  {
    DigitsValueOfRender(a);
    DigitsValueOfRender(b);
  }

  lemma RenderLacks(n: nat, c: char)
    requires !IsDigit(c)
    ensures Lacks(Render(n), c)
  {
    assert forall i :: 0 <= i < |Render(n)| ==> IsDigit(Render(n)[i]);
  }

  lemma RenderIsWord(n: nat)
    ensures IsWord(Render(n))
  {
    forall i | 0 <= i < |Render(n)| ensures !IsSpace(Render(n)[i]) {
      assert IsDigit(Render(n)[i]);
    }
  }

  const U16_MAX: nat := 0xffff
  const U32_MAX: nat := 0xffff_ffff

  predicate IsHexDigit(c: char) {
    IsDigit(c) || 'a' <= c <= 'f' || 'A' <= c <= 'F'
  }

  predicate IsAlphanumeric(c: char) {
    IsDigit(c) || 'a' <= c <= 'z' || 'A' <= c <= 'Z'
  }

  predicate WordOrNone(s: Option<string>) {
    s.Some? ==> IsWord(s.value)
  }
}
