/**
 The shape of placeholders: `<TYPE_N>`, how one is rendered, and how literals of that
 shape are found in a text. Two literals in one text never share a byte, because `<`
 stands only at the start and `>` only at the end.
 */
module Placeholders {
  import opened Bytes

  predicate IsWord(b: byte) {
    IsDigit(b) || 0x41 <= b <= 0x5A || 0x61 <= b <= 0x7A || b == UNDERSCORE
  }

  predicate Word(s: bytes) {
    forall b <- s :: IsWord(b)
  }

  /** `<`, word bytes, `>`. */
  predicate Token(s: bytes) {
    |s| >= 2 && s[0] == LESS && s[|s| - 1] == GREATER && Word(s[1..|s| - 1])
  }

  /** `[A-Za-z0-9_]+_[0-9]+`. */
  ghost predicate IsInner(s: bytes) {
    exists a: bytes, d: bytes :: a != [] && Word(a) && d != [] && AllDigits(d) && s == a + [UNDERSCORE] + d
  }

  predicate AllDigits(s: bytes) {
    forall b <- s :: IsDigit(b)
  }

  /** `<[A-Za-z0-9_]+_[0-9]+>`. */
  ghost predicate IsLiteral(s: bytes) {
    |s| >= 2 && s[0] == LESS && s[|s| - 1] == GREATER && IsInner(s[1..|s| - 1])
  }

  lemma LiteralIsToken(s: bytes)
    requires IsLiteral(s)
    ensures Token(s)
  {
    var inner := s[1..|s| - 1];
    var a: bytes, d: bytes :| a != [] && Word(a) && d != [] && AllDigits(d) && inner == a + [UNDERSCORE] + d;
    forall b <- inner ensures IsWord(b) {
      assert b in a || b == UNDERSCORE || b in d;
    }
  }

  /** Where the bytes of a token are: `<` first and only there, `>` last and only there. */
  lemma TokenBytes(s: bytes)
    requires Token(s)
    ensures forall i | 0 < i < |s| :: s[i] != LESS
    ensures forall i | 0 <= i < |s| - 1 :: s[i] != GREATER
    ensures forall i | 0 < i < |s| - 1 :: IsWord(s[i])
  {
    forall i | 0 < i < |s| - 1 ensures IsWord(s[i]) {
      assert s[1..|s| - 1][i - 1] == s[i];
    }
  }

  /** No token is a proper prefix of another. */
  lemma TokensArePrefixFree(p: bytes, q: bytes, text: bytes)
    requires Token(p) && Token(q) && p <= text && q <= text
    ensures p == q
  {
    TokenBytes(p);
    TokenBytes(q);
    assert text[|p| - 1] == GREATER && text[|q| - 1] == GREATER;
    assert forall i | 0 <= i < |p| - 1 :: text[i] != GREATER;
    assert forall i | 0 <= i < |q| - 1 :: text[i] != GREATER;
    assert |p| == |q|;
  }

  // ---- Rendering ----

  function Decimal(n: nat): bytes {
    if n < 10 then [(0x30 + n) as byte] else Decimal(n / 10) + [(0x30 + n % 10) as byte]
  }

  function DecimalValue(d: bytes): nat
    requires AllDigits(d)
  {
    if d == [] then 0
    else
      var k := |d| - 1;
      assert forall b <- d[..k] :: b in d;
      assert d[k] in d;
      DecimalValue(d[..k]) * 10 + (d[k] as int - 0x30)
  }

  lemma {:induction false} DecimalReads(n: nat)
    ensures Decimal(n) != [] && AllDigits(Decimal(n)) && DecimalValue(Decimal(n)) == n
  {
    if n >= 10 {
      DecimalReads(n / 10);
      assert Decimal(n)[..|Decimal(n)| - 1] == Decimal(n / 10);
    }
  }

  /** No leading zero. */
  lemma {:induction false} DecimalIsShortest(n: nat)
    ensures Decimal(n) != [] && (Decimal(n)[0] == ZERO ==> n == 0) && (n == 0 ==> Decimal(n) == [ZERO])
  {
    if n >= 10 {
      DecimalIsShortest(n / 10);
    }
  }

  function Render(type_: bytes, index: nat): bytes {
    [LESS] + type_ + [UNDERSCORE] + Decimal(index) + [GREATER]
  }

  /** Rendering is injective for any types whatever: the last underscore ends the type. */
  lemma RenderInjective(t: bytes, m: nat, u: bytes, n: nat)
    requires Render(t, m) == Render(u, n)
    ensures t == u && m == n
  {
    DecimalReads(m);
    DecimalReads(n);
    var d, e := Decimal(m), Decimal(n);
    var r, q := Render(t, m), Render(u, n);
    assert r == [LESS] + t + [UNDERSCORE] + d + [GREATER] && q == [LESS] + u + [UNDERSCORE] + e + [GREATER];
    if |d| < |e| {
      NotDigitAt(r, t, d, e, q, u);
    } else if |e| < |d| {
      NotDigitAt(q, u, e, d, r, t);
    }
    assert |t| == |u|;
    assert t == r[1..1 + |t|] && u == q[1..1 + |u|];
    assert d == r[2 + |t|..2 + |t| + |d|] && e == q[2 + |u|..2 + |u| + |e|];
  }

  /** A shorter run of digits would put the underscore among the digits of the longer one. */
  lemma NotDigitAt(r: bytes, t: bytes, d: bytes, e: bytes, q: bytes, u: bytes)
    requires r == [LESS] + t + [UNDERSCORE] + d + [GREATER] && q == [LESS] + u + [UNDERSCORE] + e + [GREATER]
    requires |d| < |e| && AllDigits(e)
    ensures r != q
  {
    var k := |r| - |d| - 2;
    assert r[k] == UNDERSCORE;
    if |r| == |q| {
      assert q[k] == e[k - (2 + |u|)];
      assert e[k - (2 + |u|)] in e;
    }
  }

  /** Over word bytes, and not empty: the types a rendered placeholder is a literal for. */
  predicate IsTypeName(t: bytes) {
    t != [] && Word(t)
  }

  lemma RenderedIsLiteral(t: bytes, n: nat)
    requires IsTypeName(t)
    ensures IsLiteral(Render(t, n))
  {
    DecimalReads(n);
    var r := Render(t, n);
    assert r[1..|r| - 1] == t + [UNDERSCORE] + Decimal(n);
  }

  lemma RenderStarts(t: bytes, n: nat)
    ensures |Render(t, n)| >= 4 + |t| && Render(t, n)[0] == LESS
  {
    DecimalReads(n);
  }

  // ---- Finding literals ----

  /** The first byte from `i` on that is not a word byte. */
  function WordEnd(s: bytes, i: nat): (r: nat)
    requires i <= |s|
    ensures i <= r <= |s| && Word(s[i..r]) && (r < |s| ==> !IsWord(s[r]))
    decreases |s| - i
  {
    if i < |s| && IsWord(s[i]) then
      var r := WordEnd(s, i + 1);
      assert s[i..r] == [s[i]] + s[i + 1..r];
      r
    else i
  }

  /** Where the digits at the end of `s` begin. */
  function DigitsStart(s: bytes): (r: nat)
    ensures r <= |s| && AllDigits(s[r..]) && (r > 0 ==> !IsDigit(s[r - 1]))
  {
    if s != [] && IsDigit(s[|s| - 1]) then
      var k := |s| - 1;
      var r := DigitsStart(s[..k]);
      assert s[r..] == s[..k][r..] + [s[k]];
      r
    else |s|
  }

  /** The `[A-Za-z0-9_]+_[0-9]+` test on a run of word bytes. */
  predicate InnerTest(s: bytes) {
    var k := DigitsStart(s);
    k < |s| && k >= 2 && s[k - 1] == UNDERSCORE
  }

  lemma InnerTestIsInner(s: bytes)
    requires Word(s)
    ensures InnerTest(s) <==> IsInner(s)
  {
    var k := DigitsStart(s);
    if InnerTest(s) {
      var a, d := s[..k - 1], s[k..];
      assert s == a + [UNDERSCORE] + d;
      assert forall b <- a :: b in s;
    }
    if IsInner(s) {
      var a: bytes, d: bytes :| a != [] && Word(a) && d != [] && AllDigits(d) && s == a + [UNDERSCORE] + d;
      assert forall i | 0 <= i < |d| :: IsDigit(d[i]);
      assert forall i | |a| < i < |s| :: s[i] == d[i - |a| - 1];
      assert forall i | 0 <= i < |s| - k :: IsDigit(s[k..][i]);
      assert forall i | k <= i < |s| :: s[i] == s[k..][i - k];
      assert s[|a|] == UNDERSCORE;
    }
  }

  /** Where the literal that starts at `i` ends. */
  function LiteralEnd(s: bytes, i: nat): Option<nat>
    requires i <= |s|
  {
    if i >= |s| || s[i] != LESS then None
    else
      var j := WordEnd(s, i + 1);
      if j < |s| && s[j] == GREATER && InnerTest(s[i + 1..j]) then Some(j + 1) else None
  }

  lemma LiteralEndFinds(s: bytes, i: nat)
    requires i <= |s| && LiteralEnd(s, i).Some?
    ensures i < LiteralEnd(s, i).value <= |s| && IsLiteral(s[i..LiteralEnd(s, i).value])
  {
    var e := LiteralEnd(s, i).value;
    var p := s[i..e];
    assert p[1..|p| - 1] == s[i + 1..e - 1];
    InnerTestIsInner(s[i + 1..e - 1]);
  }

  lemma WordsBefore(s: bytes, a: nat, b: nat)
    requires a <= b <= |s| && Word(s[a..b])
    ensures forall k | a <= k < b :: IsWord(s[k])
  {
    forall k | a <= k < b ensures IsWord(s[k]) {
      assert s[a..b][k - a] == s[k];
    }
  }

  /** Every literal in a text is the one found where it starts. */
  lemma LiteralIsFound(s: bytes, i: nat, p: bytes)
    requires At(s, i, p) && IsLiteral(p)
    ensures LiteralEnd(s, i) == Some(i + |p|)
  {
    LiteralIsToken(p);
    TokenBytes(p);
    var j := WordEnd(s, i + 1);
    var last := i + |p| - 1;
    AtByte(s, i, p, 0);
    AtByte(s, i, p, |p| - 1);
    WordsBefore(s, i + 1, j);
    forall k | i < k < last ensures IsWord(s[k]) {
      AtByte(s, i, p, k - i);
    }
    assert j == last;
    AtSlice(s, i, p, 1, |p| - 1);
    AtMeans(s, i + 1, p[1..|p| - 1]);
    InnerTestIsInner(s[i + 1..j]);
  }
}
