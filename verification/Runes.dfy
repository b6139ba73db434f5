/**
 Rune boundaries of demask/Demasker.hpp, and well-formed UTF-8 (section 4 of RFC 3629)
 to judge them by.
 */
module Runes {
  import opened Bytes

  // ---- Well-formed byte strings, by the RFC's syntax ----

  predicate IsTail(b: byte) {
    0x80 <= b <= 0xBF
  }

  /** The length of the well-formed rune at the front of `s`; 0 when there is none. */
  function RuneLength(s: bytes): (n: nat)
    ensures n <= |s| && n <= 4
  {
    if s == [] then 0
    else if s[0] <= 0x7F then 1
    else if 0xC2 <= s[0] <= 0xDF then (if |s| >= 2 && IsTail(s[1]) then 2 else 0)
    else if 0xE0 <= s[0] <= 0xEF then
      (if |s| >= 3 && SecondOfThree(s[0], s[1]) && IsTail(s[2]) then 3 else 0)
    else if 0xF0 <= s[0] <= 0xF4 then
      (if |s| >= 4 && SecondOfFour(s[0], s[1]) && IsTail(s[2]) && IsTail(s[3]) then 4 else 0)
    else 0
  }

  predicate SecondOfThree(lead: byte, b: byte) {
    if lead == 0xE0 then 0xA0 <= b <= 0xBF else if lead == 0xED then 0x80 <= b <= 0x9F else IsTail(b)
  }

  predicate SecondOfFour(lead: byte, b: byte) {
    if lead == 0xF0 then 0x90 <= b <= 0xBF else if lead == 0xF4 then 0x80 <= b <= 0x8F else IsTail(b)
  }

  /** One whole rune. */
  predicate IsRune(r: bytes) {
    r != [] && RuneLength(r) == |r|
  }

  function CodePoint(r: bytes): int
    requires IsRune(r)
  {
    if |r| == 1 then r[0] as int
    else if |r| == 2 then (r[0] as int - 0xC0) * 0x40 + (r[1] as int - 0x80)
    else if |r| == 3 then (r[0] as int - 0xE0) * 0x1000 + (r[1] as int - 0x80) * 0x40 + (r[2] as int - 0x80)
    else (r[0] as int - 0xF0) * 0x40000 + (r[1] as int - 0x80) * 0x1000 + (r[2] as int - 0x80) * 0x40 + (r[3] as int - 0x80)
  }

  lemma CodePointRange(r: bytes)
    requires IsRune(r)
    ensures |r| == 1 ==> 0 <= CodePoint(r) < 0x80
    ensures |r| == 2 ==> 0x80 <= CodePoint(r) < 0x800
    ensures |r| == 3 ==> 0x800 <= CodePoint(r) < 0x10000
    ensures |r| == 4 ==> 0x10000 <= CodePoint(r)
  {
  }

  predicate WellFormed(s: bytes)
    decreases |s|
  {
    s == [] || (RuneLength(s) > 0 && WellFormed(s[RuneLength(s)..]))
  }

  predicate IsAscii(s: bytes) {
    forall i | 0 <= i < |s| :: s[i] <= 0x7F
  }

  predicate NoAscii(s: bytes) {
    forall i | 0 <= i < |s| :: s[i] > 0x7F
  }

  /** A rune at the front does not depend on what follows it. */
  lemma RuneOfPrefix(s: bytes, t: bytes)
    ensures RuneLength(s) > 0 ==> RuneLength(s + t) == RuneLength(s)
    ensures 0 < RuneLength(s + t) <= |s| ==> RuneLength(s) == RuneLength(s + t)
  {
  }

  lemma {:induction false} WellFormedConcat(a: bytes, b: bytes)
    requires WellFormed(a) && WellFormed(b)
    ensures WellFormed(a + b)
    decreases |a|
  {
    hide RuneLength;
    if a == [] {
      assert a + b == b;
    } else {
      var n := RuneLength(a);
      WellFormedConcat(a[n..], b);
      RuneOfPrefix(a, b);
      assert (a + b)[n..] == a[n..] + b;
    }
  }

  /** What the bytes of a rune are: one ASCII byte, or a lead byte and tail bytes. */
  lemma RuneBytes(s: bytes)
    requires RuneLength(s) > 0
    ensures s[0] <= 0x7F <==> RuneLength(s) == 1
    ensures RuneLength(s) > 1 ==> s[0] > 0xC1
    ensures forall i | 0 < i < RuneLength(s) :: IsTail(s[i])
  {
  }

  /** ASCII bytes at the front of a well-formed string leave a well-formed string. */
  lemma {:induction false} AfterAscii(p: bytes, s: bytes)
    requires WellFormed(p + s) && IsAscii(p)
    ensures WellFormed(s)
    decreases |p|
  {
    if p == [] {
      assert p + s == s;
    } else {
      assert (p + s)[1..] == p[1..] + s;
      assert RuneLength(p + s) == 1;
      AfterAscii(p[1..], s);
    }
  }

  /** The runes at the front of `s`, as many as there are. */
  function WholeRunes(s: bytes): (n: nat)
    ensures n <= |s|
    decreases |s|
  {
    if RuneLength(s) == 0 then 0 else RuneLength(s) + WholeRunes(s[RuneLength(s)..])
  }

  /** A prefix of a well-formed string is whole runes and the beginning of at most one more. */
  lemma {:induction false} PrefixOfWellFormed(x: bytes, rest: bytes)
    requires WellFormed(x + rest)
    ensures var n := WholeRunes(x);
      && WellFormed(x[..n]) && WellFormed(x[n..] + rest)
      && |x[n..]| <= 3 && NoAscii(x[n..]) && (rest == [] ==> n == |x|)
    decreases |x|
  {
    hide RuneLength, NoAscii;
    var n := RuneLength(x);
    if n == 0 {
      assert x[0..] == x && x[..0] == [];
      BrokenRune(x, rest);
    } else {
      RuneOfPrefix(x, rest);
      DropAcross(x, rest, n);
      PrefixOfWellFormed(x[n..], rest);
      var m := WholeRunes(x[n..]);
      DropDrop(x, n, m);
      OneRune(x);
      WellFormedConcat(x[..n], x[n..][..m]);
    }
  }

  lemma DropAcross(x: bytes, rest: bytes, n: nat)
    requires n <= |x|
    ensures (x + rest)[n..] == x[n..] + rest
  {
  }

  lemma BrokenRune(x: bytes, rest: bytes)
    requires WellFormed(x + rest) && RuneLength(x) == 0
    ensures |x| <= 3 && NoAscii(x) && (rest == [] ==> x == [])
  {
    hide RuneLength;
    assert x + [] == x;
    if x != [] {
      var w := x + rest;
      RuneOfPrefix(x, rest);
      RuneBytes(w);
      assert forall i | 0 <= i < |x| :: x[i] == w[i];
    }
  }

  lemma OneRune(s: bytes)
    requires RuneLength(s) > 0
    ensures WellFormed(s[..RuneLength(s)])
  {
    var r := s[..RuneLength(s)];
    assert RuneLength(r) == |r|;
    assert r[|r|..] == [];
  }

  // ---- The boundary test of the demasker ----

  predicate IsRuneStart(b: byte) {
    !IsTail(b)
  }

  /** rune_len_at: a broken or cut sequence counts as one byte. */
  function RuneLenAt(s: bytes, i: nat): nat {
    if i >= |s| then 1
    else
      var want := if 0xC0 <= s[i] < 0xE0 then 2 else if 0xE0 <= s[i] < 0xF0 then 3 else if 0xF0 <= s[i] < 0xF8 then 4 else 1;
      if i + want <= |s| && forall j | i < j < i + want :: IsTail(s[j]) then want else 1
  }

  method RuneLengthAt(s: bytes, i: nat) returns (r: nat)
    ensures r == RuneLenAt(s, i)
  {
    if i >= |s| {
      return 1;
    }
    var want := 0;
    if s[i] < 0x80 {
      return 1;
    }
    if 0xC0 <= s[i] < 0xE0 {
      want := 2;
    } else if 0xE0 <= s[i] < 0xF0 {
      want := 3;
    } else if 0xF0 <= s[i] < 0xF8 {
      want := 4;
    } else {
      return 1;
    }
    if i + want > |s| {
      return 1;
    }
    for k := 1 to want
      invariant forall j | i < j < i + k :: IsTail(s[j])
    {
      if !IsTail(s[i + k]) {
        return 1;
      }
    }
    return want;
  }

  /** The last rune start at or before `i`. */
  function StartBefore(s: bytes, i: nat): (r: Option<nat>)
    requires i < |s|
    ensures r.Some? ==> r.value <= i
  {
    if IsRuneStart(s[i]) then Some(i) else if i == 0 then None else StartBefore(s, i - 1)
  }

  /** The largest offset up to `end` that splits no rune. */
  function SafePrefixEnd(s: bytes, end: nat): (r: nat)
    ensures r <= |s| && (end < |s| ==> r <= end)
  {
    if end == 0 then 0
    else if end >= |s| then |s|
    else
      match StartBefore(s, end - 1)
      case None => 0
      case Some(i) => if i + RuneLenAt(s, i) <= end then end else i
  }

  method Utf8SafePrefixEnd(s: bytes, end: nat) returns (r: nat)
    ensures r == SafePrefixEnd(s, end)
  {
    if end == 0 {
      return 0;
    }
    if end >= |s| {
      return |s|;
    }
    var i := end - 1;
    while !IsRuneStart(s[i])
      invariant 0 <= i < |s|
      invariant StartBefore(s, i) == StartBefore(s, end - 1)
      decreases i
    {
      if i == 0 {
        return 0;
      }
      i := i - 1;
    }
    var size := RuneLengthAt(s, i);
    return if i + size <= end then end else i;
  }

  /** The rune that byte `k` of a well-formed string belongs to. */
  lemma {:induction false} RuneAround(s: bytes, k: nat) returns (i: nat, n: nat)
    requires WellFormed(s) && k < |s|
    ensures i <= k < i + n <= |s| && RuneLength(s[i..]) == n
    ensures WellFormed(s[..i]) && WellFormed(s[i + n..])
    decreases |s|
  {
    hide RuneLength;
    var m := RuneLength(s);
    if k < m {
      i, n := 0, m;
      assert s[0..] == s && s[..0] == [];
    } else {
      i, n := RuneAround(s[m..], k - m);
      DropDrop(s, m, i);
      DropDrop(s, m, i + n);
      OneRune(s);
      WellFormedConcat(s[..m], s[m..][..i]);
      i := m + i;
    }
  }

  lemma {:induction false} StartInRune(s: bytes, i: nat, k: nat)
    requires i <= k < |s| && IsRuneStart(s[i]) && forall j | i < j <= k :: IsTail(s[j])
    ensures StartBefore(s, k) == Some(i)
    decreases k - i
  {
    if k > i {
      StartInRune(s, i, k - 1);
    }
  }

  /** The rune that the byte before `end` belongs to is the one the boundary test measures, whatever follows the text. */
  lemma RuneAtCut(s: bytes, tail: bytes, end: nat) returns (i: nat, n: nat)
    requires WellFormed(s) && 0 < end <= |s|
    ensures i < end <= i + n <= |s| && RuneLength(s[i..]) == n <= 4
    ensures WellFormed(s[..i]) && WellFormed(s[i..i + n]) && WellFormed(s[i + n..])
    ensures StartBefore(s + tail, end - 1) == Some(i) && RuneLenAt(s + tail, i) == n
  {
    hide RuneLength, WellFormed, RuneLenAt;
    var w := s + tail;
    i, n := RuneAround(s, end - 1);
    var r := s[i..];
    RuneBytes(r);
    assert forall j | i <= j < i + n :: w[j] == r[j - i];
    StartInRune(w, i, end - 1);
    RuneWant(w, i, r, n);
    OneRune(r);
    assert r[..n] == s[i..i + n];
  }

  /** Cutting well-formed text where the demasker does leaves both parts well-formed, whatever follows. */
  lemma SafeCut(s: bytes, tail: bytes, end: nat)
    requires WellFormed(s) && 0 < end <= |s| && end < |s + tail|
    ensures var e := SafePrefixEnd(s + tail, end); e <= end && WellFormed(s[..e]) && WellFormed(s[e..])
  {
    hide RuneLength, WellFormed, RuneLenAt, StartBefore;
    var i, n := RuneAtCut(s, tail, end);
    if i + n <= end {
      WellFormedConcat(s[..i], s[i..i + n]);
      assert s[..i] + s[i..i + n] == s[..end];
    } else {
      WellFormedConcat(s[i..i + n], s[i + n..]);
      assert s[i..i + n] + s[i + n..] == s[i..];
    }
  }

  /** A prefix that ends within a rune is not well-formed. */
  lemma {:induction false} CutRuneIsBroken(s: bytes, i: nat, n: nat, k: nat)
    requires i <= |s| && WellFormed(s[..i]) && RuneLength(s[i..]) == n && i < k < i + n
    ensures !WellFormed(s[..k])
    decreases i
  {
    hide RuneLength;
    var cut := s[..k];
    assert cut + s[k..] == s;
    RuneOfPrefix(cut, s[k..]);
    if i == 0 {
      assert s[0..] == s;
    } else {
      var m := RuneLength(s[..i]);
      assert s[..i] + s[i..] == s;
      RuneOfPrefix(s[..i], s[i..]);
      var rest := s[m..];
      assert s[..i][m..] == rest[..i - m] && rest[i - m..] == s[i..] && cut[m..] == rest[..k - m];
      CutRuneIsBroken(rest, i - m, n, k - m);
    }
  }

  /** The demasker cuts as late as it can: every later prefix up to `end` splits a rune, and at most three bytes are given up. */
  lemma SafeCutIsLatest(s: bytes, end: nat)
    requires WellFormed(s) && end <= |s|
    ensures var e := SafePrefixEnd(s, end);
      e <= end <= e + 3 && WellFormed(s[..e]) && forall k | e < k <= end :: !WellFormed(s[..k])
  {
    hide RuneLength, WellFormed, RuneLenAt, StartBefore;
    if end == 0 {
      EmptyIsWellFormed();
      assert s[..0] == [];
    } else if end == |s| {
      assert s[..end] == s;
    } else {
      assert s + [] == s;
      SafeCut(s, [], end);
      var i, n := RuneAtCut(s, [], end);
      forall k | SafePrefixEnd(s, end) < k <= end ensures !WellFormed(s[..k]) {
        CutRuneIsBroken(s, i, n, k);
      }
    }
  }

  lemma EmptyIsWellFormed()
    ensures WellFormed([])
  {
  }

  lemma RuneWant(w: bytes, i: nat, r: bytes, n: nat)
    requires 0 < n == RuneLength(r) && i + n <= |w| && forall j | i <= j < i + n :: w[j] == r[j - i]
    ensures RuneLenAt(w, i) == n
  {
    RuneBytes(r);
    assert w[i] == r[0];
    forall j | i < j < i + n ensures IsTail(w[j]) {
      assert w[j] == r[j - i];
    }
  }

  lemma {:induction false} TailsAfterStart(s: bytes, i: nat)
    requires i < |s|
    ensures forall j | (match StartBefore(s, i) case None => 0 case Some(b) => b + 1) <= j <= i :: IsTail(s[j])
  {
    if !IsRuneStart(s[i]) && i > 0 {
      TailsAfterStart(s, i - 1);
    }
  }

  /** The boundary test steps back over bytes of one rune only, none of them ASCII. */
  lemma NoAsciiSkipped(s: bytes, end: nat)
    requires end <= |s|
    ensures SafePrefixEnd(s, end) <= end && forall j | SafePrefixEnd(s, end) <= j < end :: s[j] > 0x7F
  {
    if 0 < end < |s| {
      TailsAfterStart(s, end - 1);
    }
  }

  /** A cut before an ASCII byte, in text that begins with one, stays where it is. */
  lemma CutAtAscii(s: bytes, end: nat)
    requires 0 < end < |s| && s[0] <= 0x7F && s[end] <= 0x7F
    ensures SafePrefixEnd(s, end) == end
  {
    TailsAfterStart(s, end - 1);
    assert StartBefore(s, end - 1).Some?;
  }
}
