/**
 What a string literal means, escape by escape (section 7 of RFC 8259): how each spelling
 decodes in front of any tail, and what the encoder leaves alone. Code units are spelled
 out in hexadecimal digits here, so nothing rests on the decoder's own arithmetic.
 */
module JsonEscapes {
  import opened Bytes
  import opened JsonGrammar
  import opened JsonStrings
  import Utf8

  // ---- Spelling ----

  const LOWER_DIGITS: bytes := Ascii("0123456789abcdef")
  const UPPER_DIGITS: bytes := Ascii("0123456789ABCDEF")

  /** `b` is the hexadecimal digit of `v`, in either case. */
  predicate IsHexOf(b: byte, v: nat)
    requires v < 16
  {
    b == LOWER_DIGITS[v] || b == UPPER_DIGITS[v]
  }

  /** The four digits `d` spell the code unit `u`. */
  predicate Spells(d: bytes, u: nat) {
    && |d| == 4 && u < 0x10000
    && IsHexOf(d[0], u / 0x1000) && IsHexOf(d[1], u / 0x100 % 0x10) && IsHexOf(d[2], u / 0x10 % 0x10) && IsHexOf(d[3], u % 0x10)
  }

  const ESCAPE_U: bytes := [BACKSLASH, 0x75]

  /** An escape that spells a low surrogate stands at the front of `s`. */
  ghost predicate StartsWithLow(s: bytes) {
    exists d: bytes, u: nat :: Spells(d, u) && 0xDC00 <= u <= 0xDFFF && ESCAPE_U + d <= s
  }

  lemma DigitReads(b: byte, v: nat)
    requires v < 16 && IsHexOf(b, v)
    ensures IsHex(b) && HexValue(b) == v
  {
    DigitTables(v);
  }

  lemma DigitIsSpelled(b: byte)
    requires IsHex(b)
    ensures IsHexOf(b, HexValue(b))
  {
    DigitTables(HexValue(b));
  }

  lemma DigitTables(v: nat)
    requires v < 16
    ensures v < 10 ==> LOWER_DIGITS[v] as int == 0x30 + v == UPPER_DIGITS[v] as int
    ensures v >= 10 ==> LOWER_DIGITS[v] as int == 0x57 + v && UPPER_DIGITS[v] as int == 0x37 + v
  {
    var lower, upper := "0123456789abcdef", "0123456789ABCDEF";
    if v < 4 {
      assert v == 0 || v == 1 || v == 2 || v == 3;
    } else if v < 8 {
      assert v == 4 || v == 5 || v == 6 || v == 7;
    } else if v < 12 {
      assert v == 8 || v == 9 || v == 10 || v == 11;
    } else {
      assert v == 12 || v == 13 || v == 14 || v == 15;
    }
  }

  lemma FourDigits(a: nat, b: nat, c: nat, d: nat)
    requires a < 16 && b < 16 && c < 16 && d < 16
    ensures var u := ((a * 16 + b) * 16 + c) * 16 + d;
      u < 0x10000 && u / 0x1000 == a && u / 0x100 % 0x10 == b && u / 0x10 % 0x10 == c && u % 0x10 == d
  {
  }

  lemma JoinDigits(u: nat)
    requires u < 0x10000
    ensures ((u / 0x1000 * 16 + u / 0x100 % 0x10) * 16 + u / 0x10 % 0x10) * 16 + u % 0x10 == u
  {
    assert u / 0x100 == u / 0x1000 * 16 + u / 0x100 % 0x10;
    assert u / 0x10 == u / 0x100 * 16 + u / 0x10 % 0x10;
  }

  /** What is read at `p` is what is spelled there. */
  lemma SpelledIsRead(s: bytes, p: nat, d: bytes, u: nat)
    requires At(s, p, d) && Spells(d, u)
    ensures Hex4(s, p) == Some(u)
  {
    hide IsHexOf, HexValue, IsHex;
    AtByte(s, p, d, 0);
    AtByte(s, p, d, 1);
    AtByte(s, p, d, 2);
    AtByte(s, p, d, 3);
    DigitReads(d[0], u / 0x1000);
    DigitReads(d[1], u / 0x100 % 0x10);
    DigitReads(d[2], u / 0x10 % 0x10);
    DigitReads(d[3], u % 0x10);
    JoinDigits(u);
  }

  lemma ReadIsSpelled(s: bytes, p: nat)
    requires Hex4(s, p).Some?
    ensures p + 4 <= |s| && Spells(s[p..p + 4], Hex4(s, p).value)
  {
    hide IsHexOf, HexValue, IsHex;
    DigitIsSpelled(s[p]);
    DigitIsSpelled(s[p + 1]);
    DigitIsSpelled(s[p + 2]);
    DigitIsSpelled(s[p + 3]);
    FourDigits(HexValue(s[p]), HexValue(s[p + 1]), HexValue(s[p + 2]), HexValue(s[p + 3]));
  }

  // ---- Code points ----

  /** One escape for a code unit that is no surrogate: the rune it names. */
  lemma UnitDecodes(u: nat, d: bytes, tail: bytes)
    requires Spells(d, u) && !Utf8.IsSurrogate(u)
    ensures DecodeBody(ESCAPE_U + d + tail) == Utf8.Encode(u) + DecodeBody(tail)
  {
    hide Spells, Hex4, Utf8.Encode;
    var s := EscapeAt(u, d, tail);
    DecodeUnfolds(s);
  }

  /** The string that begins with one escape, and where its parts are. */
  lemma EscapeAt(u: nat, d: bytes, tail: bytes) returns (s: bytes)
    requires Spells(d, u)
    ensures s == ESCAPE_U + d + tail && |s| == 6 + |tail|
    ensures s[0] == BACKSLASH && s[1] == ESC_U && Hex4(s, 2) == Some(u) && s[6..] == tail
  {
    s := ESCAPE_U + d + tail;
    assert s[2..6] == d;
    SpelledIsRead(s, 2, d, u);
  }

  /** Two escapes for a code point beyond the first 0x10000: its high half, then its low half. */
  lemma PairDecodes(cp: nat, high: bytes, low: bytes, tail: bytes)
    requires 0x10000 <= cp < 0x110000
    requires Spells(high, 0xD800 + (cp - 0x10000) / 0x400) && Spells(low, 0xDC00 + (cp - 0x10000) % 0x400)
    ensures DecodeBody(ESCAPE_U + high + (ESCAPE_U + low + tail)) == Utf8.Encode(cp) + DecodeBody(tail)
  {
    hide Spells, Hex4, Utf8.Encode;
    var h, l := 0xD800 + (cp - 0x10000) / 0x400, 0xDC00 + (cp - 0x10000) % 0x400;
    var rest := EscapeAt(l, low, tail);
    var s := EscapeAt(h, high, rest);
    HexShift(s, 6, 2);
    assert LowHalf(s, 6) == Some(l);
    assert s[12..] == rest[6..];
    assert Paired(h, l) == cp;
    DecodeUnfolds(s);
  }

  /** U+FFFD. */
  const REPLACEMENT_BYTES: bytes := [0xEF, 0xBF, 0xBD]

  lemma ReplacementIsEncoded()
    ensures Utf8.Encode(REPLACEMENT) == REPLACEMENT_BYTES
  {
  }

  lemma LowIsRead(s: bytes)
    requires LowHalf(s, 0).Some?
    ensures StartsWithLow(s)
  {
    hide Spells, Hex4;
    ReadIsSpelled(s, 2);
    var d := s[2..6];
    assert s[..6] == ESCAPE_U + d;
  }

  /** Half a pair: the replacement character, and what follows it is decoded on its own. */
  lemma LoneHalfDecodes(u: nat, d: bytes, tail: bytes)
    requires Spells(d, u) && Utf8.IsSurrogate(u)
    requires u <= 0xDBFF ==> !StartsWithLow(tail)
    ensures DecodeBody(ESCAPE_U + d + tail) == REPLACEMENT_BYTES + DecodeBody(tail)
  {
    hide Spells, Hex4, StartsWithLow, Utf8.Encode;
    var s := EscapeAt(u, d, tail);
    DecodeUnfolds(s);
    HexShift(s, 6, 2);
    if LowHalf(tail, 0).Some? {
      LowIsRead(tail);
    }
    assert LowHalf(s, 6) == LowHalf(tail, 0);
    ReplacementIsEncoded();
  }

  /** `\u` without four digits: the replacement character, and what follows `\u` is decoded on its own. */
  lemma BrokenEscapeDecodes(tail: bytes)
    requires |tail| < 4 || exists i | 0 <= i < 4 :: !IsHex(tail[i])
    ensures DecodeBody(ESCAPE_U + tail) == REPLACEMENT_BYTES + DecodeBody(tail)
  {
    hide IsHex, Utf8.Encode, Hex4, LowHalf, DecodeBody;
    var s := ESCAPE_U + tail;
    assert s[2..] == tail;
    HexShift(s, 2, 0);
    assert Hex4(tail, 0) == None by { BrokenIsNotRead(tail); }
    DecodeUnfolds(s);
    ReplacementIsEncoded();
  }

  lemma BrokenIsNotRead(s: bytes)
    requires |s| < 4 || exists i | 0 <= i < 4 :: !IsHex(s[i])
    ensures Hex4(s, 0) == None
  {
    hide IsHex, HexValue;
  }

  // ---- Letters and plain bytes ----

  /** Section 7: quote, backslash, slash, `b`, `f`, `n`, `r`, `t`, with what each stands for. */
  const LETTERS: seq<(byte, byte)> := [
    (0x22, 0x22), (0x5C, 0x5C), (0x2F, 0x2F), (0x62, 0x08), (0x66, 0x0C), (0x6E, 0x0A), (0x72, 0x0D), (0x74, 0x09)
  ]

  lemma LetterDecodes(k: nat, tail: bytes)
    requires k < |LETTERS|
    ensures IsSimpleEscape(LETTERS[k].0)
    ensures DecodeBody([BACKSLASH, LETTERS[k].0] + tail) == [LETTERS[k].1] + DecodeBody(tail)
  {
    var s := [BACKSLASH, LETTERS[k].0] + tail;
    assert s[2..] == tail;
    DecodeUnfolds(s);
  }

  /** A letter the grammar does not have stands for itself; a backslash at the end stands for nothing. */
  lemma OddEscapeDecodes(e: byte, tail: bytes)
    requires !IsSimpleEscape(e) && e != 0x75
    ensures DecodeBody([BACKSLASH, e] + tail) == [e] + DecodeBody(tail)
    ensures DecodeBody([BACKSLASH]) == []
  {
    var s := [BACKSLASH, e] + tail;
    assert s[2..] == tail;
    DecodeUnfolds(s);
  }

  /** Bytes without a backslash are decoded to themselves. */
  lemma {:induction false} PlainDecodes(raw: bytes, tail: bytes)
    requires BACKSLASH !in raw
    ensures DecodeBody(raw + tail) == raw + DecodeBody(tail)
    decreases |raw|
  {
    hide DecodeBody;
    if raw == [] {
      assert raw + tail == tail;
    } else {
      PlainDecodes(raw[1..], tail);
      assert raw == [raw[0]] + raw[1..];
      assert (raw + tail)[1..] == raw[1..] + tail;
      DecodeUnfolds(raw + tail);
    }
  }

  /** A literal in quotes is decoded from what stands between them; any other text is returned as it is. */
  lemma LiteralDecodes(text: bytes)
    ensures Decode([QUOTE] + text + [QUOTE]) == DecodeBody(text)
    ensures |text| < 2 || text[0] != QUOTE || text[|text| - 1] != QUOTE ==> Decode(text) == text
  {
    var q := [QUOTE] + text + [QUOTE];
    assert q[1..|q| - 1] == text;
  }

  // ---- What the encoder leaves alone ----

  /** Needs an escape of its own: a quote, a backslash or a control byte. */
  predicate NeedsEscape(b: byte) {
    b == QUOTE || b == BACKSLASH || b < 0x20
  }

  /** U+2028 or U+2029 stands at `i`. */
  predicate SeparatorAt(s: bytes, i: nat) {
    At(s, i, [0xE2, 0x80, 0xA8]) || At(s, i, [0xE2, 0x80, 0xA9])
  }

  /** Text that needs no escape is written as it is. */
  lemma {:induction false} PlainIsKept(raw: bytes)
    requires forall b <- raw :: !NeedsEscape(b)
    requires forall i: nat :: !SeparatorAt(raw, i)
    ensures Encode(raw, false) == raw
    decreases |raw|
  {
    hide LineSeparator, SeparatorAt;
    if raw != [] {
      var rest := raw[1..];
      assert !SeparatorAt(raw, 0);
      if LineSeparator(raw) {
        SeparatorStands(raw);
      }
      forall i: nat ensures !SeparatorAt(rest, i) {
        assert !SeparatorAt(raw, i + 1);
        if SeparatorAt(rest, i) {
          SeparatorShifts(raw, i);
        }
      }
      PlainIsKept(rest);
      assert !NeedsEscape(raw[0]);
      assert raw == [raw[0]] + rest;
    }
  }

  lemma SeparatorStands(s: bytes)
    requires LineSeparator(s)
    ensures SeparatorAt(s, 0)
  {
    assert s[..3] == [0xE2, 0x80, s[2]];
  }

  lemma SeparatorShifts(s: bytes, i: nat)
    requires s != [] && SeparatorAt(s[1..], i)
    ensures SeparatorAt(s, i + 1)
  {
    assert s[1..][i..i + 3] == s[i + 1..i + 4];
  }

  // ---- What the encoder writes ----

  /** The bytes in front of the rest, which is encoded on its own. */
  lemma EncodesUnit(raw: bytes, rest: bytes, n: nat)
    requires raw != [] && UnitLength(raw + rest) == n == |raw|
    ensures EncodeBody(raw + rest) == EncodedUnit(raw + rest) + EncodeBody(rest)
  {
    assert (raw + rest)[n..] == rest;
  }

  /** A byte that has a letter is written with it; the slash needs none. */
  lemma LetterIsWritten(k: nat, rest: bytes)
    requires k < |LETTERS| && LETTERS[k].0 != SLASH
    ensures EncodeBody([LETTERS[k].1] + rest) == [BACKSLASH, LETTERS[k].0] + EncodeBody(rest)
  {
    EncodesUnit([LETTERS[k].1], rest, 1);
  }

  /** Any other control byte is written as `\u00` and two digits in lower case. */
  lemma ControlIsWritten(b: byte, rest: bytes)
    requires b < 0x20 && forall k | 0 <= k < |LETTERS| :: LETTERS[k].1 != b
    ensures EncodeBody([b] + rest)
         == ESCAPE_U + [ZERO, ZERO, LOWER_DIGITS[b as int / 16], LOWER_DIGITS[b as int % 16]] + EncodeBody(rest)
  {
    EncodesUnit([b], rest, 1);
    DigitTables(b as int / 16);
    DigitTables(b as int % 16);
    assert LETTERS[3].1 == 0x08 && LETTERS[4].1 == 0x0C && LETTERS[5].1 == 0x0A && LETTERS[6].1 == 0x0D && LETTERS[7].1 == 0x09;
  }

  /** The line and paragraph separators are written as `\u2028` and `\u2029`. */
  lemma SeparatorIsWritten(last: byte, rest: bytes)
    requires last == 0xA8 || last == 0xA9
    ensures EncodeBody([0xE2, 0x80, last] + rest) == Ascii(if last == 0xA8 then "\\u2028" else "\\u2029") + EncodeBody(rest)
  {
    EncodesUnit([0xE2, 0x80, last], rest, 3);
  }

  /** An output byte outside ASCII is the input byte there, with the rest encoded on its own. */
  lemma HighByteIsCopied(raw: bytes)
    requires EncodeBody(raw) != [] && EncodeBody(raw)[0] > 0x7F
    ensures raw != [] && raw[0] == EncodeBody(raw)[0] && EncodeBody(raw) == [raw[0]] + EncodeBody(raw[1..]) && !LineSeparator(raw)
  {
    hide EncodedUnit, LineSeparator, UnitLength;
    UnitIsAscii(raw);
    HighUnit(raw);
  }

  lemma HighUnit(raw: bytes)
    requires raw != [] && EncodedUnit(raw)[0] > 0x7F
    ensures EncodedUnit(raw) == [raw[0]] && UnitLength(raw) == 1 && !LineSeparator(raw)
  {
    hide LineSeparator;
  }

  lemma SeparatorNotFirst(raw: bytes)
    ensures !SeparatorAt(EncodeBody(raw), 0)
  {
    hide EncodeBody;
    var e := EncodeBody(raw);
    if SeparatorAt(e, 0) {
      FirstThree(e);
      HighByteIsCopied(raw);
      assert e[1] == EncodeBody(raw[1..])[0];
      HighByteIsCopied(raw[1..]);
      assert e[2] == EncodeBody(raw[1..][1..])[0];
      HighByteIsCopied(raw[1..][1..]);
    }
  }

  lemma FirstThree(e: bytes)
    requires SeparatorAt(e, 0)
    ensures |e| >= 3 && e[0] == 0xE2 && e[1] == 0x80 && (e[2] == 0xA8 || e[2] == 0xA9)
  {
    var part := e[..3];
    assert e[0] == part[0] && e[1] == part[1] && e[2] == part[2];
  }

  /** Encoded text holds no separator, even across units. */
  lemma {:induction false} EncodedHasNoSeparator(raw: bytes, i: nat)
    ensures !SeparatorAt(EncodeBody(raw), i)
    decreases i
  {
    hide LineSeparator, SeparatorAt;
    SeparatorNotFirst(raw);
    if i > 0 && SeparatorAt(EncodeBody(raw), i) {
      StartsHigh(EncodeBody(raw), i);
      var u, n := EncodedUnit(raw), UnitLength(raw);
      var rest := EncodeBody(raw[n..]);
      UnitIsAscii(raw);
      assert |u| <= i;
      SeparatorInRest(u, rest, i);
      EncodedHasNoSeparator(raw[n..], i - |u|);
    }
  }

  lemma StartsHigh(e: bytes, i: nat)
    requires SeparatorAt(e, i)
    ensures i < |e| && e[i] == 0xE2
  {
    assert e[i] == e[i..i + 3][0];
  }

  lemma UnitIsAscii(raw: bytes)
    requires raw != []
    ensures |EncodedUnit(raw)| > 1 ==> forall b <- EncodedUnit(raw) :: b <= 0x7F
    ensures EncodedUnit(raw) != []
  {
  }

  lemma SeparatorInRest(u: bytes, rest: bytes, i: nat)
    requires |u| <= i && SeparatorAt(u + rest, i)
    ensures SeparatorAt(rest, i - |u|)
  {
    assert i + 3 <= |u + rest| ==> (u + rest)[i..i + 3] == rest[i - |u|..i - |u| + 3];
  }
}
