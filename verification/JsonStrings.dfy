/**
 String literals: Json.hpp's encode_string and decode_string. Decoding undoes encoding
 on every byte string, and what is encoded is one string literal of the grammar.
 */
module JsonStrings {
  import opened Bytes
  import Utf8
  import opened JsonGrammar

  // ---- Encoding ----

  const ESC_B: byte := 0x62
  const ESC_F: byte := 0x66
  const ESC_N: byte := 0x6E
  const ESC_R: byte := 0x72
  const ESC_T: byte := 0x74
  const ESC_U: byte := 0x75

  function HexDigit(x: nat): byte
    requires x < 16
  {
    if x < 10 then (0x30 + x) as byte else (0x61 + (x - 10)) as byte
  }

  /** U+2028 or U+2029 (E2 80 A8, E2 80 A9) stands at the front. */
  predicate LineSeparator(s: bytes) {
    |s| >= 3 && s[0] == 0xE2 && s[1] == 0x80 && (s[2] == 0xA8 || s[2] == 0xA9)
  }

  /** How many bytes of `raw` the next step of encode_string takes. */
  function UnitLength(raw: bytes): (n: nat)
    requires raw != []
    ensures 1 <= n <= |raw|
  {
    if LineSeparator(raw) then 3 else 1
  }

  /** What that step appends. */
  function EncodedUnit(raw: bytes): bytes
    requires raw != []
  {
    var c := raw[0];
    if c == QUOTE then [BACKSLASH, QUOTE]
    else if c == BACKSLASH then [BACKSLASH, BACKSLASH]
    else if c == 0x08 then [BACKSLASH, ESC_B]
    else if c == 0x0C then [BACKSLASH, ESC_F]
    else if c == LF then [BACKSLASH, ESC_N]
    else if c == CR then [BACKSLASH, ESC_R]
    else if c == TAB then [BACKSLASH, ESC_T]
    else if c < 0x20 then [BACKSLASH, ESC_U, ZERO, ZERO, HexDigit(c as int / 16), HexDigit(c as int % 16)]
    else if LineSeparator(raw) then
      [BACKSLASH, ESC_U, 0x32, 0x30, 0x32, if raw[2] == 0xA8 then 0x38 else 0x39]
    else [c]
  }

  function EncodeBody(raw: bytes): bytes {
    if raw == [] then [] else EncodedUnit(raw) + EncodeBody(raw[UnitLength(raw)..])
  }

  function Encode(raw: bytes, withQuotes: bool): bytes {
    if withQuotes then [QUOTE] + EncodeBody(raw) + [QUOTE] else EncodeBody(raw)
  }

  /** The body of encode_string's loop: what is appended for the bytes at `i`, and how many it takes. */
  method EncodeUnit(raw: bytes, i: nat) returns (unit: bytes, used: nat)
    requires i < |raw|
    ensures unit == EncodedUnit(raw[i..]) && used == UnitLength(raw[i..])
  {
    var c := raw[i];
    used := 1;
    if c == QUOTE {
      unit := [BACKSLASH, QUOTE];
    } else if c == BACKSLASH {
      unit := [BACKSLASH, BACKSLASH];
    } else if c == 0x08 {
      unit := [BACKSLASH, ESC_B];
    } else if c == 0x0C {
      unit := [BACKSLASH, ESC_F];
    } else if c == LF {
      unit := [BACKSLASH, ESC_N];
    } else if c == CR {
      unit := [BACKSLASH, ESC_R];
    } else if c == TAB {
      unit := [BACKSLASH, ESC_T];
    } else if c < 0x20 {
      unit := [BACKSLASH, ESC_U, ZERO, ZERO, HexDigit(c as int / 16), HexDigit(c as int % 16)];
    } else if c == 0xE2 && i + 2 < |raw| && raw[i + 1] == 0x80 && (raw[i + 2] == 0xA8 || raw[i + 2] == 0xA9) {
      unit := [BACKSLASH, ESC_U, 0x32, 0x30, 0x32, if raw[i + 2] == 0xA8 then 0x38 else 0x39];
      used := 3;
    } else {
      unit := [c];
    }
  }

  method EncodeString(raw: bytes, withQuotes: bool) returns (out: bytes)
    ensures out == Encode(raw, withQuotes)
  {
    hide LineSeparator, EncodedUnit;
    out := if withQuotes then [QUOTE] else [];
    ghost var head := out;
    var i := 0;
    while i < |raw|
      invariant i <= |raw|
      invariant out + EncodeBody(raw[i..]) == head + EncodeBody(raw)
    {
      ghost var rest := raw[i..];
      var unit, used := EncodeUnit(raw, i);
      out := out + unit;
      i := i + used;
      assert raw[i..] == rest[used..];
    }
    assert raw[i..] == [];
    assert out == head + EncodeBody(raw);
    if withQuotes {
      out := out + [QUOTE];
    }
  }

  // ---- Decoding ----

  function HexValue(b: byte): (v: nat)
    requires IsHex(b)
    ensures v < 16
  {
    if IsDigit(b) then b as int - 0x30 else if b >= 0x61 then b as int - 0x61 + 10 else b as int - 0x41 + 10
  }

  /** The code unit written by the four hexadecimal digits at `p`, if they are there. */
  function Hex4(s: bytes, p: nat): (r: Option<nat>)
    ensures r.Some? ==> p + 4 <= |s| && r.value < 0x10000
  {
    if p + 4 <= |s| && IsHex(s[p]) && IsHex(s[p + 1]) && IsHex(s[p + 2]) && IsHex(s[p + 3])
    then Some(((HexValue(s[p]) * 16 + HexValue(s[p + 1])) * 16 + HexValue(s[p + 2])) * 16 + HexValue(s[p + 3]))
    else None
  }

  predicate IsHighSurrogate(u: nat) {
    0xD800 <= u <= 0xDBFF
  }

  predicate IsLowSurrogate(u: nat) {
    0xDC00 <= u <= 0xDFFF
  }

  const REPLACEMENT: nat := 0xFFFD

  /** The low surrogate of a pair whose second escape starts at `p`. */
  function LowHalf(s: bytes, p: nat): (r: Option<nat>)
    ensures r.Some? ==> p + 6 <= |s| && IsLowSurrogate(r.value)
  {
    if p + 1 < |s| && s[p] == BACKSLASH && s[p + 1] == ESC_U && Hex4(s, p + 2).Some? && IsLowSurrogate(Hex4(s, p + 2).value)
    then Hex4(s, p + 2)
    else None
  }

  function Paired(high: nat, low: nat): (cp: nat)
    requires IsHighSurrogate(high) && IsLowSurrogate(low)
    ensures 0x10000 <= cp < 0x110000
  {
    0x10000 + (high - 0xD800) * 0x400 + (low - 0xDC00)
  }

  /** What follows `\u` at the front of `s`: the code point to append and the bytes taken. */
  function UnicodeEscape(s: bytes): (r: (nat, nat))
    requires |s| >= 2
    ensures r.0 < 0x110000 && 2 <= r.1 <= |s|
  {
    match Hex4(s, 2)
    case None => (REPLACEMENT, 2)
    case Some(u) =>
      if IsHighSurrogate(u) then
        match LowHalf(s, 6)
        case None => (REPLACEMENT, 6)
        case Some(low) => (Paired(u, low), 12)
      else if IsLowSurrogate(u) then (REPLACEMENT, 6)
      else (u, 6)
  }

  /** The byte an escape letter stands for; an unknown letter stands for itself. */
  function Unescaped(e: byte): byte {
    if e == ESC_B then 0x08
    else if e == ESC_F then 0x0C
    else if e == ESC_N then LF
    else if e == ESC_R then CR
    else if e == ESC_T then TAB
    else e
  }

  function DecodeBody(s: bytes): bytes
    decreases |s|
  {
    if s == [] then []
    else if s[0] != BACKSLASH then [s[0]] + DecodeBody(s[1..])
    else if |s| == 1 then []
    else if s[1] == ESC_U then Utf8.Encode(UnicodeEscape(s).0) + DecodeBody(s[UnicodeEscape(s).1..])
    else [Unescaped(s[1])] + DecodeBody(s[2..])
  }

  function Decode(quoted: bytes): bytes {
    if |quoted| < 2 || quoted[0] != QUOTE || quoted[|quoted| - 1] != QUOTE then quoted
    else DecodeBody(quoted[1..|quoted| - 1])
  }

  method ReadHex4(body: bytes, p: nat) returns (r: Option<nat>)
    ensures r == Hex4(body, p)
  {
    if p + 4 > |body| {
      return None;
    }
    var v := 0;
    var i := 0;
    while i < 4
      invariant 0 <= i <= 4
      invariant forall j | p <= j < p + i :: IsHex(body[j])
      invariant i == 0 ==> v == 0
      invariant i == 1 ==> v == HexValue(body[p])
      invariant i == 2 ==> v == HexValue(body[p]) * 16 + HexValue(body[p + 1])
      invariant i == 3 ==> v == (HexValue(body[p]) * 16 + HexValue(body[p + 1])) * 16 + HexValue(body[p + 2])
      invariant i == 4 ==> Some(v) == Hex4(body, p)
    {
      if !IsHex(body[p + i]) {
        return None;
      }
      v := v * 16 + HexValue(body[p + i]);
      i := i + 1;
    }
    return Some(v);
  }

  method DecodeString(quoted: bytes) returns (out: bytes)
    ensures out == Decode(quoted)
  {
    hide Utf8.Encode, UnicodeEscape, DecodeBody;
    if |quoted| < 2 || quoted[0] != QUOTE || quoted[|quoted| - 1] != QUOTE {
      return quoted;
    }
    var body := quoted[1..|quoted| - 1];
    out := [];
    var i := 0;
    while i < |body|
      invariant i <= |body|
      invariant out + DecodeBody(body[i..]) == DecodeBody(body)
      decreases |body| - i
    {
      ghost var rest, before := body[i..], out;
      DecodeUnfolds(rest);
      var c := body[i];
      var start := i;
      i := i + 1;
      if c != BACKSLASH {
        out := out + [c];
      } else if i >= |body| {
        break;
      } else if body[i] == ESC_U {
        var cp, used := DecodeUnicode(body, start);
        out := out + Utf8.Encode(cp);
        i := start + used;
      } else {
        out := out + [Unescaped(body[i])];
        i := i + 1;
      }
      assert body[i..] == rest[i - start..];
      assert out + DecodeBody(body[i..]) == before + DecodeBody(rest);
    }
    DecodeNothing();
    assert body[|body|..] == [];
  }

  /** DecodeBody's definition on a non-empty body. */
  lemma DecodeUnfolds(s: bytes)
    requires s != []
    ensures s[0] != BACKSLASH ==> DecodeBody(s) == [s[0]] + DecodeBody(s[1..])
    ensures s[0] == BACKSLASH && |s| == 1 ==> DecodeBody(s) == []
    ensures s[0] == BACKSLASH && |s| > 1 && s[1] == ESC_U ==>
      DecodeBody(s) == Utf8.Encode(UnicodeEscape(s).0) + DecodeBody(s[UnicodeEscape(s).1..])
    ensures s[0] == BACKSLASH && |s| > 1 && s[1] != ESC_U ==> DecodeBody(s) == [Unescaped(s[1])] + DecodeBody(s[2..])
  {
    hide Utf8.Encode, UnicodeEscape;
  }

  /** The surrogate logic of decode_string's `\u` case; `start` is at the backslash. */
  method DecodeUnicode(body: bytes, start: nat) returns (cp: nat, used: nat)
    requires start + 2 <= |body|
    ensures (cp, used) == UnicodeEscape(body[start..])
  {
    ghost var s := body[start..];
    var i := start + 2;
    var h1 := ReadHex4(body, i);
    HexShift(body, start, 2);
    if h1.None? {
      return REPLACEMENT, 2;
    }
    var r := h1.value;
    i := i + 4;
    if IsHighSurrogate(r) {
      if i + 1 < |body| && body[i] == BACKSLASH && body[i + 1] == ESC_U {
        var h2 := ReadHex4(body, i + 2);
        HexShift(body, start, 8);
        if h2.Some? && IsLowSurrogate(h2.value) {
          return 0x10000 + (r - 0xD800) * 0x400 + (h2.value - 0xDC00), 12;
        }
      }
      return REPLACEMENT, 6;
    }
    if IsLowSurrogate(r) {
      return REPLACEMENT, 6;
    }
    return r, 6;
  }

  lemma HexShift(body: bytes, start: nat, p: nat)
    requires start <= |body|
    ensures Hex4(body, start + p) == Hex4(body[start..], p)
  {
  }

  // ---- Encode then decode ----

  lemma {:induction false} DecodeEncodeBody(raw: bytes)
    ensures DecodeBody(EncodeBody(raw)) == raw
    decreases |raw|
  {
    hide DecodeBody, EncodedUnit, LineSeparator;
    if raw != [] {
      var n := UnitLength(raw);
      var rest := raw[n..];
      DecodeEncodeBody(rest);
      DecodeUnit(raw, EncodeBody(rest));
      assert raw == raw[..n] + rest;
    } else {
      assert DecodeBody([]) == [] by { DecodeNothing(); }
    }
  }

  lemma DecodeNothing()
    ensures DecodeBody([]) == []
  {
  }

  /** An encoded unit decodes to the bytes it was made from, whatever follows it. */
  lemma DecodeUnit(raw: bytes, tail: bytes)
    requires raw != []
    ensures DecodeBody(EncodedUnit(raw) + tail) == raw[..UnitLength(raw)] + DecodeBody(tail)
  {
    var u := EncodedUnit(raw);
    var s := u + tail;
    assert s[|u|..] == tail;
    if |u| == 6 {
      assert s[0] == BACKSLASH && s[1] == ESC_U;
      DecodeEscape(raw, s);
      assert UnicodeEscape(s).1 == 6;
    } else {
      assert s[0] == u[0];
      assert raw[..1] == [raw[0]];
    }
  }

  lemma DecodeEscape(raw: bytes, s: bytes)
    requires raw != [] && |EncodedUnit(raw)| == 6 && EncodedUnit(raw) <= s
    ensures UnicodeEscape(s).1 == 6 && Utf8.Encode(UnicodeEscape(s).0) == raw[..UnitLength(raw)]
  {
    var u := EncodedUnit(raw);
    assert s[2] == u[2] && s[3] == u[3] && s[4] == u[4] && s[5] == u[5];
    var c := raw[0] as int;
    if c < 0x20 {
      assert Hex4(s, 2) == Some(c);
      assert Utf8.Encode(c) == [raw[0]];
      assert raw[..1] == [raw[0]];
    } else {
      assert Hex4(s, 2) == Some(if raw[2] == 0xA8 then 0x2028 else 0x2029);
      assert raw[..3] == [raw[0], raw[1], raw[2]];
    }
  }

  lemma {:induction false} EncodedChars(raw: bytes)
    ensures Chars(EncodeBody(raw))
    decreases |raw|
  {
    if raw != [] {
      var u := EncodedUnit(raw);
      var tail := EncodeBody(raw[UnitLength(raw)..]);
      EncodedChars(raw[UnitLength(raw)..]);
      var s := u + tail;
      assert s[|u|..] == tail;
      if |u| == 6 {
        assert s[..6] == u;
        assert IsUnicodeEscape(u);
      }
    }
  }

  /** For every byte string: the encoding is one string literal, and it decodes to that string. */
  lemma EncodeDecode(raw: bytes)
    ensures IsString(Encode(raw, true))
    ensures Decode(Encode(raw, true)) == raw
  {
    var q := Encode(raw, true);
    assert q[1..|q| - 1] == EncodeBody(raw);
    EncodedChars(raw);
    DecodeEncodeBody(raw);
  }
}
