/** The UTF-8 encoding form (RFC 3629, section 3), as Json.hpp's append_utf8 writes it. */
module Utf8 {
  import opened Bytes
  import opened Runes

  /** The bytes of one code point. */
  function Encode(cp: nat): (r: bytes)
    requires cp < 0x110000
    ensures 1 <= |r| <= 4
  {
    if cp <= 0x7F then [cp as byte]
    else if cp <= 0x7FF then [(0xC0 + cp / 0x40) as byte, Cont(cp)]
    else if cp <= 0xFFFF then [(0xE0 + cp / 0x1000) as byte, Cont(cp / 0x40), Cont(cp)]
    else [(0xF0 + cp / 0x40000) as byte, Cont(cp / 0x1000), Cont(cp / 0x40), Cont(cp)]
  }

  /** A continuation byte holding the six low bits of `x`. */
  function Cont(x: nat): byte {
    (0x80 + x % 0x40) as byte
  }

  predicate IsSurrogate(cp: nat) {
    0xD800 <= cp <= 0xDFFF
  }

  /** Shifting by twelve or eighteen bits is shifting by six, twice or three times. */
  lemma Sixes(x: nat)
    ensures x / 0x1000 == x / 0x40 / 0x40 && x / 0x40000 == x / 0x40 / 0x40 / 0x40
  {
  }

  /** A scalar value is encoded as the one rune that has it. */
  lemma EncodesRune(cp: nat)
    requires cp < 0x110000 && !IsSurrogate(cp)
    ensures IsRune(Encode(cp)) && CodePoint(Encode(cp)) == cp
  {
    hide RuneLength;
    var r := Encode(cp);
    var a := cp / 0x40;
    var b := a / 0x40;
    var c := b / 0x40;
    Sixes(cp);
    Sixes(a);
    assert cp == a * 0x40 + cp % 0x40 && a == b * 0x40 + a % 0x40 && b == c * 0x40 + b % 0x40;
    assert RuneLength(r) == |r| by { EncodesWhole(cp, a, b, c); }
  }

  lemma EncodesWhole(cp: nat, a: nat, b: nat, c: nat)
    requires cp < 0x110000 && !IsSurrogate(cp)
    requires a == cp / 0x40 && b == cp / 0x1000 && c == cp / 0x40000
    requires cp == a * 0x40 + cp % 0x40 && a == b * 0x40 + a % 0x40 && b == c * 0x40 + b % 0x40
    ensures RuneLength(Encode(cp)) == |Encode(cp)|
  {
    var r := Encode(cp);
    if cp <= 0x7FF {
    } else if cp <= 0xFFFF {
      assert r[0] as int == 0xE0 + b && r[1] as int == 0x80 + a % 0x40 && IsTail(r[2]);
      assert SecondOfThree(r[0], r[1]);
    } else {
      assert r[0] as int == 0xF0 + c && r[1] as int == 0x80 + b % 0x40 && IsTail(r[2]) && IsTail(r[3]);
      assert SecondOfFour(r[0], r[1]);
    }
  }

  /** Every rune is the encoding of its own code point, which is a scalar value. */
  lemma RuneIsEncoded(r: bytes)
    requires IsRune(r)
    ensures 0 <= CodePoint(r) < 0x110000 && !IsSurrogate(CodePoint(r)) && Encode(CodePoint(r)) == r
  {
    hide Encode, RuneLength, CodePoint;
    ScalarLead(r);
    if |r| <= 2 {
      ShortRune(r);
    } else if |r| == 3 {
      ThreeBytes(r);
    } else {
      FourBytes(r);
    }
  }

  lemma ShortRune(r: bytes)
    requires IsRune(r) && |r| <= 2
    ensures Encode(CodePoint(r)) == r
  {
    CodePointRange(r);
  }

  lemma ThreeBytes(r: bytes)
    requires IsRune(r) && |r| == 3 && 0xE0 <= r[0] <= 0xEF
    ensures Encode(CodePoint(r)) == r
  {
    hide RuneLength;
    CodePointRange(r);
    RuneBytes(r);
    EncodesBack(r[0] as int - 0xE0, r[1] as int - 0x80, r[2] as int - 0x80);
  }

  lemma FourBytes(r: bytes)
    requires IsRune(r) && |r| == 4 && 0xF0 <= r[0] <= 0xF4
    ensures CodePoint(r) < 0x110000 ==> Encode(CodePoint(r)) == r
  {
    hide RuneLength;
    CodePointRange(r);
    RuneBytes(r);
    EncodesBack((r[0] as int - 0xF0) * 0x40 + (r[1] as int - 0x80), r[2] as int - 0x80, r[3] as int - 0x80);
    Sixes(CodePoint(r));
  }

  /** The lead bytes by length, and no surrogate or code point beyond the last. */
  lemma ScalarLead(r: bytes)
    requires IsRune(r)
    ensures |r| <= 4 && 0 <= CodePoint(r) < 0x110000 && !IsSurrogate(CodePoint(r))
    ensures |r| == 2 ==> 0xC2 <= r[0] <= 0xDF
    ensures |r| == 3 ==> 0xE0 <= r[0] <= 0xEF
    ensures |r| == 4 ==> 0xF0 <= r[0] <= 0xF4
  {
  }

  lemma EncodesBack(b: nat, y: nat, z: nat)
    requires y < 0x40 && z < 0x40
    ensures var cp := b * 0x1000 + y * 0x40 + z;
      cp / 0x1000 == b && cp / 0x40 == b * 0x40 + y && cp / 0x40 % 0x40 == y && cp % 0x40 == z
  {
  }
}
