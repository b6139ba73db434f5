/** Byte strings, and the few facts about slices of them that the other modules share. */
module Bytes {

  newtype byte = x: int | 0 <= x < 256

  type bytes = seq<byte>

  datatype Option<+T> = None | Some(value: T)

  datatype Result<+T, +E> = Ok(value: T) | Err(error: E)

  // The ASCII bytes the scanners branch on.
  const TAB: byte := 0x09
  const LF: byte := 0x0A
  const CR: byte := 0x0D
  const SPACE: byte := 0x20
  const QUOTE: byte := 0x22
  const PLUS: byte := 0x2B
  const COMMA: byte := 0x2C
  const MINUS: byte := 0x2D
  const DOT: byte := 0x2E
  const SLASH: byte := 0x2F
  const ZERO: byte := 0x30
  const NINE: byte := 0x39
  const COLON: byte := 0x3A
  const LESS: byte := 0x3C
  const GREATER: byte := 0x3E
  const UPPER_E: byte := 0x45
  const LBRACKET: byte := 0x5B
  const BACKSLASH: byte := 0x5C
  const RBRACKET: byte := 0x5D
  const UNDERSCORE: byte := 0x5F
  const LOWER_E: byte := 0x65
  const LBRACE: byte := 0x7B
  const RBRACE: byte := 0x7D

  /** The bytes of an ASCII literal. */
  function Ascii(s: string): (r: bytes)
    requires forall i | 0 <= i < |s| :: s[i] as int < 128
    ensures |r| == |s| && forall i | 0 <= i < |s| :: r[i] as int == s[i] as int
  {
    seq(|s|, i requires 0 <= i < |s| => s[i] as int as byte)
  }

  /** `part` stands in `s` at offset `pos`. */
  predicate At<T(==)>(s: seq<T>, pos: nat, part: seq<T>) {
    pos + |part| <= |s| && s[pos..pos + |part|] == part
  }

  predicate IsDigit(b: byte) {
    ZERO <= b <= NINE
  }

  lemma AtSplit<T>(s: seq<T>, pos: nat, a: seq<T>, b: seq<T>)
    requires At(s, pos, a + b)
    ensures At(s, pos, a)
    ensures At(s, pos + |a|, b)
  {
    var whole := s[pos..pos + |a + b|];
    assert whole[..|a|] == a;
    assert whole[|a|..] == b;
  }

  lemma AtByte<T>(s: seq<T>, pos: nat, part: seq<T>, i: nat)
    requires At(s, pos, part) && i < |part|
    ensures s[pos + i] == part[i]
  {
  }

  lemma AtSlice<T>(s: seq<T>, pos: nat, part: seq<T>, i: nat, j: nat)
    requires At(s, pos, part) && i <= j <= |part|
    ensures At(s, pos + i, part[i..j])
  {
    var mid := s[pos + i..pos + j];
    assert |mid| == |part[i..j]|;
    forall k | 0 <= k < j - i ensures mid[k] == part[i..j][k] {
      AtByte(s, pos, part, i + k);
    }
  }

  lemma AtMeans<T>(s: seq<T>, pos: nat, part: seq<T>)
    requires At(s, pos, part)
    ensures pos + |part| <= |s| && s[pos..pos + |part|] == part
  {
  }

  lemma Join4<T>(s: seq<T>, a: nat, b: nat, c: nat, d: nat, e: nat)
    requires a <= b <= c <= d <= e <= |s|
    ensures s[a..b] + s[b..c] + s[c..d] + s[d..e] == s[a..e]
  {
    assert s[a..b] + s[b..c] == s[a..c];
    assert s[a..c] + s[c..d] == s[a..d];
    assert s[a..d] + s[d..e] == s[a..e];
  }

  lemma SliceHead<T>(s: seq<T>, a: nat, b: nat)
    requires a < b <= |s|
    ensures s[a..b] == [s[a]] + s[a + 1..b]
  {
  }

  lemma SliceJoin<T>(s: seq<T>, a: nat, b: nat, c: nat)
    requires a <= b <= c <= |s|
    ensures s[a..b] + s[b..c] == s[a..c]
  {
  }

  lemma DropDrop<T>(s: seq<T>, a: nat, b: nat)
    requires a + b <= |s|
    ensures s[a..][b..] == s[a + b..]
    ensures s[..a + b] == s[..a] + s[a..][..b]
    ensures s[a..] == s[a..][..b] + s[a + b..]
  {
  }

  lemma Join3<T>(a: seq<T>, b: seq<T>, c: seq<T>)
    ensures (a + b) + c == a + (b + c)
  {
  }
}
