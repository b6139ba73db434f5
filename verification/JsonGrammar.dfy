/**
 The JSON grammar of RFC 8259 (sections 2 to 7) at byte level, as concrete syntax trees
 that keep every byte of the text: a document is valid exactly when it is the flattening
 of a well-formed tree between two runs of white space. Nothing here scans: this is the
 independent reading the scanners of Json.hpp are proved against.
 */
module JsonGrammar {
  import opened Bytes

  datatype Kind = ArrayKind | ObjectKind

  /** A value: a scalar (literal name, number or string, with its exact bytes) or a container. */
  datatype Json =
    | Scalar(text: bytes)
    | Container(kind: Kind, members: Members)

  /** One element of an array, or one member of an object (then `key` and `colon` are not empty). */
  datatype Member = Member(pre: bytes, key: bytes, colon: bytes, value: Json, post: bytes)

  /** What stands between an opening bracket and its closing one. */
  datatype Members =
    | Blank(pad: bytes)
    | Last(m: Member)
    | More(m: Member, rest: Members)

  function Open(kind: Kind): byte {
    if kind.ArrayKind? then LBRACKET else LBRACE
  }

  function Close(kind: Kind): byte {
    if kind.ArrayKind? then RBRACKET else RBRACE
  }

  // ---- The bytes of a tree ----

  function Flat(t: Json): bytes
    decreases t, 0
  {
    match t
    case Scalar(text) => text
    case Container(kind, ms) => [Open(kind)] + FlatMembers(kind, ms)
  }

  /** Everything after the opening bracket, the closing bracket included. */
  function FlatMembers(kind: Kind, ms: Members): bytes
    decreases ms, 2
  {
    match ms
    case Blank(pad) => pad + [Close(kind)]
    case Last(m) => FlatMember(m) + [Close(kind)]
    case More(m, rest) => FlatMember(m) + [COMMA] + FlatMembers(kind, rest)
  }

  function FlatMember(m: Member): bytes
    decreases m, 1
  {
    Lead(m) + Flat(m.value) + m.post
  }

  /** The bytes of a member that come before its value. */
  function Lead(m: Member): bytes {
    m.pre + m.key + m.colon
  }

  // ---- Lexical rules ----

  predicate IsWs(b: byte) {
    b == SPACE || b == TAB || b == LF || b == CR
  }

  predicate Ws(s: bytes) {
    forall b <- s :: IsWs(b)
  }

  predicate IsHex(b: byte) {
    IsDigit(b) || 0x61 <= b <= 0x66 || 0x41 <= b <= 0x46
  }

  /** `"`, `\`, `/`, `b`, `f`, `n`, `r`, `t`. */
  predicate IsSimpleEscape(b: byte) {
    b == QUOTE || b == BACKSLASH || b == SLASH || b == 0x62 || b == 0x66 || b == 0x6E || b == 0x72 || b == 0x74
  }

  /** The rule `*char` of section 7. */
  predicate Chars(s: bytes) {
    s == []
    || (s[0] != QUOTE && s[0] != BACKSLASH && s[0] >= 0x20 && Chars(s[1..]))
    || (|s| >= 2 && s[0] == BACKSLASH && IsSimpleEscape(s[1]) && Chars(s[2..]))
    || (|s| >= 6 && IsUnicodeEscape(s[..6]) && Chars(s[6..]))
  }

  predicate IsUnicodeEscape(s: bytes) {
    |s| == 6 && s[0] == BACKSLASH && s[1] == 0x75 && forall i | 2 <= i < 6 :: IsHex(s[i])
  }

  predicate IsString(s: bytes) {
    |s| >= 2 && s[0] == QUOTE && s[|s| - 1] == QUOTE && Chars(s[1..|s| - 1])
  }

  predicate Digits(s: bytes) {
    |s| > 0 && forall b <- s :: IsDigit(b)
  }

  predicate IsIntPart(s: bytes) {
    s == [ZERO] || (Digits(s) && s[0] != ZERO)
  }

  predicate IsFraction(s: bytes) {
    s == [] || (s[0] == DOT && Digits(s[1..]))
  }

  predicate IsExponent(s: bytes) {
    s == [] || ((s[0] == LOWER_E || s[0] == UPPER_E)
                && (Digits(s[1..]) || (|s| >= 2 && (s[1] == PLUS || s[1] == MINUS) && Digits(s[2..]))))
  }

  predicate IsMinus(s: bytes) {
    s == [] || s == [MINUS]
  }

  /** The four parts of a number, in order (section 6). */
  datatype NumberParts = NumberParts(minus: bytes, int_: bytes, frac: bytes, exp: bytes) {
    predicate Valid() {
      IsMinus(minus) && IsIntPart(int_) && IsFraction(frac) && IsExponent(exp)
    }

    function Text(): bytes {
      minus + int_ + frac + exp
    }
  }

  ghost predicate IsNumber(s: bytes) {
    exists parts: NumberParts :: parts.Valid() && parts.Text() == s
  }

  const TRUE: bytes := [0x74, 0x72, 0x75, 0x65]
  const FALSE: bytes := [0x66, 0x61, 0x6C, 0x73, 0x65]
  const NULL: bytes := [0x6E, 0x75, 0x6C, 0x6C]

  ghost predicate IsScalar(s: bytes) {
    IsString(s) || IsNumber(s) || s == TRUE || s == FALSE || s == NULL
  }

  /** The name separator with the white space around it. */
  ghost predicate IsColon(s: bytes) {
    exists a: bytes, b: bytes :: Ws(a) && Ws(b) && s == a + [COLON] + b
  }

  // ---- Well-formed trees ----

  ghost predicate Wf(t: Json)
    decreases t, 0
  {
    match t
    case Scalar(text) => IsScalar(text)
    case Container(kind, ms) => WfMembers(kind, ms)
  }

  ghost predicate WfMembers(kind: Kind, ms: Members)
    decreases ms, 2
  {
    match ms
    case Blank(pad) => Ws(pad)
    case Last(m) => WfMember(kind, m)
    case More(m, rest) => WfMember(kind, m) && !rest.Blank? && WfMembers(kind, rest)
  }

  ghost predicate WfMember(kind: Kind, m: Member)
    decreases m, 1
  {
    && Ws(m.pre) && Ws(m.post) && Wf(m.value)
    && (if kind.ArrayKind? then m.key == [] && m.colon == [] else IsString(m.key) && IsColon(m.colon))
  }

  /** `doc` is white space, the value `t`, and white space. */
  ghost predicate IsText(doc: bytes, pre: bytes, t: Json, post: bytes) {
    Ws(pre) && Wf(t) && Ws(post) && doc == pre + Flat(t) + post
  }

  /** A JSON-text. */
  ghost predicate IsJsonText(doc: bytes) {
    exists pre, t, post :: IsText(doc, pre, t, post)
  }

  predicate IsStr(t: Json) {
    t.Scalar? && |t.text| > 0 && t.text[0] == QUOTE
  }

  // ---- Small facts ----

  lemma FlatNonEmpty(t: Json)
    requires Wf(t)
    ensures |Flat(t)| > 0
    ensures !IsWs(Flat(t)[0])
    ensures Flat(t)[0] != COMMA && Flat(t)[0] != COLON && Flat(t)[0] != RBRACKET && Flat(t)[0] != RBRACE
    ensures Flat(t)[0] == QUOTE <==> IsStr(t)
    ensures Flat(t)[0] == LBRACKET <==> t.Container? && t.kind.ArrayKind?
    ensures Flat(t)[0] == LBRACE <==> t.Container? && t.kind.ObjectKind?
  {
    match t
    case Scalar(text) =>
      if IsNumber(text) {
        var parts: NumberParts :| parts.Valid() && parts.Text() == text;
        assert text[0] == (parts.minus + parts.int_)[0];
        assert parts.int_[0] in parts.int_;
      }
    case Container(_, _) =>
  }
}
