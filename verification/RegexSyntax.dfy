/**
 The regex subset that Prefilter.hpp and PlaceholderRegex.hpp read, as syntax trees that
 keep every byte of the pattern, and which of the trees are patterns of the documented
 subset. Nothing here scans.
 */
module RegexSyntax {
  import opened Bytes
  import opened Runes

  const LPAREN: byte := 0x28
  const RPAREN: byte := 0x29
  const STAR: byte := 0x2A
  const QUESTION: byte := 0x3F
  const CARET: byte := 0x5E
  const DOLLAR: byte := 0x24
  const BAR: byte := 0x7C
  const LETTER_I: byte := 0x69
  const LETTER_P: byte := 0x50

  /** What follows a backslash; the last three keep their text. */
  datatype Escape =
    | Perl(c: byte)
    | ZeroWidth(c: byte)
    | Control(c: byte)
    | Identity(rune: bytes)
    | Property(text: bytes)
    | Hex(text: bytes)
    | Octal(text: bytes)

  datatype Mem = RuneMem(rune: bytes) | EscMem(e: Escape)

  datatype Item = Single(m: Mem) | Range(lo: Mem, hi: Mem)

  datatype Head = Capturing | NonCapturing | Named(name: bytes) | Flagged(flags: bytes)

  datatype Atom =
    | Lit(rune: bytes)
    | Esc(e: Escape)
    | Anchor(c: byte)
    | Dot
    | Class(negated: bool, items: seq<Item>)
    | Group(head: Head, body: Alt)
    | SetFlags(flags: bytes)

  datatype Quant =
    | Once
    | Star(lazy: bool)
    | Plus(lazy: bool)
    | Opt(lazy: bool)
    | Braces(min: bytes, comma: bool, max: bytes, lazy: bool)

  datatype Concat = Empty | Cons(atom: Atom, quant: Quant, rest: Concat)

  datatype Alt = Only(c: Concat) | Or(c: Concat, rest: Alt)

  // ---- The bytes of a tree ----

  function PrintEscape(e: Escape): bytes {
    [BACKSLASH] + match e
                  case Perl(c) => [c]
                  case ZeroWidth(c) => [c]
                  case Control(c) => [c]
                  case Identity(r) => r
                  case Property(t) => t
                  case Hex(t) => t
                  case Octal(t) => t
  }

  function PrintMem(m: Mem): bytes {
    match m
    case RuneMem(r) => r
    case EscMem(e) => PrintEscape(e)
  }

  function PrintItem(i: Item): bytes {
    match i
    case Single(m) => PrintMem(m)
    case Range(lo, hi) => PrintMem(lo) + ([MINUS] + PrintMem(hi))
  }

  function PrintItems(items: seq<Item>): bytes {
    if items == [] then [RBRACKET] else PrintItem(items[0]) + PrintItems(items[1..])
  }

  function PrintHead(h: Head): bytes {
    match h
    case Capturing => []
    case NonCapturing => [QUESTION, COLON]
    case Named(name) => [QUESTION, LETTER_P, LESS] + (name + [GREATER])
    case Flagged(flags) => [QUESTION] + (flags + [COLON])
  }

  function PrintAtom(a: Atom): bytes
    decreases a, 0
  {
    match a
    case Lit(r) => r
    case Esc(e) => PrintEscape(e)
    case Anchor(c) => [c]
    case Dot => [DOT]
    case Class(negated, items) => [LBRACKET] + ((if negated then [CARET] else []) + PrintItems(items))
    case Group(head, body) => [LPAREN] + (PrintHead(head) + (PrintAlt(body) + [RPAREN]))
    case SetFlags(flags) => [LPAREN, QUESTION] + (flags + [RPAREN])
  }

  function PrintQuant(q: Quant): bytes {
    match q
    case Once => []
    case Star(lazy) => [STAR] + Lazy(lazy)
    case Plus(lazy) => [PLUS] + Lazy(lazy)
    case Opt(lazy) => [QUESTION] + Lazy(lazy)
    case Braces(min, comma, max, lazy) => [LBRACE] + (min + ((if comma then [COMMA] else []) + (max + ([RBRACE] + Lazy(lazy)))))
  }

  function Lazy(lazy: bool): bytes {
    if lazy then [QUESTION] else []
  }

  function PrintConcat(c: Concat): bytes
    decreases c, 0
  {
    match c
    case Empty => []
    case Cons(atom, quant, rest) => PrintAtom(atom) + (PrintQuant(quant) + PrintConcat(rest))
  }

  function PrintAlt(a: Alt): bytes
    decreases a, 0
  {
    match a
    case Only(c) => PrintConcat(c)
    case Or(c, rest) => PrintConcat(c) + ([BAR] + PrintAlt(rest))
  }

  // ---- The documented subset ----

  predicate IsLower(b: byte) {
    0x61 <= b <= 0x7A
  }

  predicate IsUpper(b: byte) {
    0x41 <= b <= 0x5A
  }

  predicate IsAlnum(b: byte) {
    IsLower(b) || IsUpper(b) || IsDigit(b)
  }

  predicate IsSpecial(b: byte) {
    b == LPAREN || b == RPAREN || b == LBRACKET || b == RBRACKET || b == LBRACE || b == RBRACE || b == BACKSLASH
    || b == CARET || b == DOLLAR || b == DOT || b == BAR || b == STAR || b == PLUS || b == QUESTION
  }

  /** `d`, `s`, `w`, `D`, `S`, `W`. */
  predicate IsPerl(c: byte) {
    c == 0x64 || c == 0x73 || c == 0x77 || c == 0x44 || c == 0x53 || c == 0x57
  }

  /** `b`, `B`, `A`, `z`, `Z`. */
  predicate IsZeroWidth(c: byte) {
    c == 0x62 || c == 0x42 || c == 0x41 || c == 0x7A || c == 0x5A
  }

  /** `n`, `t`, `r`, `f`, `v`, `a`. */
  predicate IsControl(c: byte) {
    c == 0x6E || c == 0x74 || c == 0x72 || c == 0x66 || c == 0x76 || c == 0x61
  }

  predicate IsHexDigit(b: byte) {
    IsDigit(b) || 0x61 <= b <= 0x66 || 0x41 <= b <= 0x46
  }

  predicate IsOctalDigit(b: byte) {
    0x30 <= b <= 0x37
  }

  /** A letter and a braced name. */
  predicate IsBraced(t: bytes) {
    |t| >= 3 && t[1] == LBRACE && t[|t| - 1] == RBRACE && forall i | 2 <= i < |t| - 1 :: t[i] != RBRACE
  }

  predicate WfEscape(e: Escape) {
    match e
    case Perl(c) => IsPerl(c)
    case ZeroWidth(c) => IsZeroWidth(c)
    case Control(c) => IsControl(c)
    case Identity(r) => IsRune(r) && !IsAlnum(r[0])
    case Property(t) => |t| >= 2 && (t[0] == 0x70 || t[0] == 0x50) && (IsBraced(t) || (|t| == 2 && IsAlnum(t[1])))
    case Hex(t) => |t| >= 3 && t[0] == 0x78 && (IsBraced(t) || (|t| == 3 && IsHexDigit(t[1]) && IsHexDigit(t[2])))
    case Octal(t) => |t| == 3 && forall i | 0 <= i < 3 :: IsOctalDigit(t[i])
  }

  /** A class member: no unescaped `[`, `]` or `\`, and no zero-width escape. */
  predicate WfMem(m: Mem) {
    match m
    case RuneMem(r) => IsRune(r) && r[0] != LBRACKET && r[0] != RBRACKET && r[0] != BACKSLASH
    case EscMem(e) => WfEscape(e) && !e.ZeroWidth?
  }

  /** The ends of a range are single characters, written out or by number. */
  predicate IsEndpoint(m: Mem) {
    m.RuneMem? || m.e.Control? || m.e.Identity? || m.e.Hex? || m.e.Octal?
  }

  predicate WfItem(i: Item) {
    match i
    case Single(m) => WfMem(m)
    case Range(lo, hi) => WfMem(lo) && WfMem(hi) && IsEndpoint(lo) && IsEndpoint(hi)
  }

  predicate StartsWithMinus(i: Item) {
    PrintItem(i) != [] && PrintItem(i)[0] == MINUS
  }

  /** A hyphen after a single member makes a range, unless it is the last byte of the class. */
  predicate WfItems(items: seq<Item>) {
    && (forall i <- items :: WfItem(i))
    && (forall k | 0 <= k < |items| - 1 :: items[k].Single? && StartsWithMinus(items[k + 1]) ==> k + 1 == |items| - 1 && items[k + 1].Single?)
  }

  /** `i`, `s`, `m`, `U`. */
  predicate IsFlag(b: byte) {
    b == LETTER_I || b == 0x73 || b == 0x6D || b == 0x55
  }

  predicate AllFlags(f: bytes) {
    forall b <- f :: IsFlag(b)
  }

  /** Whether a flag list mentions case folding, to set it or to clear it. */
  predicate SetsFold(flags: bytes) {
    LETTER_I in flags
  }

  /** Flags to set, and after a single `-` flags to clear. */
  ghost predicate WfFlags(f: bytes) {
    f != [] && (AllFlags(f) || exists on: bytes, off: bytes :: AllFlags(on) && AllFlags(off) && off != [] && f == on + [MINUS] + off)
  }

  ghost predicate WfHead(h: Head) {
    match h
    case Named(name) => forall b <- name :: b != GREATER
    case Flagged(flags) => WfFlags(flags)
    case _ => true
  }

  predicate AllDigits(s: bytes) {
    forall b <- s :: IsDigit(b)
  }

  predicate WfQuant(q: Quant) {
    match q
    case Braces(min, comma, max, _) => min != [] && AllDigits(min) && AllDigits(max) && (!comma ==> max == [])
    case _ => true
  }

  ghost predicate WfAtom(a: Atom)
    decreases a, 0
  {
    match a
    case Lit(r) => IsRune(r) && !IsSpecial(r[0])
    case Esc(e) => WfEscape(e)
    case Anchor(c) => c == CARET || c == DOLLAR
    case Dot => true
    case Class(negated, items) =>
      items != [] && WfItems(items) && (!negated ==> PrintItem(items[0]) != [] && PrintItem(items[0])[0] != CARET)
    case Group(head, body) => WfHead(head) && WfAlt(body)
    case SetFlags(flags) => WfFlags(flags)
  }

  ghost predicate WfConcat(c: Concat)
    decreases c, 0
  {
    match c
    case Empty => true
    case Cons(atom, quant, rest) => WfAtom(atom) && WfQuant(quant) && (atom.SetFlags? ==> quant.Once?) && WfConcat(rest)
  }

  ghost predicate WfAlt(a: Alt)
    decreases a, 0
  {
    match a
    case Only(c) => WfConcat(c)
    case Or(c, rest) => WfConcat(c) && WfAlt(rest)
  }

  /** How deep groups nest. */
  function NestingOfAtom(a: Atom): nat
    decreases a, 0
  {
    match a
    case Group(_, body) => 1 + Nesting(body)
    case SetFlags(_) => 1
    case _ => 0
  }

  function NestingOfConcat(c: Concat): nat
    decreases c, 0
  {
    match c
    case Empty => 0
    case Cons(atom, _, rest) => MaxNat(NestingOfAtom(atom), NestingOfConcat(rest))
  }

  function Nesting(a: Alt): nat
    decreases a, 0
  {
    match a
    case Only(c) => NestingOfConcat(c)
    case Or(c, rest) => MaxNat(NestingOfConcat(c), Nesting(rest))
  }

  function MaxNat(a: nat, b: nat): nat {
    if a > b then a else b
  }

  // ---- Case folding ----

  predicate CaseSensitiveAtom(a: Atom)
    decreases a, 0
  {
    match a
    case Group(head, body) => !(head.Flagged? && SetsFold(head.flags)) && CaseSensitive(body)
    case SetFlags(flags) => !SetsFold(flags)
    case _ => true
  }

  predicate CaseSensitiveConcat(c: Concat)
    decreases c, 1
  {
    match c
    case Empty => true
    case Cons(atom, _, rest) => CaseSensitiveAtom(atom) && CaseSensitiveConcat(rest)
  }

  /** No flag list mentions case folding. */
  predicate CaseSensitive(a: Alt)
    decreases a, 2
  {
    match a
    case Only(c) => CaseSensitiveConcat(c)
    case Or(c, rest) => CaseSensitiveConcat(c) && CaseSensitive(rest)
  }
}
