/**
 What the patterns of the subset match, read off their syntax: byte strings that are whole
 UTF-8 runes. Case folding is a relation between runes, fixed here only for ASCII letters;
 flags are scoped as RE2 scopes them. Zero-width assertions match the empty string
 wherever they stand, and property, hexadecimal and octal escapes any rune: the language
 is never smaller than what RE2 matches.
 */
module RegexLang {
  import opened Bytes
  import opened Runes
  import opened RegexSyntax

  /** `eq(r, x)`: with case ignored, the rune `r` of a pattern matches the rune `x` of a text. */
  type Fold = (bytes, bytes) -> bool

  // U+017F and U+212A, the only runes outside ASCII that fold with ASCII letters.
  const LONG_S: bytes := [0xC5, 0xBF]
  const KELVIN: bytes := [0xE2, 0x84, 0xAA]

  predicate IsS(c: byte) {
    c == 0x73 || c == 0x53
  }

  predicate IsK(c: byte) {
    c == 0x6B || c == 0x4B
  }

  predicate AsciiFold(c: byte, x: bytes) {
    || x == [c]
    || (IsLower(c) && x == [c - 0x20])
    || (IsUpper(c) && x == [c + 0x20])
    || (IsS(c) && x == LONG_S)
    || (IsK(c) && x == KELVIN)
  }

  /** Reflexive, and the table above on ASCII; anything at all on other runes. */
  ghost predicate GoodFold(eq: Fold) {
    && (forall r | IsRune(r) :: eq(r, r))
    && (forall c: byte, x | c <= 0x7F && eq([c], x) :: AsciiFold(c, x))
  }

  // ---- Runes ----

  /** Larger code points never take fewer bytes. */
  lemma LengthFollowsCodePoint(r: bytes, x: bytes)
    requires IsRune(r) && IsRune(x) && CodePoint(r) <= CodePoint(x)
    ensures |r| <= |x|
  {
    CodePointRange(r);
    CodePointRange(x);
  }

  predicate RuneMatches(eq: Fold, ci: bool, r: bytes, x: bytes) {
    IsRune(x) && if ci then eq(r, x) else x == r
  }

  // ---- Escapes and classes ----

  /** The bytes of `\d`, `\s` and `\w`. */
  predicate PerlHas(c: byte, b: byte) {
    if c == 0x64 then IsDigit(b)
    else if c == 0x73 then b == TAB || b == LF || b == 0x0C || b == CR || b == SPACE
    else IsAlnum(b) || b == UNDERSCORE
  }

  predicate IsNegatedPerl(c: byte) {
    IsUpper(c)
  }

  function LowerCase(c: byte): byte {
    if IsUpper(c) then c + 0x20 else c
  }

  function ControlByte(c: byte): byte {
    if c == 0x6E then LF else if c == 0x74 then TAB else if c == 0x72 then CR
    else if c == 0x66 then 0x0C else if c == 0x76 then 0x0B else 0x07
  }

  ghost predicate PerlMatches(eq: Fold, ci: bool, c: byte, x: bytes) {
    exists b: byte :: PerlHas(c, b) && RuneMatches(eq, ci, [b], x)
  }

  ghost predicate EscapeMatches(eq: Fold, ci: bool, e: Escape, x: bytes) {
    match e
    case Perl(c) => IsRune(x) && PerlMatches(eq, ci, LowerCase(c), x) != IsNegatedPerl(c)
    case ZeroWidth(_) => x == []
    case Control(c) => RuneMatches(eq, ci, [ControlByte(c)], x)
    case Identity(r) => RuneMatches(eq, ci, r, x)
    case Property(_) => IsRune(x)
    case Hex(_) => IsRune(x)
    case Octal(_) => IsRune(x)
  }

  ghost predicate MemMatches(eq: Fold, ci: bool, m: Mem, x: bytes) {
    match m
    case RuneMem(r) => RuneMatches(eq, ci, r, x)
    case EscMem(e) => EscapeMatches(eq, ci, e, x)
  }

  function EndpointRune(m: Mem): bytes {
    match m
    case RuneMem(r) => r
    case EscMem(Identity(r)) => r
    case EscMem(Control(c)) => [ControlByte(c)]
    case EscMem(_) => []
  }

  predicate Between(lo: bytes, r: bytes, hi: bytes) {
    IsRune(lo) && IsRune(r) && IsRune(hi) && CodePoint(lo) <= CodePoint(r) <= CodePoint(hi)
  }

  /** Its exact runes are not part of the model. */
  predicate Undecided(m: Mem) {
    m.EscMem? && (m.e.Property? || m.e.Hex? || m.e.Octal?)
  }

  predicate ItemUndecided(i: Item) {
    match i
    case Single(m) => Undecided(m)
    case Range(lo, hi) => Undecided(lo) || Undecided(hi)
  }

  /** What an item may match: any rune, when it is undecided. */
  ghost predicate ItemMatches(eq: Fold, ci: bool, i: Item, x: bytes) {
    match i
    case Single(m) => MemMatches(eq, ci, m, x)
    case Range(lo, hi) =>
      if ItemUndecided(i) then IsRune(x)
      else exists r :: Between(EndpointRune(lo), r, EndpointRune(hi)) && RuneMatches(eq, ci, r, x)
  }

  /** What an item matches for certain: nothing, when it is undecided. */
  ghost predicate ItemCovers(eq: Fold, ci: bool, i: Item, x: bytes) {
    !ItemUndecided(i) && ItemMatches(eq, ci, i, x)
  }

  /** A negated class leaves out only what an item matches for certain. */
  ghost predicate ClassMatches(eq: Fold, ci: bool, negated: bool, items: seq<Item>, x: bytes) {
    IsRune(x) && if negated then !exists i <- items :: ItemCovers(eq, ci, i, x) else exists i <- items :: ItemMatches(eq, ci, i, x)
  }

  /** A negated class of undecided items matches every rune. */
  lemma UndecidedLeavesNothingOut(eq: Fold, ci: bool, items: seq<Item>, x: bytes)
    requires IsRune(x) && forall i <- items :: ItemUndecided(i)
    ensures ClassMatches(eq, ci, true, items, x)
  {
  }

  // ---- Flags ----

  /** Case folding after flags: letters before the `-` set, letters after it clear. */
  function FlagFold(f: bytes, on: bool, ci: bool): bool
    decreases |f|
  {
    if f == [] then ci
    else if f[0] == MINUS then FlagFold(f[1..], false, ci)
    else FlagFold(f[1..], on, if f[0] == LETTER_I then on else ci)
  }

  function HeadFold(h: Head, ci: bool): bool {
    match h
    case Flagged(f) => FlagFold(f, true, ci)
    case _ => ci
  }

  /** Flags alone last until the end of the group they stand in; a group ends its own. */
  function AtomFold(a: Atom, ci: bool): bool {
    match a
    case SetFlags(f) => FlagFold(f, true, ci)
    case _ => ci
  }

  function ConcatFold(c: Concat, ci: bool): bool {
    match c
    case Empty => ci
    case Cons(atom, _, rest) => ConcatFold(rest, AtomFold(atom, ci))
  }

  lemma {:induction false} FlagFoldNeedsI(f: bytes, on: bool, ci: bool)
    ensures FlagFold(f, on, ci) ==> ci || LETTER_I in f
    decreases |f|
  {
    if f != [] {
      var here := if f[0] == MINUS || f[0] != LETTER_I then ci else on;
      FlagFoldNeedsI(f[1..], if f[0] == MINUS then false else on, here);
      assert f == [f[0]] + f[1..];
    }
  }

  // ---- Quantifiers ----

  function Digit(b: byte): nat {
    if IsDigit(b) then (b as int - 0x30) as nat else 0
  }

  function Value(d: bytes): nat {
    if d == [] then 0 else Value(d[..|d| - 1]) * 10 + Digit(d[|d| - 1])
  }

  predicate Allowed(q: Quant, k: nat) {
    match q
    case Once => k == 1
    case Star(_) => true
    case Plus(_) => k >= 1
    case Opt(_) => k <= 1
    case Braces(min, comma, max, _) =>
      if !comma then k == Value(min) else k >= Value(min) && (max != [] ==> k <= Value(max))
  }

  // ---- The language ----

  ghost predicate AtomMatches(eq: Fold, ci: bool, a: Atom, w: bytes)
    decreases a, 0, 0
  {
    match a
    case Lit(r) => RuneMatches(eq, ci, r, w)
    case Esc(e) => EscapeMatches(eq, ci, e, w)
    case Anchor(_) => w == []
    case Dot => IsRune(w)
    case Class(negated, items) => ClassMatches(eq, ci, negated, items, w)
    case Group(head, body) => AltMatches(eq, HeadFold(head, ci), body, w)
    case SetFlags(_) => w == []
  }

  /** `k` copies. */
  ghost predicate CopiesMatch(eq: Fold, ci: bool, a: Atom, k: nat, w: bytes)
    decreases a, 1, k
  {
    if k == 0 then w == []
    else exists u, v :: w == u + v && AtomMatches(eq, ci, a, u) && CopiesMatch(eq, ci, a, k - 1, v)
  }

  ghost predicate PieceMatches(eq: Fold, ci: bool, a: Atom, q: Quant, w: bytes)
    decreases a, 2, 0
  {
    exists k: nat :: Allowed(q, k) && CopiesMatch(eq, ci, a, k, w)
  }

  ghost predicate ConcatMatches(eq: Fold, ci: bool, c: Concat, w: bytes)
    decreases c, 3, 0
  {
    match c
    case Empty => w == []
    case Cons(atom, quant, rest) =>
      exists u, v :: w == u + v && PieceMatches(eq, ci, atom, quant, u) && ConcatMatches(eq, AtomFold(atom, ci), rest, v)
  }

  ghost predicate AltMatches(eq: Fold, ci: bool, a: Alt, w: bytes)
    decreases a, 4, 0
  {
    match a
    case Only(c) => ConcatMatches(eq, ci, c, w)
    case Or(c, rest) => ConcatMatches(eq, ci, c, w) || AltMatches(eq, ConcatFold(c, ci), rest, w)
  }

  /** A pattern's language, from a case-sensitive start. */
  ghost predicate Matches(eq: Fold, a: Alt, w: bytes) {
    AltMatches(eq, false, a, w)
  }
}
