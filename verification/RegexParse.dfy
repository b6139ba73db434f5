/**
 The reading that PrefilterParser and BoundedLengthParser share, as functions from a
 position to a tree and the position after it, and the proof that every pattern of the
 subset is read back as the tree it was printed from.
 */
module RegexParse {
  import opened Bytes
  import opened Runes
  import opened RegexSyntax

  /** Deeper groups are refused. */
  const MAX_DEPTH: nat := 1000

  datatype Read<T> = Read(tree: T, end: nat)

  predicate Peek(s: bytes, p: nat, b: byte) {
    p < |s| && s[p] == b
  }

  // ---- Characters and escapes ----

  /** How many bytes consume_rune takes for a lead byte. */
  function LeadLength(c: byte): (n: nat)
    ensures 1 <= n <= 4
  {
    if 0xC0 <= c < 0xE0 then 2 else if 0xE0 <= c < 0xF0 then 3 else if 0xF0 <= c < 0xF8 then 4 else 1
  }

  function RuneEnd(s: bytes, p: nat): (e: nat)
    requires p < |s|
    ensures p < e <= |s|
  {
    var n := LeadLength(s[p]);
    if p + n > |s| then |s| else p + n
  }

  /** The first `b` from `p` on, or the end. */
  function Until(s: bytes, p: nat, b: byte): (e: nat)
    requires p <= |s|
    ensures p <= e <= |s| && (e < |s| ==> s[e] == b) && forall i | p <= i < e :: s[i] != b
    decreases |s| - p
  {
    if p < |s| && s[p] != b then Until(s, p + 1, b) else p
  }

  /** After the digits at `p`. */
  function DigitsFrom(s: bytes, p: nat): (e: nat)
    requires p <= |s|
    ensures p <= e <= |s| && (e < |s| ==> !IsDigit(s[e])) && forall i | p <= i < e :: IsDigit(s[i])
    decreases |s| - p
  {
    if p < |s| && IsDigit(s[p]) then DigitsFrom(s, p + 1) else p
  }

  function FlagsFrom(s: bytes, p: nat): (e: nat)
    requires p <= |s|
    ensures p <= e <= |s| && (e < |s| ==> !(IsFlag(s[e]) || s[e] == MINUS)) && forall i | p <= i < e :: IsFlag(s[i]) || s[i] == MINUS
    decreases |s| - p
  {
    if p < |s| && (IsFlag(s[p]) || s[p] == MINUS) then FlagsFrom(s, p + 1) else p
  }

  /** Up to two hexadecimal digits. */
  function HexEnd(s: bytes, p: nat): (e: nat)
    requires p <= |s|
    ensures p <= e <= |s|
  {
    if p < |s| && IsHexDigit(s[p]) then (if p + 1 < |s| && IsHexDigit(s[p + 1]) then p + 2 else p + 1) else p
  }

  /** Up to three octal digits, the first of them at `p`. */
  function OctalEnd(s: bytes, p: nat): (e: nat)
    requires p < |s|
    ensures p < e <= |s|
  {
    if p + 1 < |s| && IsOctalDigit(s[p + 1]) then (if p + 2 < |s| && IsOctalDigit(s[p + 2]) then p + 3 else p + 2) else p + 1
  }

  /** The end of `{...}` at `p`, if it is closed. */
  function BraceEnd(s: bytes, p: nat): (e: Option<nat>)
    requires p < |s|
    ensures e.Some? ==> p < e.value <= |s|
  {
    var q := Until(s, p + 1, RBRACE);
    if q < |s| then Some(q + 1) else None
  }

  /** The escape whose backslash is at `p`. */
  function ParseEscape(s: bytes, p: nat): (r: Option<Read<Escape>>)
    requires p < |s|
    ensures r.Some? ==> p + 1 < r.value.end <= |s|
  {
    if p + 1 >= |s| then None
    else
      var c := s[p + 1];
      if IsPerl(c) then Some(Read(Perl(c), p + 2))
      else if IsZeroWidth(c) then Some(Read(ZeroWidth(c), p + 2))
      else if IsControl(c) then Some(Read(Control(c), p + 2))
      else if c == 0x70 || c == 0x50 then
        if Peek(s, p + 2, LBRACE) then
          match BraceEnd(s, p + 2)
          case None => None
          case Some(e) => Some(Read(Property(s[p + 1..e]), e))
        else
          var e := if p + 2 < |s| then p + 3 else p + 2;
          Some(Read(Property(s[p + 1..e]), e))
      else if c == 0x78 then
        if Peek(s, p + 2, LBRACE) then
          match BraceEnd(s, p + 2)
          case None => None
          case Some(e) => Some(Read(Hex(s[p + 1..e]), e))
        else Some(Read(Hex(s[p + 1..HexEnd(s, p + 2)]), HexEnd(s, p + 2)))
      else if IsOctalDigit(c) then Some(Read(Octal(s[p + 1..OctalEnd(s, p + 1)]), OctalEnd(s, p + 1)))
      else Some(Read(Identity(s[p + 1..RuneEnd(s, p + 1)]), RuneEnd(s, p + 1)))
  }

  // ---- Classes ----

  function ParseMem(s: bytes, p: nat): (r: Option<Read<Mem>>)
    requires p < |s|
    ensures r.Some? ==> p < r.value.end <= |s|
  {
    if s[p] == BACKSLASH then
      match ParseEscape(s, p)
      case None => None
      case Some(e) => Some(Read(EscMem(e.tree), e.end))
    else Some(Read(RuneMem(s[p..RuneEnd(s, p)]), RuneEnd(s, p)))
  }

  function ParseItem(s: bytes, p: nat): (r: Option<Read<Item>>)
    requires p < |s|
    ensures r.Some? ==> p < r.value.end <= |s|
  {
    match ParseMem(s, p)
    case None => None
    case Some(lo) =>
      if Peek(s, lo.end, MINUS) && lo.end + 1 < |s| && s[lo.end + 1] != RBRACKET then
        match ParseMem(s, lo.end + 1)
        case None => None
        case Some(hi) => Some(Read(Range(lo.tree, hi.tree), hi.end))
      else Some(Read(Single(lo.tree), lo.end))
  }

  function ParseItems(s: bytes, p: nat): (r: Option<Read<seq<Item>>>)
    requires p <= |s|
    ensures r.Some? ==> p < r.value.end <= |s|
    decreases |s| - p
  {
    if p >= |s| then None
    else if s[p] == RBRACKET then Some(Read([], p + 1))
    else
      match ParseItem(s, p)
      case None => None
      case Some(i) =>
        match ParseItems(s, i.end)
        case None => None
        case Some(rest) => Some(Read([i.tree] + rest.tree, rest.end))
  }

  /** The class whose bracket is at `p`; a class without members is refused. */
  function ParseClass(s: bytes, p: nat): (r: Option<Read<Atom>>)
    requires p < |s|
    ensures r.Some? ==> p < r.value.end <= |s|
  {
    var negated := Peek(s, p + 1, CARET);
    match ParseItems(s, if negated then p + 2 else p + 1)
    case None => None
    case Some(items) => if items.tree == [] then None else Some(Read(Class(negated, items.tree), items.end))
  }

  // ---- Quantifiers ----

  function LazyEnd(s: bytes, p: nat): nat {
    if Peek(s, p, QUESTION) then p + 1 else p
  }

  /** The quantifier at `p`, and where it ends; a malformed brace is none. */
  function ParseQuant(s: bytes, p: nat): (r: Read<Quant>)
    requires p <= |s|
    ensures p <= r.end <= |s|
  {
    if Peek(s, p, STAR) then Read(Star(Peek(s, p + 1, QUESTION)), LazyEnd(s, p + 1))
    else if Peek(s, p, PLUS) then Read(Plus(Peek(s, p + 1, QUESTION)), LazyEnd(s, p + 1))
    else if Peek(s, p, QUESTION) then Read(Opt(Peek(s, p + 1, QUESTION)), LazyEnd(s, p + 1))
    else if Peek(s, p, LBRACE) then ParseBraces(s, p)
    else Read(Once, p)
  }

  function ParseBraces(s: bytes, p: nat): (r: Read<Quant>)
    requires p < |s|
    ensures p <= r.end <= |s|
  {
    var a := DigitsFrom(s, p + 1);
    var comma := Peek(s, a, COMMA);
    var b := if comma then a + 1 else a;
    var e := DigitsFrom(s, b);
    if a == p + 1 || !Peek(s, e, RBRACE) then Read(Once, p)
    else Read(Braces(s[p + 1..a], comma, s[b..e], Peek(s, e + 1, QUESTION)), LazyEnd(s, e + 1))
  }

  // ---- Atoms, groups, concatenations, alternations ----

  function ParseAtom(s: bytes, p: nat, depth: nat): (r: Option<Read<Atom>>)
    requires p <= |s|
    ensures r.Some? ==> p < r.value.end <= |s|
    decreases |s| - p, 1
  {
    if p >= |s| then None
    else
      var c := s[p];
      if c == LPAREN then ParseGroup(s, p, depth)
      else if c == LBRACKET then ParseClass(s, p)
      else if c == BACKSLASH then
        match ParseEscape(s, p)
        case None => None
        case Some(e) => Some(Read(Esc(e.tree), e.end))
      else if c == CARET || c == DOLLAR then Some(Read(Anchor(c), p + 1))
      else if c == DOT then Some(Read(Dot, p + 1))
      else if IsSpecial(c) then None
      else Some(Read(Lit(s[p..RuneEnd(s, p)]), RuneEnd(s, p)))
  }

  /** What stands between the parenthesis at `p` and the body: the head, and where the body starts; or flags alone. */
  datatype Opening = Body(head: Head, start: nat) | FlagsOnly(flags: bytes, end: nat)

  function ParseOpening(s: bytes, p: nat): (r: Option<Opening>)
    requires p < |s|
    ensures r.Some? ==> match r.value case Body(_, q) => p < q <= |s| case FlagsOnly(_, e) => p < e <= |s|
  {
    if !Peek(s, p + 1, QUESTION) then Some(Body(Capturing, p + 1))
    else if Peek(s, p + 2, COLON) then Some(Body(NonCapturing, p + 3))
    else if Peek(s, p + 2, LETTER_P) && Peek(s, p + 3, LESS) then
      var e := Until(s, p + 4, GREATER);
      if e < |s| then Some(Body(Named(s[p + 4..e]), e + 1)) else None
    else
      var e := FlagsFrom(s, p + 2);
      if e == p + 2 then None
      else if Peek(s, e, RPAREN) then Some(FlagsOnly(s[p + 2..e], e + 1))
      else if Peek(s, e, COLON) then Some(Body(Flagged(s[p + 2..e]), e + 1))
      else None
  }

  function ParseGroup(s: bytes, p: nat, depth: nat): (r: Option<Read<Atom>>)
    requires p < |s|
    ensures r.Some? ==> p < r.value.end <= |s|
    decreases |s| - p, 0
  {
    if depth >= MAX_DEPTH then None
    else
      match ParseOpening(s, p)
      case None => None
      case Some(FlagsOnly(flags, e)) => Some(Read(SetFlags(flags), e))
      case Some(Body(head, q)) =>
        match ParseAlt(s, q, depth + 1)
        case None => None
        case Some(body) => if Peek(s, body.end, RPAREN) then Some(Read(Group(head, body.tree), body.end + 1)) else None
  }

  predicate Stops(s: bytes, p: nat) {
    p >= |s| || s[p] == BAR || s[p] == RPAREN
  }

  function ParseConcat(s: bytes, p: nat, depth: nat): (r: Option<Read<Concat>>)
    requires p <= |s|
    ensures r.Some? ==> p <= r.value.end <= |s| && Stops(s, r.value.end)
    decreases |s| - p, 2
  {
    if Stops(s, p) then Some(Read(Empty, p))
    else
      match ParseAtom(s, p, depth)
      case None => None
      case Some(a) =>
        var q := ParseQuant(s, a.end);
        match ParseConcat(s, q.end, depth)
        case None => None
        case Some(rest) => Some(Read(Cons(a.tree, q.tree, rest.tree), rest.end))
  }

  function ParseAlt(s: bytes, p: nat, depth: nat): (r: Option<Read<Alt>>)
    requires p <= |s|
    ensures r.Some? ==> p <= r.value.end <= |s|
    decreases |s| - p, 3
  {
    match ParseConcat(s, p, depth)
    case None => None
    case Some(c) =>
      if Peek(s, c.end, BAR) then
        match ParseAlt(s, c.end + 1, depth)
        case None => None
        case Some(rest) => Some(Read(Or(c.tree, rest.tree), rest.end))
      else Some(Read(Only(c.tree), c.end))
  }

  /** A whole pattern: nothing may be left over. */
  function Parse(s: bytes): Option<Alt> {
    match ParseAlt(s, 0, 0)
    case None => None
    case Some(a) => if a.end == |s| then Some(a.tree) else None
  }

  // ---- Printed trees are read back ----

  lemma RuneReads(s: bytes, p: nat, r: bytes)
    requires At(s, p, r) && IsRune(r)
    ensures p < |s| && s[p] == r[0] && RuneEnd(s, p) == p + |r| && s[p..RuneEnd(s, p)] == r
  {
    AtByte(s, p, r, 0);
    assert LeadLength(r[0]) == |r|;
  }

  lemma {:induction false} UntilIs(s: bytes, p: nat, e: nat, b: byte)
    requires p <= e <= |s| && (forall i | p <= i < e :: s[i] != b) && (e < |s| ==> s[e] == b)
    ensures Until(s, p, b) == e
  {
    var u := Until(s, p, b);
    assert u < |s| ==> s[u] == b;
  }

  /** The text of an escape, after its backslash. */
  function EscapeText(e: Escape): bytes {
    match e
    case Perl(c) => [c]
    case ZeroWidth(c) => [c]
    case Control(c) => [c]
    case Identity(r) => r
    case Property(t) => t
    case Hex(t) => t
    case Octal(t) => t
  }

  lemma BracedReads(s: bytes, p: nat, t: bytes)
    requires At(s, p, t) && IsBraced(t)
    ensures Peek(s, p + 1, LBRACE) && BraceEnd(s, p + 1) == Some(p + |t|) && s[p..p + |t|] == t
  {
    AtByte(s, p, t, 1);
    AtByte(s, p, t, |t| - 1);
    forall i | p + 2 <= i < p + |t| - 1 ensures s[i] != RBRACE {
      AtByte(s, p, t, i - p);
    }
    UntilIs(s, p + 2, p + |t| - 1, RBRACE);
  }

  lemma EscapeReads(s: bytes, p: nat, e: Escape)
    requires At(s, p, PrintEscape(e)) && WfEscape(e)
    ensures p < |s| && s[p] == BACKSLASH
    ensures ParseEscape(s, p) == Some(Read(e, p + |PrintEscape(e)|))
  {
    var t := EscapeText(e);
    assert PrintEscape(e) == [BACKSLASH] + t;
    AtSplit(s, p, [BACKSLASH], t);
    AtByte(s, p, [BACKSLASH], 0);
    EscapeTextNotEmpty(e);
    AtByte(s, p + 1, t, 0);
    EscapeTextReads(s, p, e, t);
  }

  lemma EscapeTextNotEmpty(e: Escape)
    requires WfEscape(e)
    ensures EscapeText(e) != []
  {
  }

  lemma EscapeTextReads(s: bytes, p: nat, e: Escape, t: bytes)
    requires WfEscape(e) && t == EscapeText(e) && At(s, p + 1, t) && p + 1 < |s| && s[p + 1] == t[0]
    ensures ParseEscape(s, p) == Some(Read(e, p + 1 + |t|))
  {
    hide IsBraced, RuneEnd, At, IsRune;
    match e
    case Perl(_) =>
    case ZeroWidth(_) =>
    case Control(_) =>
    case Identity(r) => RuneReads(s, p + 1, r);
    case Property(_) => PropertyReads(s, p, t);
    case Hex(_) => HexReads(s, p, t);
    case Octal(_) =>
      AtByte(s, p + 1, t, 1);
      AtByte(s, p + 1, t, 2);
      AtMeans(s, p + 1, t);
  }

  lemma PropertyReads(s: bytes, p: nat, t: bytes)
    requires At(s, p + 1, t) && WfEscape(Property(t))
    ensures p + 1 < |s| && ParseEscape(s, p) == Some(Read(Property(t), p + 1 + |t|))
  {
    hide IsBraced;
    AtByte(s, p + 1, t, 0);
    AtByte(s, p + 1, t, 1);
    AtMeans(s, p + 1, t);
    if IsBraced(t) {
      BracedReads(s, p + 1, t);
    }
  }

  lemma HexReads(s: bytes, p: nat, t: bytes)
    requires At(s, p + 1, t) && WfEscape(Hex(t))
    ensures p + 1 < |s| && ParseEscape(s, p) == Some(Read(Hex(t), p + 1 + |t|))
  {
    hide IsBraced;
    AtByte(s, p + 1, t, 0);
    AtByte(s, p + 1, t, 1);
    AtByte(s, p + 1, t, 2);
    AtMeans(s, p + 1, t);
    if IsBraced(t) {
      BracedReads(s, p + 1, t);
    }
  }

  lemma MemReads(s: bytes, p: nat, m: Mem)
    requires At(s, p, PrintMem(m)) && WfMem(m)
    ensures p < |s| && s[p] != RBRACKET && ParseMem(s, p) == Some(Read(m, p + |PrintMem(m)|))
    ensures s[p] == MINUS <==> PrintMem(m)[0] == MINUS
    ensures |PrintMem(m)| > 0
  {
    hide ParseEscape, RuneEnd, At, IsRune, WfEscape;
    match m
    case RuneMem(r) => RuneReads(s, p, r);
    case EscMem(e) => EscapeReads(s, p, e);
  }

  /** What a single member must not be followed by. */
  predicate EndsSingle(s: bytes, p: nat) {
    Peek(s, p, MINUS) ==> p + 1 >= |s| || s[p + 1] == RBRACKET
  }

  lemma SingleReads(s: bytes, p: nat, m: Mem)
    requires At(s, p, PrintMem(m)) && WfMem(m) && EndsSingle(s, p + |PrintMem(m)|)
    ensures p < |s| && ParseItem(s, p) == Some(Read(Single(m), p + |PrintMem(m)|))
  {
    hide ParseMem, WfMem, At, PrintMem, ParseItem;
    MemReads(s, p, m);
    ItemByMembers(s, p);
  }

  lemma RangeReads(s: bytes, p: nat, lo: Mem, hi: Mem)
    requires At(s, p, PrintMem(lo) + ([MINUS] + PrintMem(hi))) && WfMem(lo) && WfMem(hi)
    ensures p < |s| && ParseItem(s, p) == Some(Read(Range(lo, hi), p + |PrintMem(lo)| + 1 + |PrintMem(hi)|))
    ensures At(s, p, PrintMem(lo))
  {
    hide ParseMem, WfMem, At, PrintMem, ParseItem;
    AtSplit(s, p, PrintMem(lo), [MINUS] + PrintMem(hi));
    var q := p + |PrintMem(lo)|;
    ByteReads(s, q, MINUS, PrintMem(hi));
    MemReads(s, p, lo);
    MemReads(s, q + 1, hi);
    ItemByMembers(s, p);
  }

  lemma ItemReads(s: bytes, p: nat, i: Item)
    requires At(s, p, PrintItem(i)) && WfItem(i)
    requires i.Single? ==> EndsSingle(s, p + |PrintItem(i)|)
    ensures p < |s| && s[p] != RBRACKET && ParseItem(s, p) == Some(Read(i, p + |PrintItem(i)|))
    ensures PrintItem(i) != [] && s[p] == PrintItem(i)[0]
  {
    hide ParseMem, WfMem, At, PrintMem, ParseItem;
    ItemNotEmpty(i);
    AtFirst(s, p, PrintItem(i));
    match i
    case Single(m) =>
      SingleReads(s, p, m);
      MemReads(s, p, m);
    case Range(lo, hi) =>
      RangeReads(s, p, lo, hi);
      MemReads(s, p, lo);
  }

  lemma AtFirst(s: bytes, p: nat, part: bytes)
    requires At(s, p, part) && part != []
    ensures p < |s| && s[p] == part[0]
  {
    AtByte(s, p, part, 0);
  }

  lemma {:induction false} ItemsRead(s: bytes, p: nat, items: seq<Item>)
    requires At(s, p, PrintItems(items)) && WfItems(items)
    ensures p <= |s| && ParseItems(s, p) == Some(Read(items, p + |PrintItems(items)|))
    decreases |items|
  {
    hide ParseItem, ParseItems, WfItem, At, PrintItem, StartsWithMinus;
    if items == [] {
      ClosingReads(s, p);
    } else {
      var i, rest := items[0], items[1..];
      assert i in items;
      AtSplit(s, p, PrintItem(i), PrintItems(rest));
      AtMeans(s, p, PrintItems(items));
      var q := p + |PrintItem(i)|;
      WfTail(items);
      ItemsRead(s, q, rest);
      if i.Single? {
        AfterSingle(s, q, items);
      }
      ItemReads(s, p, i);
      ItemThenItems(s, p, q);
      assert [i] + rest == items;
    }
  }

  lemma ClosingReads(s: bytes, p: nat)
    requires At(s, p, [RBRACKET])
    ensures p <= |s| && ParseItems(s, p) == Some(Read([], p + 1))
  {
    AtByte(s, p, [RBRACKET], 0);
  }

  lemma ItemThenItems(s: bytes, p: nat, q: nat)
    requires p < |s| && s[p] != RBRACKET && ParseItem(s, p).Some? && ParseItem(s, p).value.end == q && q <= |s| && ParseItems(s, q).Some?
    ensures ParseItems(s, p) == Some(Read([ParseItem(s, p).value.tree] + ParseItems(s, q).value.tree, ParseItems(s, q).value.end))
  {
    hide ParseItem;
  }

  lemma WfTail(items: seq<Item>)
    requires WfItems(items) && items != []
    ensures WfItems(items[1..])
  {
    hide WfItem, StartsWithMinus;
    assert forall i <- items[1..] :: i in items;
    var t := items[1..];
    forall k | 0 <= k < |t| - 1 && t[k].Single? && StartsWithMinus(t[k + 1]) ensures k + 1 == |t| - 1 && t[k + 1].Single? {
      assert items[k + 1] == t[k] && items[k + 2] == t[k + 1];
    }
  }

  /** A hyphen after a single member is the last byte of the class. */
  lemma AfterSingle(s: bytes, q: nat, items: seq<Item>)
    requires items != [] && WfItems(items) && items[0].Single? && At(s, q, PrintItems(items[1..]))
    ensures EndsSingle(s, q)
  {
    hide At;
    var rest := items[1..];
    AtMeans(s, q, PrintItems(rest));
    if rest == [] {
      AtByte(s, q, [RBRACKET], 0);
    } else {
      assert rest[0] in items && rest[0] == items[1] && items[0] in items;
      ItemNotEmpty(rest[0]);
      AtSplit(s, q, PrintItem(rest[0]), PrintItems(rest[1..]));
      AtByte(s, q, PrintItem(rest[0]), 0);
      if StartsWithMinus(items[1]) {
        assert rest[1..] == [];
        SingleMinus(items[1]);
        AtByte(s, q + 1, PrintItems(rest[1..]), 0);
      }
    }
  }

  lemma ItemNotEmpty(i: Item)
    requires WfItem(i)
    ensures PrintItem(i) != []
  {
  }

  lemma SingleMinus(i: Item)
    requires WfItem(i) && i.Single? && StartsWithMinus(i)
    ensures |PrintItem(i)| == 1
  {
  }

  lemma ClassReads(s: bytes, p: nat, negated: bool, items: seq<Item>)
    requires At(s, p, PrintAtom(Class(negated, items))) && WfAtom(Class(negated, items))
    ensures p < |s| && s[p] == LBRACKET
    ensures ParseClass(s, p) == Some(Read(Class(negated, items), p + |PrintAtom(Class(negated, items))|))
  {
    hide ParseItems, At, PrintItem, WfItem, StartsWithMinus;
    var head := if negated then [CARET] else [];
    AtSplit(s, p, [LBRACKET], head + PrintItems(items));
    AtByte(s, p, [LBRACKET], 0);
    AtSplit(s, p + 1, head, PrintItems(items));
    ItemsRead(s, p + 1 + |head|, items);
    if negated {
      AtByte(s, p + 1, head, 0);
    } else {
      AtByte(s, p + 1, PrintItems(items), 0);
      AtMeans(s, p + 1, PrintItems(items));
    }
  }

  /** No quantifier starts at `p`. */
  predicate NoQuantAt(s: bytes, p: nat) {
    !Peek(s, p, STAR) && !Peek(s, p, PLUS) && !Peek(s, p, QUESTION) && !Peek(s, p, LBRACE)
  }

  lemma LazyReads(s: bytes, p: nat, lazy: bool)
    requires At(s, p, Lazy(lazy)) && NoQuantAt(s, p + |Lazy(lazy)|)
    ensures Peek(s, p, QUESTION) == lazy && LazyEnd(s, p) == p + |Lazy(lazy)|
  {
    if lazy {
      AtByte(s, p, [QUESTION], 0);
    }
  }

  lemma {:induction false} DigitsRead(s: bytes, p: nat, d: bytes)
    requires At(s, p, d) && AllDigits(d) && (p + |d| < |s| ==> !IsDigit(s[p + |d|]))
    ensures p <= |s| && DigitsFrom(s, p) == p + |d| && s[p..p + |d|] == d
  {
    AtMeans(s, p, d);
    var e := p + |d|;
    forall i | p <= i < e ensures IsDigit(s[i]) {
      AtByte(s, p, d, i - p);
      assert d[i - p] in d;
    }
    var f := DigitsFrom(s, p);
    assert f >= e;
  }

  lemma MarkReads(s: bytes, p: nat, c: byte, lazy: bool)
    requires At(s, p, [c] + Lazy(lazy)) && NoQuantAt(s, p + 1 + |Lazy(lazy)|)
    ensures Peek(s, p, c) && Peek(s, p + 1, QUESTION) == lazy && LazyEnd(s, p + 1) == p + 1 + |Lazy(lazy)|
  {
    AtSplit(s, p, [c], Lazy(lazy));
    AtByte(s, p, [c], 0);
    LazyReads(s, p + 1, lazy);
  }

  /** Where the parts of a brace quantifier stand. */
  lemma BraceParts(s: bytes, p: nat, min: bytes, comma: bytes, max: bytes, tail: bytes)
    requires At(s, p, [LBRACE] + (min + (comma + (max + tail))))
    ensures var a := p + 1 + |min|;
      var b := a + |comma|;
      At(s, p, [LBRACE]) && At(s, p + 1, min) && At(s, a, comma) && At(s, b, max) && At(s, b + |max|, tail)
  {
    hide At;
    AtSplit(s, p, [LBRACE], min + (comma + (max + tail)));
    AtSplit(s, p + 1, min, comma + (max + tail));
    AtSplit(s, p + 1 + |min|, comma, max + tail);
    AtSplit(s, p + 1 + |min| + |comma|, max, tail);
  }

  lemma ByteReads(s: bytes, p: nat, b: byte, tail: bytes)
    requires At(s, p, [b] + tail)
    ensures Peek(s, p, b) && p < |s| && s[p] == b && At(s, p + 1, tail)
  {
    AtSplit(s, p, [b], tail);
    AtByte(s, p, [b], 0);
  }

  lemma CommaReads(s: bytes, a: nat, comma: bool, next: byte)
    requires At(s, a, if comma then [COMMA] else [])
    requires !comma ==> Peek(s, a, next) && next != COMMA
    ensures Peek(s, a, COMMA) == comma
  {
    if comma {
      AtByte(s, a, [COMMA], 0);
    }
  }

  /** The opening brace and the first digits. */
  lemma BraceLeft(s: bytes, p: nat, min: bytes)
    requires At(s, p, [LBRACE]) && At(s, p + 1, min) && min != [] && AllDigits(min)
    requires p + 1 + |min| < |s| ==> !IsDigit(s[p + 1 + |min|])
    ensures var a := p + 1 + |min|; Peek(s, p, LBRACE) && p + 1 < a <= |s| && DigitsFrom(s, p + 1) == a && s[p + 1..a] == min
  {
    hide At, AllDigits, DigitsFrom;
    assert [LBRACE] + [] == [LBRACE];
    ByteReads(s, p, LBRACE, []);
    DigitsRead(s, p + 1, min);
  }

  /** The last digits, the closing brace and the lazy mark. */
  lemma BraceRight(s: bytes, b: nat, max: bytes, lazy: bool)
    requires At(s, b, max) && AllDigits(max) && At(s, b + |max|, [RBRACE] + Lazy(lazy)) && NoQuantAt(s, b + |max| + 1 + |Lazy(lazy)|)
    ensures var e := b + |max|;
      && b <= e < |s| && DigitsFrom(s, b) == e && s[b..e] == max && Peek(s, e, RBRACE)
      && Peek(s, e + 1, QUESTION) == lazy && LazyEnd(s, e + 1) == e + 1 + |Lazy(lazy)|
  {
    hide At, AllDigits, NoQuantAt, DigitsFrom, LazyEnd;
    var e := b + |max|;
    ByteReads(s, e, RBRACE, Lazy(lazy));
    LazyReads(s, e + 1, lazy);
    DigitsRead(s, b, max);
  }

  /** The digits and marks of a brace quantifier, found where they stand. */
  lemma BraceScan(s: bytes, p: nat, q: Quant)
    requires q.Braces? && WfQuant(q) && At(s, p, PrintQuant(q)) && NoQuantAt(s, p + |PrintQuant(q)|)
    ensures var a := p + 1 + |q.min|;
      var b := if q.comma then a + 1 else a;
      var e := b + |q.max|;
      && Peek(s, p, LBRACE) && p + 1 < a <= |s| && DigitsFrom(s, p + 1) == a && s[p + 1..a] == q.min
      && Peek(s, a, COMMA) == q.comma && b <= |s| && DigitsFrom(s, b) == e && s[b..e] == q.max
      && Peek(s, e, RBRACE) && Peek(s, e + 1, QUESTION) == q.lazy && LazyEnd(s, e + 1) == p + |PrintQuant(q)|
  {
    hide At, AllDigits, NoQuantAt, DigitsFrom, LazyEnd, Peek, Lazy, PrintQuant;
    var a := p + 1 + |q.min|;
    var b := if q.comma then a + 1 else a;
    QuantParts(s, p, q);
    BraceRight(s, b, q.max, q.lazy);
    NoComma(q);
    CommaReads(s, a, q.comma, RBRACE);
    PeekDigit(s, a, q.comma, b + |q.max|);
    BraceLeft(s, p, q.min);
  }

  lemma QuantParts(s: bytes, p: nat, q: Quant)
    requires q.Braces? && At(s, p, PrintQuant(q))
    ensures var a := p + 1 + |q.min|;
      var b := if q.comma then a + 1 else a;
      && At(s, p, [LBRACE]) && At(s, p + 1, q.min) && At(s, a, if q.comma then [COMMA] else []) && At(s, b, q.max)
      && At(s, b + |q.max|, [RBRACE] + Lazy(q.lazy)) && b + |q.max| + 1 + |Lazy(q.lazy)| == p + |PrintQuant(q)|
  {
    hide At, Lazy;
    var comma := if q.comma then [COMMA] else [];
    BraceParts(s, p, q.min, comma, q.max, [RBRACE] + Lazy(q.lazy));
    BraceLength(q.min, comma, q.max, [RBRACE] + Lazy(q.lazy));
  }

  lemma BraceLength(min: bytes, comma: bytes, max: bytes, tail: bytes)
    ensures |[LBRACE] + (min + (comma + (max + tail)))| == 1 + |min| + |comma| + |max| + |tail|
  {
  }

  lemma PeekDigit(s: bytes, a: nat, comma: bool, e: nat)
    requires Peek(s, a, COMMA) == comma && (!comma ==> Peek(s, a, RBRACE))
    ensures a < |s| ==> !IsDigit(s[a])
  {
  }

  lemma BracesRead(s: bytes, p: nat, q: Quant)
    requires q.Braces? && WfQuant(q) && At(s, p, PrintQuant(q)) && NoQuantAt(s, p + |PrintQuant(q)|)
    ensures p < |s| && s[p] == LBRACE && ParseBraces(s, p) == Read(q, p + |PrintQuant(q)|)
  {
    hide At, AllDigits, NoQuantAt, ParseBraces, DigitsFrom, LazyEnd, PrintQuant;
    BraceScan(s, p, q);
    var a := p + 1 + |q.min|;
    BraceCases(s, p, a, q.comma, if q.comma then a + 1 + |q.max| else a + |q.max|);
  }

  lemma NoComma(q: Quant)
    requires q.Braces? && WfQuant(q)
    ensures !q.comma ==> q.max == []
  {
  }

  lemma QuantReads(s: bytes, p: nat, q: Quant)
    requires WfQuant(q) && At(s, p, PrintQuant(q)) && NoQuantAt(s, p + |PrintQuant(q)|)
    ensures p <= |s| && ParseQuant(s, p) == Read(q, p + |PrintQuant(q)|)
  {
    hide At, ParseBraces, LazyEnd;
    AtMeans(s, p, PrintQuant(q));
    match q
    case Once =>
    case Star(lazy) => MarkReads(s, p, STAR, lazy);
    case Plus(lazy) => MarkReads(s, p, PLUS, lazy);
    case Opt(lazy) => MarkReads(s, p, QUESTION, lazy);
    case Braces(_, _, _, _) => BracesRead(s, p, q);
  }

  lemma FlagBytes(f: bytes)
    requires WfFlags(f)
    ensures f != [] && forall b <- f :: IsFlag(b) || b == MINUS
  {
    if !AllFlags(f) {
      var on: bytes, off: bytes :| AllFlags(on) && AllFlags(off) && off != [] && f == on + [MINUS] + off;
      assert forall b <- f :: b in on || b == MINUS || b in off;
    }
  }

  lemma {:induction false} FlagsRead(s: bytes, p: nat, f: bytes)
    requires At(s, p, f) && WfFlags(f) && p + |f| < |s| && !IsFlag(s[p + |f|]) && s[p + |f|] != MINUS
    ensures p < |s| && FlagsFrom(s, p) == p + |f| && s[p..p + |f|] == f
    ensures IsFlag(s[p]) || s[p] == MINUS
  {
    FlagBytes(f);
    AtMeans(s, p, f);
    var e := p + |f|;
    forall i | p <= i < e ensures IsFlag(s[i]) || s[i] == MINUS {
      AtByte(s, p, f, i - p);
      assert f[i - p] in f;
    }
    var g := FlagsFrom(s, p);
    assert g == e;
  }

  /** The head of a group is read, whatever body follows it. */
  lemma HeadReads(s: bytes, p: nat, h: Head)
    requires WfHead(h) && At(s, p, [LPAREN] + PrintHead(h))
    requires h.Capturing? ==> !Peek(s, p + 1, QUESTION)
    ensures p < |s| && s[p] == LPAREN && ParseOpening(s, p) == Some(Body(h, p + 1 + |PrintHead(h)|))
  {
    hide At, WfFlags, ParseOpening;
    AtSplit(s, p, [LPAREN], PrintHead(h));
    AtByte(s, p, [LPAREN], 0);
    var q := p + 1;
    AtMeans(s, q, PrintHead(h));
    match h
    case Capturing => CapturingReads(s, p);
    case NonCapturing => NonCapturingReads(s, p);
    case Named(name) => NameReads(s, p, name);
    case Flagged(flags) => FlaggedReads(s, p, flags);
  }

  lemma CapturingReads(s: bytes, p: nat)
    requires p < |s| && !Peek(s, p + 1, QUESTION)
    ensures ParseOpening(s, p) == Some(Body(Capturing, p + 1))
  {
  }

  lemma NonCapturingReads(s: bytes, p: nat)
    requires At(s, p + 1, PrintHead(NonCapturing)) && p < |s|
    ensures ParseOpening(s, p) == Some(Body(NonCapturing, p + 3))
  {
    AtByte(s, p + 1, PrintHead(NonCapturing), 0);
    AtByte(s, p + 1, PrintHead(NonCapturing), 1);
  }

  lemma FlaggedReads(s: bytes, p: nat, flags: bytes)
    requires At(s, p + 1, PrintHead(Flagged(flags))) && p < |s| && WfFlags(flags)
    ensures ParseOpening(s, p) == Some(Body(Flagged(flags), p + 1 + |PrintHead(Flagged(flags))|))
  {
    hide At, WfFlags, FlagsFrom;
    var q := p + 1;
    AtSplit(s, q, [QUESTION], flags + [COLON]);
    AtByte(s, q, [QUESTION], 0);
    AtSplit(s, q + 1, flags, [COLON]);
    AtByte(s, q + 1 + |flags|, [COLON], 0);
    AtMeans(s, q + 1 + |flags|, [COLON]);
    FlagsRead(s, q + 1, flags);
  }

  lemma NameReads(s: bytes, p: nat, name: bytes)
    requires At(s, p + 1, PrintHead(Named(name))) && p < |s| && forall b <- name :: b != GREATER
    ensures ParseOpening(s, p) == Some(Body(Named(name), p + 1 + |PrintHead(Named(name))|))
  {
    hide At, Until, ParseOpening;
    var e := p + 4 + |name|;
    NameIntro(s, p + 1, name + [GREATER]);
    AtSplit(s, p + 4, name, [GREATER]);
    AtFirst(s, e, [GREATER]);
    NameEnds(s, p + 4, name);
    NamedOpening(s, p, e);
  }

  lemma NameIntro(s: bytes, q: nat, rest: bytes)
    requires At(s, q, [QUESTION, LETTER_P, LESS] + rest)
    ensures q + 3 <= |s| && s[q] == QUESTION && s[q + 1] == LETTER_P && s[q + 2] == LESS && At(s, q + 3, rest)
  {
    hide At;
    var intro := [QUESTION, LETTER_P, LESS];
    AtSplit(s, q, intro, rest);
    AtByte(s, q, intro, 0);
    AtByte(s, q, intro, 1);
    AtByte(s, q, intro, 2);
    AtMeans(s, q, intro);
  }

  lemma NameEnds(s: bytes, q: nat, name: bytes)
    requires At(s, q, name) && q + |name| < |s| && s[q + |name|] == GREATER && forall b <- name :: b != GREATER
    ensures Until(s, q, GREATER) == q + |name| && s[q..q + |name|] == name
  {
    hide At, Until;
    AtMeans(s, q, name);
    forall i | q <= i < q + |name| ensures s[i] != GREATER {
      AtByte(s, q, name, i - q);
      assert name[i - q] in name;
    }
    UntilIs(s, q, q + |name|, GREATER);
  }

  lemma NamedOpening(s: bytes, p: nat, e: nat)
    requires p + 4 <= e < |s| && s[p + 1] == QUESTION && s[p + 2] == LETTER_P && s[p + 3] == LESS && Until(s, p + 4, GREATER) == e
    ensures ParseOpening(s, p) == Some(Body(Named(s[p + 4..e]), e + 1))
  {
    hide Until, FlagsFrom;
  }

  lemma FlagsOnlyReads(s: bytes, p: nat, flags: bytes)
    requires WfFlags(flags) && At(s, p, PrintAtom(SetFlags(flags)))
    ensures p < |s| && s[p] == LPAREN
    ensures ParseOpening(s, p) == Some(FlagsOnly(flags, p + |PrintAtom(SetFlags(flags))|))
  {
    hide At, WfFlags;
    var intro := [LPAREN, QUESTION];
    AtSplit(s, p, intro, flags + [RPAREN]);
    AtByte(s, p, intro, 0);
    AtByte(s, p, intro, 1);
    AtSplit(s, p + 2, flags, [RPAREN]);
    AtByte(s, p + 2 + |flags|, [RPAREN], 0);
    AtMeans(s, p + 2 + |flags|, [RPAREN]);
    FlagsRead(s, p + 2, flags);
  }

  /** An atom starts with a byte that no quantifier starts with, and that ends no concatenation. */
  lemma AtomStart(a: Atom)
    requires WfAtom(a)
    ensures var t := PrintAtom(a);
      && t != [] && t[0] != STAR && t[0] != PLUS && t[0] != QUESTION && t[0] != LBRACE && t[0] != BAR && t[0] != RPAREN
  {
  }

  /** Where a concatenation may end. */
  lemma ConcatStart(s: bytes, p: nat, c: Concat)
    requires WfConcat(c) && At(s, p, PrintConcat(c)) && Stops(s, p + |PrintConcat(c)|)
    ensures p <= |s| && NoQuantAt(s, p)
    ensures c.Empty? <==> Stops(s, p)
  {
    hide At, WfAtom, PrintAtom, PrintQuant;
    AtMeans(s, p, PrintConcat(c));
    match c
    case Empty =>
    case Cons(atom, quant, rest) =>
      AtomStart(atom);
      AtByte(s, p, PrintConcat(c), 0);
  }

  predicate Fits(nesting: nat, depth: nat) {
    depth + nesting <= MAX_DEPTH
  }

  /** Every tree of the subset is read back from its bytes, unless it nests too deep. */
  lemma {:induction false} AltReads(s: bytes, p: nat, a: Alt, depth: nat)
    requires WfAlt(a) && At(s, p, PrintAlt(a)) && depth <= MAX_DEPTH
    requires var e := p + |PrintAlt(a)|; e == |s| || Peek(s, e, RPAREN)
    ensures p <= |s|
    ensures ParseAlt(s, p, depth) == if Fits(Nesting(a), depth) then Some(Read(a, p + |PrintAlt(a)|)) else None
    decreases a, 3
  {
    hide At, WfConcat, PrintConcat, NestingOfConcat, ParseConcat;
    AtMeans(s, p, PrintAlt(a));
    match a
    case Only(c) => ConcatReads(s, p, c, depth);
    case Or(c, rest) =>
      AtSplit(s, p, PrintConcat(c), [BAR] + PrintAlt(rest));
      var q := p + |PrintConcat(c)|;
      AtSplit(s, q, [BAR], PrintAlt(rest));
      AtByte(s, q, [BAR], 0);
      AtMeans(s, q, [BAR]);
      ConcatReads(s, p, c, depth);
      AltReads(s, q + 1, rest, depth);
  }

  lemma {:induction false} ConcatReads(s: bytes, p: nat, c: Concat, depth: nat)
    requires WfConcat(c) && At(s, p, PrintConcat(c)) && depth <= MAX_DEPTH
    requires Stops(s, p + |PrintConcat(c)|)
    ensures p <= |s|
    ensures ParseConcat(s, p, depth) == if Fits(NestingOfConcat(c), depth) then Some(Read(c, p + |PrintConcat(c)|)) else None
    decreases c, 2
  {
    hide At, WfAtom, WfQuant, PrintAtom, PrintQuant, NestingOfAtom, ParseAtom, ParseQuant;
    AtMeans(s, p, PrintConcat(c));
    ConcatStart(s, p, c);
    match c
    case Empty =>
    case Cons(atom, quant, rest) =>
      AtSplit(s, p, PrintAtom(atom), PrintQuant(quant) + PrintConcat(rest));
      var q := p + |PrintAtom(atom)|;
      AtSplit(s, q, PrintQuant(quant), PrintConcat(rest));
      var m := q + |PrintQuant(quant)|;
      ConcatStart(s, m, rest);
      AtomReads(s, p, atom, depth);
      QuantReads(s, q, quant);
      ConcatReads(s, m, rest, depth);
  }

  lemma {:induction false} AtomReads(s: bytes, p: nat, a: Atom, depth: nat)
    requires WfAtom(a) && At(s, p, PrintAtom(a)) && depth <= MAX_DEPTH
    ensures p <= |s|
    ensures ParseAtom(s, p, depth) == if Fits(NestingOfAtom(a), depth) then Some(Read(a, p + |PrintAtom(a)|)) else None
    decreases a, 1
  {
    hide At, ParseEscape, ParseClass, ParseGroup, RuneEnd, WfEscape, IsRune, WfItems, WfHead, WfFlags;
    AtMeans(s, p, PrintAtom(a));
    match a
    case Lit(r) => RuneReads(s, p, r);
    case Esc(e) => EscapeReads(s, p, e);
    case Anchor(c) => AtByte(s, p, PrintAtom(a), 0);
    case Dot => AtByte(s, p, PrintAtom(a), 0);
    case Class(negated, items) => ClassReads(s, p, negated, items);
    case SetFlags(flags) =>
      FlagsOnlyReads(s, p, flags);
      FlagsGroup(s, p, flags, depth);
    case Group(head, body) => GroupReads(s, p, head, body, depth);
  }

  lemma FlagsGroup(s: bytes, p: nat, flags: bytes, depth: nat)
    requires p < |s| && ParseOpening(s, p) == Some(FlagsOnly(flags, p + |PrintAtom(SetFlags(flags))|))
    ensures ParseGroup(s, p, depth) == if depth >= MAX_DEPTH then None else Some(Read(SetFlags(flags), p + |PrintAtom(SetFlags(flags))|))
  {
    hide ParseOpening;
  }

  lemma {:induction false} GroupReads(s: bytes, p: nat, head: Head, body: Alt, depth: nat)
    requires WfHead(head) && WfAlt(body) && At(s, p, PrintAtom(Group(head, body))) && depth <= MAX_DEPTH
    ensures p < |s| && s[p] == LPAREN
    ensures ParseGroup(s, p, depth)
         == if Fits(1 + Nesting(body), depth) then Some(Read(Group(head, body), p + |PrintAtom(Group(head, body))|)) else None
    decreases body, 4
  {
    hide At, WfHead, WfAlt, PrintHead, PrintAlt, Nesting, ParseAlt, ParseOpening;
    var tail := PrintAlt(body) + [RPAREN];
    Join3([LPAREN], PrintHead(head), tail);
    AtSplit(s, p, [LPAREN] + PrintHead(head), tail);
    var q := p + 1 + |PrintHead(head)|;
    AtSplit(s, q, PrintAlt(body), [RPAREN]);
    var e := q + |PrintAlt(body)|;
    AtByte(s, e, [RPAREN], 0);
    AtMeans(s, e, [RPAREN]);
    if head.Capturing? {
      assert q == p + 1 by { NoHeadBytes(); }
      BodyStart(s, q, body);
    }
    HeadReads(s, p, head);
    if depth < MAX_DEPTH {
      AltReads(s, q, body, depth + 1);
    }
  }

  lemma NoHeadBytes()
    ensures PrintHead(Capturing) == []
  {
  }

  /** A body never starts with the byte that would make its group another kind. */
  lemma BodyStart(s: bytes, q: nat, body: Alt)
    requires WfAlt(body) && At(s, q, PrintAlt(body)) && Peek(s, q + |PrintAlt(body)|, RPAREN)
    ensures !Peek(s, q, QUESTION)
  {
    hide At, WfConcat, PrintConcat;
    match body
    case Only(c) => ConcatStart(s, q, c);
    case Or(c, rest) =>
      AtSplit(s, q, PrintConcat(c), [BAR] + PrintAlt(rest));
      AtSplit(s, q + |PrintConcat(c)|, [BAR], PrintAlt(rest));
      AtByte(s, q + |PrintConcat(c)|, [BAR], 0);
      ConcatStart(s, q, c);
  }

  /** Reading a printed pattern gives its tree, exactly when its groups nest no deeper than the limit. */
  lemma PrintedIsParsed(a: Alt)
    requires WfAlt(a)
    ensures Parse(PrintAlt(a)) == if Nesting(a) <= MAX_DEPTH then Some(a) else None
  {
    hide WfAlt, PrintAlt, ParseAlt, Nesting;
    AltReads(PrintAlt(a), 0, a, 0);
  }

  // ---- The reading, step by step ----

  lemma GroupAtom(s: bytes, p: nat, depth: nat)
    requires Peek(s, p, LPAREN)
    ensures ParseAtom(s, p, depth) == ParseGroup(s, p, depth)
  {
  }

  /** What opens a group, case by case. */
  lemma OpeningCases(s: bytes, p: nat)
    requires p < |s|
    ensures !Peek(s, p + 1, QUESTION) ==> ParseOpening(s, p) == Some(Body(Capturing, p + 1))
    ensures Peek(s, p + 1, QUESTION) && Peek(s, p + 2, COLON) ==> ParseOpening(s, p) == Some(Body(NonCapturing, p + 3))
    ensures Peek(s, p + 1, QUESTION) && Peek(s, p + 2, LETTER_P) && Peek(s, p + 3, LESS) ==>
      var e := Until(s, p + 4, GREATER);
      ParseOpening(s, p) == if e < |s| then Some(Body(Named(s[p + 4..e]), e + 1)) else None
    ensures Peek(s, p + 1, QUESTION) && !Peek(s, p + 2, COLON) && !(Peek(s, p + 2, LETTER_P) && Peek(s, p + 3, LESS)) ==>
      var e := FlagsFrom(s, p + 2);
      ParseOpening(s, p)
      == if e == p + 2 then None
         else if Peek(s, e, RPAREN) then Some(FlagsOnly(s[p + 2..e], e + 1))
         else if Peek(s, e, COLON) then Some(Body(Flagged(s[p + 2..e]), e + 1))
         else None
  {
    hide FlagsFrom, Until;
  }

  lemma ItemsEmpty(s: bytes, q: nat)
    requires q <= |s|
    ensures ParseItems(s, q).Some? ==> (ParseItems(s, q).value.tree == [] <==> Peek(s, q, RBRACKET))
  {
    hide ParseItem;
  }

  /** An item is one member, or two with a hyphen between them. */
  lemma ItemByMembers(s: bytes, p: nat)
    requires p < |s|
    ensures match ParseMem(s, p)
      case None => ParseItem(s, p) == None
      case Some(lo) =>
        && lo.end <= |s|
        && if Peek(s, lo.end, MINUS) && lo.end + 1 < |s| && s[lo.end + 1] != RBRACKET then
             match ParseMem(s, lo.end + 1)
             case None => ParseItem(s, p) == None
             case Some(hi) => ParseItem(s, p) == Some(Read(Range(lo.tree, hi.tree), hi.end))
           else ParseItem(s, p) == Some(Read(Single(lo.tree), lo.end))
  {
    hide ParseMem;
  }

  /** A brace, once its digits have been skipped. */
  lemma BraceCases(s: bytes, p: nat, a: nat, comma: bool, e: nat)
    requires p < |s| && a == DigitsFrom(s, p + 1) && comma == Peek(s, a, COMMA) && e == DigitsFrom(s, if comma then a + 1 else a)
    ensures s[p + 1..a] == [] || !Peek(s, e, RBRACE) ==> ParseBraces(s, p) == Read(Once, p)
    ensures s[p + 1..a] != [] && Peek(s, e, RBRACE) ==>
      ParseBraces(s, p) == Read(Braces(s[p + 1..a], comma, s[if comma then a + 1 else a..e], Peek(s, e + 1, QUESTION)), LazyEnd(s, e + 1))
  {
    hide DigitsFrom;
  }
}
