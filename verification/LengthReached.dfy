/**
 The length bound is attained: where case is not ignored, a pattern of the subset whose
 ranges and counts are the right way round matches a string as long as its bound.
 */
module LengthReached {
  import opened Bytes
  import opened Runes
  import opened RegexSyntax
  import opened RegexParse
  import opened RegexLang
  import opened LengthBound
  import FoldBound

  // ---- Patterns that RE2 accepts and that reach their bound ----

  /** Not a property, hexadecimal or octal escape. */
  predicate KnownEscape(e: Escape) {
    !e.Property? && !e.Hex? && !e.Octal?
  }

  predicate KnownMem(m: Mem) {
    m.EscMem? ==> KnownEscape(m.e)
  }

  predicate KnownItem(i: Item) {
    match i
    case Single(m) => KnownMem(m)
    case Range(lo, hi) => KnownMem(lo) && KnownMem(hi)
  }

  /** Every width in the pattern is known. */
  predicate KnownAtom(a: Atom)
    decreases a, 0
  {
    match a
    case Esc(e) => KnownEscape(e)
    case Class(_, items) => forall i <- items :: KnownItem(i)
    case Group(_, body) => Known(body)
    case _ => true
  }

  predicate KnownConcat(c: Concat)
    decreases c, 1
  {
    match c
    case Empty => true
    case Cons(atom, _, rest) => KnownAtom(atom) && KnownConcat(rest)
  }

  predicate Known(a: Alt)
    decreases a, 2
  {
    match a
    case Only(c) => KnownConcat(c)
    case Or(c, rest) => KnownConcat(c) && Known(rest)
  }

  /** A range from the smaller code point to the larger one. */
  predicate IsOrdered(i: Item) {
    match i
    case Single(_) => true
    case Range(lo, hi) =>
      IsRune(EndpointRune(lo)) && IsRune(EndpointRune(hi)) && CodePoint(EndpointRune(lo)) <= CodePoint(EndpointRune(hi))
  }

  /** Leaves the runes of four bytes alone. */
  predicate IsNarrow(i: Item) {
    match i
    case Single(RuneMem(r)) => |r| < 4
    case Single(EscMem(Perl(c))) => !IsNegatedPerl(c)
    case Single(EscMem(Identity(r))) => |r| < 4
    case Single(EscMem(_)) => true
    case Range(_, hi) => |EndpointRune(hi)| < 4
  }

  predicate RegularQuant(q: Quant) {
    match q
    case Braces(min, comma, max, _) => comma && max != [] ==> Value(min) <= Value(max)
    case _ => true
  }

  /** Ranges and counts are the right way round, and negated classes leave the widest runes in. */
  predicate RegularAtom(a: Atom)
    decreases a, 0
  {
    match a
    case Class(negated, items) => forall i <- items :: IsOrdered(i) && (negated ==> IsNarrow(i))
    case Group(_, body) => Regular(body)
    case _ => true
  }

  predicate RegularConcat(c: Concat)
    decreases c, 1
  {
    match c
    case Empty => true
    case Cons(atom, quant, rest) => RegularAtom(atom) && RegularQuant(quant) && RegularConcat(rest)
  }

  predicate Regular(a: Alt)
    decreases a, 2
  {
    match a
    case Only(c) => RegularConcat(c)
    case Or(c, rest) => RegularConcat(c) && Regular(rest)
  }

  // ---- The bound is known exactly when the widths are ----

  lemma ItemIsKnown(i: Item, fold: bool)
    ensures ItemBound(i, fold).Some? <==> KnownItem(i)
  {
  }

  lemma {:induction false} ItemsKnown(items: seq<Item>, fold: bool)
    ensures ItemsBound(items, fold).Some? <==> forall i <- items :: KnownItem(i)
    decreases |items|
  {
    hide ItemBound, KnownItem;
    if items != [] {
      ItemIsKnown(items[0], fold);
      ItemsKnown(items[1..], fold);
      assert items == [items[0]] + items[1..];
    }
  }

  lemma {:induction false} AtomIsKnown(a: Atom)
    requires CaseSensitiveAtom(a)
    ensures AtomBound(a, false).Some? <==> KnownAtom(a)
    ensures KnownAtom(a) ==> !AtomBound(a, false).value.1
    decreases a, 0
  {
    hide ItemsBound, KnownItem, AltBound, Known;
    match a
    case Class(_, items) => ItemsKnown(items, false);
    case Group(_, body) => AltIsKnown(body);
    case _ =>
  }

  lemma {:induction false} ConcatIsKnown(c: Concat, total: nat)
    requires CaseSensitiveConcat(c) && total <= SIZE_MAX
    ensures ConcatBound(c, false, total).Some? <==> KnownConcat(c)
    ensures KnownConcat(c) ==> !ConcatBound(c, false, total).value.1
    decreases c, 1
  {
    hide AtomBound, KnownAtom, CaseSensitiveAtom, QuantBound;
    match c
    case Empty =>
    case Cons(atom, quant, rest) =>
      AtomIsKnown(atom);
      if KnownAtom(atom) {
        ConcatIsKnown(rest, SatAdd(total, QuantBound(AtomBound(atom, false).value.0, quant)));
      }
  }

  lemma {:induction false} AltIsKnown(a: Alt)
    requires CaseSensitive(a)
    ensures AltBound(a, false).Some? <==> Known(a)
    ensures Known(a) ==> !AltBound(a, false).value.1
    decreases a, 2
  {
    hide ConcatBound, KnownConcat, CaseSensitiveConcat;
    match a
    case Only(c) => ConcatIsKnown(c, 0);
    case Or(c, rest) =>
      ConcatIsKnown(c, 0);
      if KnownConcat(c) {
        AltIsKnown(rest);
      }
  }

  // ---- Every atom reaches its bound ----

  lemma WideRune()
    ensures IsRune(FoldBound.FOUR_BYTES) && |FoldBound.FOUR_BYTES| == 4
  {
  }

  lemma EscapeReaches(eq: Fold, e: Escape) returns (x: bytes)
    requires WfEscape(e) && KnownEscape(e)
    ensures EscapeMatches(eq, false, e, x) && EscapeBound(e, false) == Some(|x|)
  {
    match e
    case Perl(c) =>
      if IsNegatedPerl(c) {
        x := FoldBound.FOUR_BYTES;
        assert !PerlMatches(eq, false, LowerCase(c), x);
      } else {
        x := if c == 0x73 then [SPACE] else [ZERO];
        assert PerlHas(c, x[0]) && RuneMatches(eq, false, [x[0]], x);
        assert PerlMatches(eq, false, c, x);
      }
    case ZeroWidth(_) => x := [];
    case Control(c) => x := [ControlByte(c)];
    case Identity(r) => x := r;
  }

  lemma MemReaches(eq: Fold, m: Mem) returns (x: bytes)
    requires WfMem(m) && KnownMem(m)
    ensures MemMatches(eq, false, m, x) && MemBound(m, false) == Some(|x|) && IsRune(x)
  {
    hide EscapeMatches, EscapeBound;
    match m
    case RuneMem(r) => x := r;
    case EscMem(e) =>
      x := EscapeReaches(eq, e);
      IsARune(eq, e, x);
  }

  lemma IsARune(eq: Fold, e: Escape, x: bytes)
    requires !e.ZeroWidth? && EscapeMatches(eq, false, e, x)
    ensures IsRune(x)
  {
  }

  lemma EndpointReaches(m: Mem)
    requires WfMem(m) && IsEndpoint(m) && KnownMem(m)
    ensures IsRune(EndpointRune(m)) && MemBound(m, false) == Some(|EndpointRune(m)|)
  {
  }

  lemma ItemReaches(eq: Fold, i: Item) returns (x: bytes)
    requires WfItem(i) && KnownItem(i) && IsOrdered(i)
    ensures ItemMatches(eq, false, i, x) && ItemBound(i, false) == Some(|x|) && IsRune(x)
  {
    hide MemMatches, MemBound, WfMem, RuneLength, CodePoint;
    match i
    case Single(m) => x := MemReaches(eq, m);
    case Range(lo, hi) =>
      EndpointReaches(lo);
      EndpointReaches(hi);
      x := EndpointRune(hi);
      LengthFollowsCodePoint(EndpointRune(lo), x);
      assert Between(EndpointRune(lo), x, EndpointRune(hi)) && RuneMatches(eq, false, x, x);
  }

  /** Some item is as wide as the class. */
  lemma {:induction false} WidestItem(items: seq<Item>) returns (k: nat)
    requires items != [] && ItemsBound(items, false).Some?
    ensures k < |items| && ItemBound(items[k], false) == ItemsBound(items, false)
    decreases |items|
  {
    hide ItemBound;
    k := 0;
    if |items| > 1 {
      var j := WidestItem(items[1..]);
      if ItemBound(items[0], false).value < ItemBound(items[1..][j], false).value {
        k := j + 1;
      }
    } else {
      assert items[1..] == [];
    }
  }

  /** A narrow item covers no rune of four bytes. */
  lemma NarrowCovers(eq: Fold, i: Item)
    requires WfItem(i) && IsNarrow(i) && IsOrdered(i)
    ensures !ItemCovers(eq, false, i, FoldBound.FOUR_BYTES)
  {
    hide RuneLength, CodePoint;
    var x := FoldBound.FOUR_BYTES;
    WideRune();
    match i
    case Range(lo, hi) =>
      forall r | Between(EndpointRune(lo), r, EndpointRune(hi)) ensures |r| < 4 {
        LengthFollowsCodePoint(r, EndpointRune(hi));
      }
    case Single(EscMem(Perl(c))) =>
      assert !PerlMatches(eq, false, LowerCase(c), x);
    case _ =>
  }

  lemma ClassReaches(eq: Fold, negated: bool, items: seq<Item>) returns (x: bytes)
    requires WfAtom(Class(negated, items)) && KnownAtom(Class(negated, items)) && RegularAtom(Class(negated, items))
    ensures ClassMatches(eq, false, negated, items, x)
    ensures ItemsBound(items, false).Some? && |x| == if negated then UTF8_MAX else ItemsBound(items, false).value
  {
    hide KnownItem, IsOrdered, IsNarrow, ItemMatches, ItemBound, ItemCovers, WfItem;
    ItemsKnown(items, false);
    if negated {
      x := FoldBound.FOUR_BYTES;
      WideRune();
      forall i <- items ensures !ItemCovers(eq, false, i, x) {
        NarrowCovers(eq, i);
      }
    } else {
      var k := WidestItem(items);
      assert items[k] in items;
      x := ItemReaches(eq, items[k]);
    }
  }

  // ---- Repetition ----

  function Copies(w: bytes, k: nat): bytes {
    if k == 0 then [] else w + Copies(w, k - 1)
  }

  lemma {:induction false} CopiesAre(eq: Fold, a: Atom, w: bytes, k: nat)
    requires AtomMatches(eq, false, a, w)
    ensures CopiesMatch(eq, false, a, k, Copies(w, k)) && |Copies(w, k)| == k * |w|
    decreases k
  {
    hide AtomMatches;
    if k > 0 {
      CopiesAre(eq, a, w, k - 1);
      OneMore(k, |w|);
    }
  }

  /** An allowed number of copies that makes the bound of the repetition. */
  lemma EnoughCopies(q: Quant, n: nat) returns (k: nat)
    requires n <= SIZE_MAX && RegularQuant(q)
    ensures Allowed(q, k) && k * n >= QuantBound(n, q)
  {
    match q
    case Once => k := 1;
    case Opt(_) => k := 1;
    case Star(_) =>
      k := SIZE_MAX;
      ManyCopies(k, n);
    case Plus(_) =>
      k := SIZE_MAX;
      ManyCopies(k, n);
    case Braces(min, comma, max, _) =>
      if !comma {
        k := Value(min);
        CountReached(min, n);
      } else if max != [] {
        k := Value(max);
        CountReached(max, n);
      } else {
        k := Value(min) + SIZE_MAX;
        ManyCopies(k, n);
      }
  }

  lemma ManyCopies(k: nat, n: nat)
    requires k >= SIZE_MAX
    ensures k * n >= Unbounded(n)
  {
    if n > 0 {
      assert k * n >= k;
    }
  }

  lemma CountReached(d: bytes, n: nat)
    requires n <= SIZE_MAX
    ensures Value(d) * n >= SatMul(RepeatCount(d), n)
  {
    RepeatCountIs(d);
    SatMulIsExact(RepeatCount(d), n);
    TimesMonotone(RepeatCount(d), Value(d), n);
  }

  lemma PieceReaches(eq: Fold, a: Atom, q: Quant, w: bytes, n: nat) returns (v: bytes)
    requires AtomMatches(eq, false, a, w) && n <= |w| && n <= SIZE_MAX && RegularQuant(q)
    ensures PieceMatches(eq, false, a, q, v) && |v| >= QuantBound(n, q)
  {
    hide AtomMatches, QuantBound, Allowed, CopiesMatch;
    var k := EnoughCopies(q, n);
    v := Copies(w, k);
    CopiesAre(eq, a, w, k);
    WiderCopies(k, n, |w|);
  }

  lemma WiderCopies(k: nat, n: nat, m: nat)
    requires n <= m
    ensures k * n <= k * m
  {
  }

  // ---- Every pattern reaches its bound ----

  lemma {:induction false} AtomReaches(eq: Fold, a: Atom) returns (w: bytes)
    requires WfAtom(a) && CaseSensitiveAtom(a) && KnownAtom(a) && RegularAtom(a)
    ensures AtomMatches(eq, false, a, w) && AtomBound(a, false).Some? && |w| >= AtomBound(a, false).value.0
    decreases a, 0
  {
    hide EscapeMatches, ClassMatches, AltMatches, EscapeBound, ItemsBound, AltBound, WfAlt, WfItems, WfFlags, Known, Regular, CaseSensitive, KnownItem, IsOrdered, FlagFold;
    match a
    case Lit(r) => w := r;
    case Esc(e) => w := EscapeReaches(eq, e);
    case Anchor(_) => w := [];
    case Dot =>
      w := FoldBound.FOUR_BYTES;
      WideRune();
    case Class(negated, items) => w := ClassReaches(eq, negated, items);
    case Group(head, body) =>
      CaseSensitiveAtomIsSafe(a);
      if head.Flagged? {
        FlagFoldNeedsI(head.flags, true, false);
      }
      w := AltReaches(eq, body);
    case SetFlags(_) => w := [];
  }

  lemma {:induction false} ConcatReaches(eq: Fold, c: Concat, total: nat) returns (w: bytes)
    requires WfConcat(c) && CaseSensitiveConcat(c) && KnownConcat(c) && RegularConcat(c) && total <= SIZE_MAX
    ensures ConcatMatches(eq, false, c, w)
    ensures ConcatBound(c, false, total).Some? && total + |w| >= ConcatBound(c, false, total).value.0
    decreases c, 1
  {
    hide PieceMatches, AtomMatches, AtomBound, WfAtom, WfQuant, QuantBound, AtomFold, CaseSensitiveAtom, KnownAtom, RegularAtom;
    match c
    case Empty => w := [];
    case Cons(atom, quant, rest) =>
      AtomIsKnown(atom);
      CaseSensitiveAtomIsSafe(atom);
      var x := AtomReaches(eq, atom);
      var n := AtomBound(atom, false).value.0;
      var u := PieceReaches(eq, atom, quant, x, n);
      var v := ConcatReaches(eq, rest, SatAdd(total, QuantBound(n, quant)));
      w := u + v;
  }

  lemma {:induction false} AltReaches(eq: Fold, a: Alt) returns (w: bytes)
    requires WfAlt(a) && CaseSensitive(a) && Known(a) && Regular(a)
    ensures AltMatches(eq, false, a, w) && AltBound(a, false).Some? && |w| >= AltBound(a, false).value.0
    decreases a, 2
  {
    hide ConcatMatches, ConcatBound, WfConcat, CaseSensitiveConcat, KnownConcat, RegularConcat, ConcatFold;
    ConcatIsKnown(a.c, 0);
    var u := ConcatReaches(eq, a.c, 0);
    match a
    case Only(_) => w := u;
    case Or(c, rest) =>
      CaseSensitiveConcatIsSafe(c);
      var v := AltReaches(eq, rest);
      w := if |u| >= |v| then u else v;
  }

  /**
   The bound is the length of a longest match: for a pattern of the subset that nowhere
   ignores case, and whose ranges and counts are the right way round, some match is as
   long as the bound; none is longer, unless the bound is SIZE_MAX.
   */
  lemma LengthBoundIsReached(eq: Fold, a: Alt) returns (w: bytes)
    requires GoodFold(eq) && WfAlt(a) && CaseSensitive(a) && Regular(a) && Known(a) && Nesting(a) <= 1000
    ensures Matches(eq, a, w) && |w| >= RegexMaxLen(PrintAlt(a))
    ensures RegexMaxLen(PrintAlt(a)) < SIZE_MAX ==> |w| == RegexMaxLen(PrintAlt(a))
  {
    hide GoodFold, WfAlt, CaseSensitive, Regular, Known, AltMatches, AltBound, Parse, PrintAlt, Nesting, Safe;
    PrintedIsParsed(a);
    w := AltReaches(eq, a);
    CaseSensitiveIsSafe(a);
    if RegexMaxLen(PrintAlt(a)) < SIZE_MAX {
      LengthBoundIsSound(eq, a, w);
    }
  }

  /** No bound is given for a pattern that nests deeper than a thousand groups, or has a width that is not known. */
  lemma NoBoundWhenUnknown(a: Alt)
    requires WfAlt(a) && CaseSensitive(a) && (Nesting(a) > 1000 || !Known(a))
    ensures RegexMaxLen(PrintAlt(a)) == 0xFFFF_FFFF_FFFF_FFFF
  {
    hide WfAlt, CaseSensitive, Known, AltBound, Parse, PrintAlt, Nesting;
    PrintedIsParsed(a);
    AltIsKnown(a);
  }
}
