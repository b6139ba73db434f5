/**
 When the length bound of PlaceholderRegex.hpp is right although case is ignored: for one
 atom after `(?i)`, exactly when the bound covers the widest rune the atom may match.
 */
module FoldBound {
  import opened Bytes
  import opened Runes
  import opened RegexSyntax
  import opened RegexParse
  import opened RegexLang
  import opened LengthBound

  /** `(?i)` and one atom. */
  function Folded(a: Atom): Alt {
    Only(Cons(SetFlags([LETTER_I]), Once, Cons(a, Once, Empty)))
  }

  /** An atom that is no group. */
  predicate IsSingle(a: Atom) {
    !a.Group? && !a.SetFlags?
  }

  /** A bound that is given is never too small, however case folds outside ASCII. */
  ghost predicate BoundHolds(a: Alt) {
    forall eq, w | GoodFold(eq) && Matches(eq, a, w) && RegexMaxLen(PrintAlt(a)) < SIZE_MAX :: |w| <= RegexMaxLen(PrintAlt(a))
  }

  /** The folding that relates as much as the table allows. */
  const WIDEST_FOLD: Fold := (r: bytes, x: bytes) => |r| != 1 || r[0] > 0x7F || AsciiFold(r[0], x)

  // U+10000
  const FOUR_BYTES: bytes := [0xF0, 0x90, 0x80, 0x80]

  lemma WidestFoldIsGood()
    ensures GoodFold(WIDEST_FOLD)
  {
    forall r | IsRune(r) ensures WIDEST_FOLD(r, r) {
      if |r| == 1 {
        assert r == [r[0]];
      }
    }
  }

  // ---- The pattern of one folded atom ----

  lemma FlagsMatch(eq: Fold)
    ensures PieceMatches(eq, false, SetFlags([LETTER_I]), Once, []) && AtomFold(SetFlags([LETTER_I]), false)
    ensures WfAtom(SetFlags([LETTER_I])) && SafeAtom(SetFlags([LETTER_I]), false)
    ensures AtomBound(SetFlags([LETTER_I]), false) == Some((0, true)) && NestingOfAtom(SetFlags([LETTER_I])) == 1
  {
    assert WfFlags([LETTER_I]);
    assert [LETTER_I][1..] == [];
    OneCopyMatches(eq, false, SetFlags([LETTER_I]), []);
  }

  lemma OneCopyMatches(eq: Fold, ci: bool, a: Atom, w: bytes)
    requires AtomMatches(eq, ci, a, w)
    ensures PieceMatches(eq, ci, a, Once, w)
  {
    hide AtomMatches;
    assert w == w + [];
    assert CopiesMatch(eq, ci, a, 0, []);
    assert CopiesMatch(eq, ci, a, 1, w);
    assert Allowed(Once, 1);
  }

  /** What the atom matches with case ignored, the pattern matches. */
  lemma FoldedMatches(eq: Fold, a: Atom, x: bytes)
    requires AtomMatches(eq, true, a, x)
    ensures Matches(eq, Folded(a), x)
  {
    hide PieceMatches, AtomMatches, AtomFold;
    var one := Cons(a, Once, Empty);
    FlagsMatch(eq);
    OneCopyMatches(eq, true, a, x);
    assert ConcatMatches(eq, AtomFold(a, true), Empty, []);
    assert x == x + [];
    assert ConcatMatches(eq, true, one, x);
    assert x == [] + x;
    assert ConcatMatches(eq, false, Folded(a).c, x);
  }

  /** The bound of the pattern is the bound of the atom. */
  lemma FoldedBound(a: Atom)
    requires WfAtom(a) && IsSingle(a)
    ensures WfAlt(Folded(a))
    ensures RegexMaxLen(PrintAlt(Folded(a))) == match AtomBound(a, true) { case None => SIZE_MAX case Some(b) => b.0 }
  {
    hide WfAtom, AtomBound, PrintAlt, Parse, NestingOfAtom;
    var one := Cons(a, Once, Empty);
    FlagsMatch(WIDEST_FOLD);
    SingleNesting(a);
    assert WfConcat(Empty) && NestingOfConcat(Empty) == 0;
    assert WfConcat(one) && NestingOfConcat(one) == 0;
    assert WfConcat(Folded(a).c) && NestingOfConcat(Folded(a).c) == 1;
    PrintedIsParsed(Folded(a));
    assert ConcatBound(Folded(a).c, false, 0) == ConcatBound(one, true, 0);
    OneBound(a);
  }

  lemma SingleNesting(a: Atom)
    requires IsSingle(a)
    ensures NestingOfAtom(a) == 0
  {
  }

  lemma OneBound(a: Atom)
    ensures match AtomBound(a, true)
      case None => ConcatBound(Cons(a, Once, Empty), true, 0) == None
      case Some(b) => ConcatBound(Cons(a, Once, Empty), true, 0) == Some((b.0, b.1))
  {
    hide AtomBound;
  }

  lemma FoldedIsSafe(a: Atom)
    requires IsSingle(a) && FoldSafe(a)
    ensures Safe(Folded(a), false)
  {
    hide FoldSafe, AtomFold;
    FlagsMatch(WIDEST_FOLD);
    var one := Cons(a, Once, Empty);
    assert SafeConcat(one, true);
    assert SafeConcat(Folded(a).c, false);
  }

  // ---- Every reach is reached ----

  /** A rune as wide as a pattern rune reaches. */
  lemma WidestRune(r: bytes) returns (x: bytes)
    requires IsRune(r)
    ensures RuneMatches(WIDEST_FOLD, true, r, x) && |x| == RuneReach(r)
  {
    if |r| != 1 {
      x := FOUR_BYTES;
    } else if IsK(r[0]) {
      x := KELVIN;
    } else if IsS(r[0]) {
      x := LONG_S;
    } else {
      x := r;
      assert r == [r[0]];
    }
  }

  lemma WidestPerl(c: byte) returns (x: bytes)
    requires IsPerl(c)
    ensures EscapeMatches(WIDEST_FOLD, true, Perl(c), x) && |x| == EscapeReach(Perl(c))
  {
    if IsNegatedPerl(c) {
      x := FOUR_BYTES;
      forall b: byte | PerlHas(LowerCase(c), b) ensures !RuneMatches(WIDEST_FOLD, true, [b], x) {
      }
      assert !PerlMatches(WIDEST_FOLD, true, LowerCase(c), x);
    } else {
      var b: byte := if c == 0x77 then 0x6B else if c == 0x64 then ZERO else SPACE;
      x := WidestRune([b]);
      assert PerlHas(c, b);
      assert PerlMatches(WIDEST_FOLD, true, c, x);
    }
  }

  lemma WidestEscape(e: Escape) returns (x: bytes)
    requires WfEscape(e) && !e.ZeroWidth? && !Undecided(EscMem(e))
    ensures EscapeMatches(WIDEST_FOLD, true, e, x) && |x| == EscapeReach(e)
  {
    hide PerlMatches, RuneMatches, RuneReach;
    match e
    case Perl(c) => x := WidestPerl(c);
    case Control(c) =>
      x := WidestRune([ControlByte(c)]);
      ControlReach(c);
    case Identity(r) => x := WidestRune(r);
    case _ => x := [];
  }

  lemma ControlReach(c: byte)
    ensures RuneReach([ControlByte(c)]) == 1
  {
  }

  lemma WidestMem(m: Mem) returns (x: bytes)
    requires WfMem(m) && !Undecided(m)
    ensures MemMatches(WIDEST_FOLD, true, m, x) && |x| == MemReach(m)
  {
    hide EscapeMatches, WfEscape, RuneMatches, EscapeReach, RuneReach;
    match m
    case RuneMem(r) => x := WidestRune(r);
    case EscMem(e) => x := WidestEscape(e);
  }

  /** The rune of a range that reaches furthest. */
  function WidestOf(lo: bytes, hi: bytes): bytes {
    if |hi| > 1 then hi
    else if Within(lo, 0x4B, hi) then [0x4B]
    else if Within(lo, 0x6B, hi) then [0x6B]
    else if Within(lo, 0x53, hi) then [0x53]
    else if Within(lo, 0x73, hi) then [0x73]
    else lo
  }

  lemma WidestOfIsInRange(lo: bytes, hi: bytes)
    requires IsRune(lo) && IsRune(hi) && CodePoint(lo) <= CodePoint(hi)
    ensures Between(lo, WidestOf(lo, hi), hi) && RuneReach(WidestOf(lo, hi)) == RangeReach(lo, hi)
  {
    LengthFollowsCodePoint(lo, hi);
    if |hi| == 1 {
      assert Within(lo, lo[0], hi);
    }
  }

  lemma WidestItem(i: Item) returns (x: bytes)
    requires WfItem(i) && !ItemUndecided(i) && ItemReach(i) > 0
    ensures ItemMatches(WIDEST_FOLD, true, i, x) && |x| == ItemReach(i)
  {
    hide MemMatches, RuneMatches, MemReach, RuneReach, CodePoint, IsRune;
    match i
    case Single(m) => x := WidestMem(m);
    case Range(lo, hi) =>
      EndpointIsRune(lo);
      EndpointIsRune(hi);
      var a, b := EndpointRune(lo), EndpointRune(hi);
      WidestOfIsInRange(a, b);
      x := WidestRune(WidestOf(a, b));
  }

  lemma EndpointIsRune(m: Mem)
    requires WfMem(m) && IsEndpoint(m) && !Undecided(m)
    ensures IsRune(EndpointRune(m))
  {
  }

  /** An atom that is not safe matches, under some folding, a rune wider than its bound. */
  lemma UnsafeAtomIsWider(a: Atom) returns (x: bytes)
    requires WfAtom(a) && IsSingle(a) && !FoldSafe(a)
    ensures AtomMatches(WIDEST_FOLD, true, a, x)
    ensures AtomBound(a, true).Some? && AtomBound(a, true).value.0 < |x| <= UTF8_MAX
  {
    hide ItemMatches, EscapeMatches, RuneMatches, WfItems, WfEscape, WfItem, ItemReach, EscapeReach, RuneReach, EscapeBound, ItemsBound, RuneWidth;
    match a
    case Lit(r) =>
      x := WidestRune(r);
      ReachAtMostFour(a);
    case Esc(e) =>
      BoundedEscape(e);
      x := WidestEscape(e);
      ReachAtMostFour(a);
    case Class(negated, items) => x := UnsafeClassIsWider(items);
    case _ => x := [];
  }

  /** An escape that is not safe has a width and a bound. */
  lemma BoundedEscape(e: Escape)
    requires WfEscape(e) && !FoldSafe(Esc(e))
    ensures !e.ZeroWidth? && !Undecided(EscMem(e))
  {
  }

  lemma ReachAtMostFour(a: Atom)
    ensures a.Lit? ==> RuneReach(a.rune) <= UTF8_MAX
    ensures a.Esc? ==> EscapeReach(a.e) <= UTF8_MAX
  {
  }

  lemma UnsafeClassIsWider(items: seq<Item>) returns (x: bytes)
    requires WfItems(items) && !FoldSafe(Class(false, items))
    ensures AtomMatches(WIDEST_FOLD, true, Class(false, items), x)
    ensures AtomBound(Class(false, items), true).Some? && AtomBound(Class(false, items), true).value.0 < |x| <= UTF8_MAX
  {
    hide ItemMatches, WfItem, ItemReach, ItemsBound, ItemBound, IsRune, ItemUndecided;
    var i :| i in items && ItemReach(i) > ItemsBound(items, true).value;
    var k :| 0 <= k < |items| && items[k] == i;
    ItemBelowItems(items, true, k);
    BoundedItem(i);
    x := WidestItem(i);
    ItemIsRune(i, x);
  }

  lemma BoundedItem(i: Item)
    requires ItemBound(i, true).Some?
    ensures !ItemUndecided(i)
  {
  }

  lemma ItemIsRune(i: Item, x: bytes)
    requires WfItem(i) && ItemMatches(WIDEST_FOLD, true, i, x)
    ensures IsRune(x) && |x| <= UTF8_MAX
  {
    hide PerlMatches;
  }

  // ---- The exact condition ----

  /** The bound of an atom after `(?i)` is right, for every folding, if and only if the atom is safe. */
  lemma FoldedAtomBoundIffSafe(a: Atom)
    requires WfAtom(a) && IsSingle(a)
    ensures BoundHolds(Folded(a)) <==> FoldSafe(a)
  {
    hide GoodFold, WfAtom, AltMatches, RegexMaxLen, PrintAlt, FoldSafe, AtomBound, AtomMatches, Safe, WfAlt;
    FoldedBound(a);
    if FoldSafe(a) {
      FoldedIsSafe(a);
      forall eq, w | GoodFold(eq) && Matches(eq, Folded(a), w) && RegexMaxLen(PrintAlt(Folded(a))) < SIZE_MAX
        ensures |w| <= RegexMaxLen(PrintAlt(Folded(a)))
      {
        LengthBoundIsSound(eq, Folded(a), w);
      }
    } else {
      WidestFoldIsGood();
      var x := UnsafeAtomIsWider(a);
      FoldedMatches(WIDEST_FOLD, a, x);
      assert GoodFold(WIDEST_FOLD) && Matches(WIDEST_FOLD, Folded(a), x) && RegexMaxLen(PrintAlt(Folded(a))) < |x|;
    }
  }

  /** `\w` is the one escape for which the bound is too small: with case ignored it has bound 1 and matches U+212A, three bytes. */
  lemma FoldedWordIsWider(eq: Fold)
    requires eq([0x6B], KELVIN)
    ensures RegexMaxLen(PrintAlt(Folded(Esc(Perl(0x77))))) == 1 && Matches(eq, Folded(Esc(Perl(0x77))), KELVIN)
    ensures forall e | WfEscape(e) && !e.Identity? :: FoldSafe(Esc(e)) <==> e != Perl(0x77)
  {
    hide RegexMaxLen, PrintAlt, AltMatches;
    FoldedBound(Esc(Perl(0x77)));
    assert IsRune(KELVIN);
    assert PerlHas(0x77, 0x6B) && RuneMatches(eq, true, [0x6B], KELVIN);
    assert PerlMatches(eq, true, 0x77, KELVIN);
    FoldedMatches(eq, Esc(Perl(0x77)), KELVIN);
  }

  /** A range of ASCII letters is safe exactly when it holds none of `k`, `K`, `s`, `S`, or an end of it that is one of them widens the bound enough. */
  lemma AsciiRangeSafe(lo: byte, hi: byte)
    requires lo <= hi <= 0x7F
    ensures FoldSafe(Class(false, [Range(RuneMem([lo]), RuneMem([hi]))])) <==>
      IsK(lo) || IsS(lo) || IsK(hi) || IsS(hi)
      || !(lo <= 0x4B <= hi || lo <= 0x6B <= hi || lo <= 0x53 <= hi || lo <= 0x73 <= hi)
  {
    var items := [Range(RuneMem([lo]), RuneMem([hi]))];
    assert items[1..] == [] && ItemsBound([], true) == Some(0);
    assert items[0] in items && forall i <- items :: i == items[0];
    var n := MaxNat(RuneWidth([lo], true), RuneWidth([hi], true));
    assert ItemBound(items[0], true) == Some(n);
    assert ItemsBound(items, true) == Some(MaxNat(n, 0));
  }
}
