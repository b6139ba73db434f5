/**
 regex_max_len of PlaceholderRegex.hpp: a bound, in bytes, on what a pattern can match,
 and the proof that a bound below SIZE_MAX is never too small.
 */
module LengthBound {
  import opened Bytes
  import opened Runes
  import opened RegexSyntax
  import opened RegexParse
  import opened RegexLang

  const SIZE_MAX: nat := 0xFFFF_FFFF_FFFF_FFFF

  const UTF8_MAX: nat := 4

  // ---- Saturating arithmetic ----

  function SatAdd(a: nat, b: nat): (r: nat)
    requires a <= SIZE_MAX && b <= SIZE_MAX
    ensures r == if a + b <= SIZE_MAX then a + b else SIZE_MAX
  {
    if a > SIZE_MAX - b then SIZE_MAX else a + b
  }

  function SatMul(a: nat, b: nat): (r: nat)
    requires a <= SIZE_MAX && b <= SIZE_MAX
    ensures r <= SIZE_MAX
  {
    if a == 0 || b == 0 then 0 else if a > SIZE_MAX / b then SIZE_MAX else (ProductFits(a, b); a * b)
  }

  lemma ProductFits(a: nat, b: nat)
    requires b > 0 && a <= SIZE_MAX / b
    ensures a * b <= SIZE_MAX
  {
    var q := SIZE_MAX / b;
    assert q * b <= SIZE_MAX;
    assert a * b <= q * b;
  }

  lemma ProductOverflows(a: nat, b: nat)
    requires b > 0 && a > SIZE_MAX / b
    ensures a * b > SIZE_MAX
  {
    var q := SIZE_MAX / b;
    assert SIZE_MAX < (q + 1) * b;
    assert (q + 1) * b <= a * b;
  }

  /** Saturation is exact: the product, or SIZE_MAX when the product does not fit. */
  lemma SatMulIsExact(a: nat, b: nat)
    requires a <= SIZE_MAX && b <= SIZE_MAX
    ensures SatMul(a, b) == if a * b <= SIZE_MAX then a * b else SIZE_MAX
  {
    if a != 0 && b != 0 {
      if a > SIZE_MAX / b {
        ProductOverflows(a, b);
      } else {
        ProductFits(a, b);
      }
    }
  }

  // ---- The bound of a tree ----

  /** The bytes one pattern rune may match; `s` and `k` have wider partners when case is ignored. */
  function RuneWidth(r: bytes, fold: bool): (n: nat)
    ensures n <= |r| + 2
  {
    if fold && |r| == 1 && (IsS(r[0]) || IsK(r[0])) then 3 else |r|
  }

  function EscapeBound(e: Escape, fold: bool): Option<nat> {
    match e
    case Perl(c) => Some(if IsNegatedPerl(c) then UTF8_MAX else 1)
    case ZeroWidth(_) => Some(0)
    case Control(_) => Some(1)
    case Identity(r) => Some(RuneWidth(r, fold))
    case Property(_) => None
    case Hex(_) => None
    case Octal(_) => None
  }

  function MemBound(m: Mem, fold: bool): Option<nat> {
    match m
    case RuneMem(r) => Some(RuneWidth(r, fold))
    case EscMem(e) => EscapeBound(e, fold)
  }

  function ItemBound(i: Item, fold: bool): Option<nat> {
    match i
    case Single(m) => MemBound(m, fold)
    case Range(lo, hi) =>
      match (MemBound(lo, fold), MemBound(hi, fold))
      case (Some(a), Some(b)) => Some(MaxNat(a, b))
      case _ => None
  }

  /** The widest item. */
  function ItemsBound(items: seq<Item>, fold: bool): Option<nat> {
    if items == [] then Some(0)
    else
      match (ItemBound(items[0], fold), ItemsBound(items[1..], fold))
      case (Some(a), Some(b)) => Some(MaxNat(a, b))
      case _ => None
  }

  /** A repeat count, saturating digit by digit. */
  function RepeatCount(d: bytes): (n: nat)
    ensures n <= SIZE_MAX
  {
    if d == [] then 0 else SatAdd(SatMul(RepeatCount(d[..|d| - 1]), 10), Digit(d[|d| - 1]))
  }

  function Unbounded(n: nat): (r: nat)
    ensures r <= SIZE_MAX
  {
    if n == 0 then 0 else SIZE_MAX
  }

  function QuantBound(n: nat, q: Quant): (r: nat)
    requires n <= SIZE_MAX
    ensures r <= SIZE_MAX
  {
    match q
    case Once => n
    case Star(_) => Unbounded(n)
    case Plus(_) => Unbounded(n)
    case Opt(_) => n
    case Braces(min, comma, max, _) =>
      if !comma then SatMul(RepeatCount(min), n) else if max == [] then Unbounded(n) else SatMul(RepeatCount(max), n)
  }

  /** A width as an unsigned word; runes have at most four bytes. */
  function Clamped(n: nat): (r: nat)
    ensures r <= SIZE_MAX
  {
    if n <= SIZE_MAX then n else SIZE_MAX
  }

  function AtomBound(a: Atom, fold: bool): (r: Option<(nat, bool)>)
    ensures r.Some? ==> r.value.0 <= SIZE_MAX
    decreases a, 0
  {
    match a
    case Lit(r) => Some((Clamped(RuneWidth(r, fold)), fold))
    case Esc(e) => (match EscapeBound(e, fold) case None => None case Some(n) => Some((Clamped(n), fold)))
    case Anchor(_) => Some((0, fold))
    case Dot => Some((UTF8_MAX, fold))
    case Class(negated, items) =>
      (match ItemsBound(items, fold) case None => None case Some(n) => Some((if negated then UTF8_MAX else Clamped(n), fold)))
    case Group(head, body) => AltBound(body, fold || (head.Flagged? && SetsFold(head.flags)))
    case SetFlags(flags) => Some((0, fold || SetsFold(flags)))
  }

  function ConcatBound(c: Concat, fold: bool, total: nat): (r: Option<(nat, bool)>)
    requires total <= SIZE_MAX
    ensures r.Some? ==> r.value.0 <= SIZE_MAX
    decreases c, 1
  {
    match c
    case Empty => Some((total, fold))
    case Cons(atom, quant, rest) =>
      match AtomBound(atom, fold)
      case None => None
      case Some(b) => ConcatBound(rest, b.1, SatAdd(total, QuantBound(b.0, quant)))
  }

  /** The widest branch. */
  function AltBound(a: Alt, fold: bool): (r: Option<(nat, bool)>)
    ensures r.Some? ==> r.value.0 <= SIZE_MAX
    decreases a, 2
  {
    match a
    case Only(c) => ConcatBound(c, fold, 0)
    case Or(c, rest) =>
      match ConcatBound(c, fold, 0)
      case None => None
      case Some(b) =>
        match AltBound(rest, b.1)
        case None => None
        case Some(others) => Some((MaxNat(b.0, others.0), others.1))
  }

  /** regex_max_len: SIZE_MAX when no bound is known. */
  function RegexMaxLen(pattern: bytes): (n: nat)
    ensures n <= SIZE_MAX
  {
    match Parse(pattern)
    case None => SIZE_MAX
    case Some(a) =>
      match AltBound(a, false)
      case None => SIZE_MAX
      case Some(b) => b.0
  }

  // ---- How far an atom reaches when case is ignored ----

  /** The bytes of the widest rune that a pattern rune may match: the table for ASCII, anything for other runes. */
  function RuneReach(r: bytes): nat {
    if |r| != 1 then UTF8_MAX else if IsK(r[0]) then |KELVIN| else if IsS(r[0]) then |LONG_S| else 1
  }

  function EscapeReach(e: Escape): nat {
    match e
    case Perl(c) => if IsNegatedPerl(c) then UTF8_MAX else if c == 0x77 then |KELVIN| else 1
    case ZeroWidth(_) => 0
    case Control(_) => 1
    case Identity(r) => RuneReach(r)
    case _ => UTF8_MAX
  }

  function MemReach(m: Mem): nat {
    match m
    case RuneMem(r) => RuneReach(r)
    case EscMem(e) => EscapeReach(e)
  }

  /** The byte is between two ASCII runes. */
  predicate Within(lo: bytes, b: byte, hi: bytes) {
    |lo| == 1 && lo[0] <= b && |hi| == 1 && b <= hi[0]
  }

  /** A range reaches as far as the widest rune that one of its runes may match. */
  function RangeReach(lo: bytes, hi: bytes): nat {
    if !IsRune(lo) || !IsRune(hi) then UTF8_MAX
    else if CodePoint(lo) > CodePoint(hi) then 0
    else if |hi| > 1 then UTF8_MAX
    else if Within(lo, 0x4B, hi) || Within(lo, 0x6B, hi) then |KELVIN|
    else if Within(lo, 0x53, hi) || Within(lo, 0x73, hi) then |LONG_S|
    else 1
  }

  function ItemReach(i: Item): nat {
    match i
    case Single(m) => MemReach(m)
    case Range(lo, hi) => RangeReach(EndpointRune(lo), EndpointRune(hi))
  }

  /** The bound of an atom that stands where case is ignored covers all it reaches. */
  predicate FoldSafe(a: Atom) {
    match a
    case Lit(r) => RuneReach(r) <= RuneWidth(r, true)
    case Esc(e) => EscapeBound(e, true).None? || EscapeReach(e) <= EscapeBound(e, true).value
    case Class(negated, items) =>
      negated || ItemsBound(items, true).None? || forall i <- items :: ItemReach(i) <= ItemsBound(items, true).value
    case _ => true
  }

  /** Every atom that stands in the scope of a case-folding flag is safe; `ci` says whether one is on at the start. */
  predicate SafeAtom(a: Atom, ci: bool)
    decreases a, 0
  {
    match a
    case Group(head, body) => Safe(body, HeadFold(head, ci))
    case _ => ci ==> FoldSafe(a)
  }

  predicate SafeConcat(c: Concat, ci: bool)
    decreases c, 1
  {
    match c
    case Empty => true
    case Cons(atom, _, rest) => SafeAtom(atom, ci) && SafeConcat(rest, AtomFold(atom, ci))
  }

  predicate Safe(a: Alt, ci: bool)
    decreases a, 2
  {
    match a
    case Only(c) => SafeConcat(c, ci)
    case Or(c, rest) => SafeConcat(c, ci) && Safe(rest, ConcatFold(c, ci))
  }

  // ---- Nothing matched is wider than the reach, or than the bound where case counts ----

  lemma RuneReached(eq: Fold, r: bytes, x: bytes)
    requires GoodFold(eq) && IsRune(r) && RuneMatches(eq, true, r, x)
    ensures |x| <= RuneReach(r)
  {
    if |r| == 1 {
      assert r == [r[0]];
      assert AsciiFold(r[0], x);
    }
  }

  lemma PerlReached(eq: Fold, ci: bool, c: byte, x: bytes)
    requires GoodFold(eq) && PerlMatches(eq, ci, c, x) && IsPerl(c) && !IsNegatedPerl(c)
    ensures |x| <= if ci then EscapeReach(Perl(c)) else 1
  {
    var b: byte :| PerlHas(c, b) && RuneMatches(eq, ci, [b], x);
    if ci {
      assert AsciiFold(b, x);
    }
  }

  lemma EscapeBounded(eq: Fold, ci: bool, fold: bool, e: Escape, x: bytes)
    requires GoodFold(eq) && WfEscape(e) && EscapeMatches(eq, ci, e, x) && EscapeBound(e, fold).Some?
    ensures |x| <= if ci then EscapeReach(e) else EscapeBound(e, fold).value
  {
    hide GoodFold, PerlMatches, RuneMatches;
    match e
    case Perl(c) =>
      if !IsNegatedPerl(c) {
        PerlReached(eq, ci, c, x);
      }
    case Control(c) => if ci { RuneReached(eq, [ControlByte(c)], x); } else { SameRune(eq, [ControlByte(c)], x); }
    case Identity(r) => if ci { RuneReached(eq, r, x); } else { SameRune(eq, r, x); }
    case _ =>
  }

  lemma SameRune(eq: Fold, r: bytes, x: bytes)
    requires RuneMatches(eq, false, r, x)
    ensures x == r
  {
  }

  lemma MemBounded(eq: Fold, ci: bool, fold: bool, m: Mem, x: bytes)
    requires GoodFold(eq) && WfMem(m) && MemMatches(eq, ci, m, x) && MemBound(m, fold).Some?
    ensures |x| <= if ci then MemReach(m) else MemBound(m, fold).value
  {
    hide GoodFold, EscapeMatches, EscapeBound, WfEscape, RuneMatches, EscapeReach, RuneReach;
    match m
    case RuneMem(r) => if ci { RuneReached(eq, r, x); } else { SameRune(eq, r, x); }
    case EscMem(e) => EscapeBounded(eq, ci, fold, e, x);
  }

  lemma EndpointWidth(m: Mem, fold: bool)
    requires WfMem(m) && IsEndpoint(m) && MemBound(m, fold).Some?
    ensures IsRune(EndpointRune(m)) && |EndpointRune(m)| <= MemBound(m, fold).value
  {
  }

  lemma RangeReached(eq: Fold, lo: bytes, hi: bytes, r: bytes, x: bytes)
    requires GoodFold(eq) && Between(lo, r, hi) && RuneMatches(eq, true, r, x)
    ensures |x| <= RangeReach(lo, hi)
  {
    RuneReached(eq, r, x);
    LengthFollowsCodePoint(r, hi);
    if |hi| == 1 {
      LengthFollowsCodePoint(lo, r);
      assert Within(lo, r[0], hi);
    }
  }

  lemma ItemBounded(eq: Fold, ci: bool, fold: bool, i: Item, x: bytes)
    requires GoodFold(eq) && WfItem(i) && ItemMatches(eq, ci, i, x) && ItemBound(i, fold).Some?
    ensures |x| <= if ci then ItemReach(i) else ItemBound(i, fold).value
  {
    hide GoodFold, MemMatches, WfMem, RuneMatches, MemReach, RangeReach, CodePoint, IsRune;
    match i
    case Single(m) => MemBounded(eq, ci, fold, m, x);
    case Range(lo, hi) =>
      Decided(lo, fold);
      Decided(hi, fold);
      EndpointWidth(hi, fold);
      var r :| Between(EndpointRune(lo), r, EndpointRune(hi)) && RuneMatches(eq, ci, r, x);
      if ci {
        RangeReached(eq, EndpointRune(lo), EndpointRune(hi), r, x);
      } else {
        SameRune(eq, r, x);
        LengthFollowsCodePoint(r, EndpointRune(hi));
      }
  }

  lemma Decided(m: Mem, fold: bool)
    ensures MemBound(m, fold).Some? <==> !Undecided(m)
  {
  }

  lemma {:induction false} ItemBelowItems(items: seq<Item>, fold: bool, k: nat)
    requires k < |items| && ItemsBound(items, fold).Some?
    ensures ItemBound(items[k], fold).Some? && ItemBound(items[k], fold).value <= ItemsBound(items, fold).value
    decreases |items|
  {
    hide ItemBound;
    if k > 0 {
      ItemBelowItems(items[1..], fold, k - 1);
    }
  }

  /** What a class matches: at most four bytes, at most its bound where case counts, at most its reach elsewhere. */
  lemma ClassBounded(eq: Fold, ci: bool, fold: bool, negated: bool, items: seq<Item>, x: bytes)
    requires GoodFold(eq) && (ci ==> fold && FoldSafe(Class(negated, items))) && WfItems(items)
    requires ClassMatches(eq, ci, negated, items, x) && ItemsBound(items, fold).Some?
    ensures |x| <= 4 && |x| <= if negated then UTF8_MAX else ItemsBound(items, fold).value
  {
    hide GoodFold, ItemMatches, WfItem, ItemBound, ItemReach, ItemsBound;
    if !negated {
      var i :| i in items && ItemMatches(eq, ci, i, x);
      var k :| 0 <= k < |items| && items[k] == i;
      ItemBelowItems(items, fold, k);
      ItemBounded(eq, ci, fold, i, x);
    }
  }

  // ---- Repetition ----

  lemma {:induction false} RepeatCountIs(d: bytes)
    ensures RepeatCount(d) == if Value(d) <= SIZE_MAX then Value(d) else SIZE_MAX
    decreases |d|
  {
    if d != [] {
      var n := |d| - 1;
      RepeatCountIs(d[..n]);
      SatMulIsExact(RepeatCount(d[..n]), 10);
    }
  }

  /** Saturated counts of saturated bounds are still bounds. */
  lemma RepeatBounded(k: nat, count: nat, n: nat)
    requires k <= count && n <= SIZE_MAX
    ensures var c := if count <= SIZE_MAX then count else SIZE_MAX;
      SatMul(c, n) < SIZE_MAX ==> k * n <= SatMul(c, n)
  {
    var c := if count <= SIZE_MAX then count else SIZE_MAX;
    SatMulIsExact(c, n);
    if n > 0 && count <= SIZE_MAX {
      TimesMonotone(k, c, n);
    } else if n > 0 {
      assert SIZE_MAX * n >= SIZE_MAX;
    }
  }

  lemma TimesMonotone(a: nat, b: nat, n: nat)
    requires a <= b
    ensures a * n <= b * n
  {
  }

  /** How many copies are allowed, against the bound of a repetition. */
  lemma QuantBounded(q: Quant, k: nat, n: nat)
    requires Allowed(q, k) && n <= SIZE_MAX && QuantBound(n, q) < SIZE_MAX
    ensures k == 0 || n < SIZE_MAX
    ensures k * n <= QuantBound(n, q)
  {
    assert n == 0 ==> k * n == 0;
    match q
    case Braces(min, comma, max, _) =>
      if !comma {
        RepeatCountIs(min);
        RepeatBounded(k, Value(min), n);
        CountBound(RepeatCount(min), n, k);
      } else if max != [] {
        RepeatCountIs(max);
        RepeatBounded(k, Value(max), n);
        CountBound(RepeatCount(max), n, k);
      }
    case Opt(_) =>
      if k == 1 { assert k * n == n; }
    case _ =>
  }

  lemma CountBound(count: nat, n: nat, k: nat)
    requires count <= SIZE_MAX && n <= SIZE_MAX && SatMul(count, n) < SIZE_MAX && (k <= count || count == SIZE_MAX)
    ensures k == 0 || n < SIZE_MAX
  {
    SatMulIsExact(count, n);
    assert count >= 1 ==> count * SIZE_MAX >= SIZE_MAX;
  }

  // ---- Nothing matched is longer than the bound ----

  lemma {:induction false} AtomFoldKept(a: Atom, ci: bool, fold: bool)
    requires (ci ==> fold) && AtomBound(a, fold).Some?
    ensures fold ==> AtomBound(a, fold).value.1
    ensures AtomFold(a, ci) ==> AtomBound(a, fold).value.1
    decreases a, 0
  {
    hide EscapeBound, ItemsBound, AltBound, FlagFold;
    match a
    case Group(head, body) => AltFoldKept(body, fold || (head.Flagged? && SetsFold(head.flags)));
    case SetFlags(f) => FlagFoldNeedsI(f, true, ci);
    case _ =>
  }

  lemma {:induction false} ConcatFoldKept(c: Concat, ci: bool, fold: bool, total: nat)
    requires (ci ==> fold) && total <= SIZE_MAX && ConcatBound(c, fold, total).Some?
    ensures fold ==> ConcatBound(c, fold, total).value.1
    ensures ConcatFold(c, ci) ==> ConcatBound(c, fold, total).value.1
    decreases c, 1
  {
    hide AtomBound, AtomFold, QuantBound;
    match c
    case Empty =>
    case Cons(atom, quant, rest) =>
      AtomFoldKept(atom, ci, fold);
      var b := AtomBound(atom, fold).value;
      ConcatFoldKept(rest, AtomFold(atom, ci), b.1, SatAdd(total, QuantBound(b.0, quant)));
  }

  lemma {:induction false} AltFoldKept(a: Alt, fold: bool)
    requires AltBound(a, fold).Some?
    ensures fold ==> AltBound(a, fold).value.1
    decreases a, 2
  {
    hide ConcatBound;
    match a
    case Only(c) => ConcatFoldKept(c, false, fold, 0);
    case Or(c, rest) =>
      ConcatFoldKept(c, false, fold, 0);
      AltFoldKept(rest, ConcatBound(c, fold, 0).value.1);
  }

  lemma {:induction false} AtomBounded(eq: Fold, ci: bool, fold: bool, a: Atom, w: bytes)
    requires GoodFold(eq) && (ci ==> fold) && WfAtom(a) && SafeAtom(a, ci) && AtomMatches(eq, ci, a, w)
    requires AtomBound(a, fold).Some? && AtomBound(a, fold).value.0 < SIZE_MAX
    ensures |w| <= AtomBound(a, fold).value.0
    decreases a, 0, 0
  {
    hide GoodFold, EscapeMatches, ClassMatches, AltMatches, RuneMatches, IsRune, WfItems, WfEscape, WfFlags, WfHead, EscapeBound, ItemsBound, AltBound,
      EscapeReach, ItemReach, RuneReach, Safe;
    match a
    case Lit(r) => if ci { RuneReached(eq, r, w); } else { SameRune(eq, r, w); }
    case Esc(e) => EscapeBounded(eq, ci, fold, e, w);
    case Anchor(_) =>
    case Dot => RuneAtMostFour(w);
    case Class(negated, items) => ClassBounded(eq, ci, fold, negated, items, w);
    case Group(head, body) => GroupBounded(eq, ci, fold, head, body, w);
    case SetFlags(_) =>
  }

  lemma RuneAtMostFour(w: bytes)
    requires IsRune(w)
    ensures |w| <= 4
  {
  }

  lemma {:induction false} GroupBounded(eq: Fold, ci: bool, fold: bool, head: Head, body: Alt, w: bytes)
    requires GoodFold(eq) && (ci ==> fold) && WfAlt(body) && Safe(body, HeadFold(head, ci))
    requires AltMatches(eq, HeadFold(head, ci), body, w)
    requires AtomBound(Group(head, body), fold).Some? && AtomBound(Group(head, body), fold).value.0 < SIZE_MAX
    ensures |w| <= AtomBound(Group(head, body), fold).value.0
    decreases body, 6, 0
  {
    hide GoodFold, AltMatches, AltBound, WfAlt, FlagFold, Safe;
    var inner := fold || (head.Flagged? && SetsFold(head.flags));
    if head.Flagged? {
      FlagFoldNeedsI(head.flags, true, ci);
    }
    AltBounded(eq, HeadFold(head, ci), inner, body, w);
  }

  lemma {:induction false} CopiesBounded(eq: Fold, ci: bool, fold: bool, a: Atom, k: nat, w: bytes)
    requires GoodFold(eq) && (ci ==> fold) && WfAtom(a) && SafeAtom(a, ci) && CopiesMatch(eq, ci, a, k, w)
    requires AtomBound(a, fold).Some? && AtomBound(a, fold).value.0 < SIZE_MAX
    ensures |w| <= k * AtomBound(a, fold).value.0
    decreases a, 1, k
  {
    hide GoodFold, AtomMatches, AtomBound, WfAtom, SafeAtom;
    if k > 0 {
      var u, v :| w == u + v && AtomMatches(eq, ci, a, u) && CopiesMatch(eq, ci, a, k - 1, v);
      AtomBounded(eq, ci, fold, a, u);
      CopiesBounded(eq, ci, fold, a, k - 1, v);
      OneMore(k, AtomBound(a, fold).value.0);
    }
  }

  lemma OneMore(k: nat, n: nat)
    requires k > 0
    ensures n + (k - 1) * n == k * n
  {
  }

  lemma {:induction false} PieceBounded(eq: Fold, ci: bool, fold: bool, a: Atom, q: Quant, w: bytes)
    requires GoodFold(eq) && (ci ==> fold) && WfAtom(a) && SafeAtom(a, ci) && PieceMatches(eq, ci, a, q, w)
    requires AtomBound(a, fold).Some? && QuantBound(AtomBound(a, fold).value.0, q) < SIZE_MAX
    ensures |w| <= QuantBound(AtomBound(a, fold).value.0, q)
    decreases a, 2, 0
  {
    hide GoodFold, AtomBound, WfAtom, SafeAtom, QuantBound, Allowed;
    var k: nat :| Allowed(q, k) && CopiesMatch(eq, ci, a, k, w);
    var n := AtomBound(a, fold).value.0;
    QuantBounded(q, k, n);
    if k > 0 {
      CopiesBounded(eq, ci, fold, a, k, w);
    }
  }

  lemma {:induction false} ConcatTotal(c: Concat, fold: bool, total: nat)
    requires total <= SIZE_MAX && ConcatBound(c, fold, total).Some?
    ensures total <= ConcatBound(c, fold, total).value.0
    decreases c
  {
    hide AtomBound, QuantBound;
    match c
    case Empty =>
    case Cons(atom, quant, rest) =>
      var b := AtomBound(atom, fold).value;
      ConcatTotal(rest, b.1, SatAdd(total, QuantBound(b.0, quant)));
  }

  lemma {:induction false} ConcatBounded(eq: Fold, ci: bool, fold: bool, c: Concat, total: nat, w: bytes)
    requires GoodFold(eq) && (ci ==> fold) && WfConcat(c) && SafeConcat(c, ci) && ConcatMatches(eq, ci, c, w) && total <= SIZE_MAX
    requires ConcatBound(c, fold, total).Some? && ConcatBound(c, fold, total).value.0 < SIZE_MAX
    ensures total + |w| <= ConcatBound(c, fold, total).value.0
    decreases c, 3, 0
  {
    hide GoodFold, PieceMatches, AtomBound, WfAtom, QuantBound, AtomFold, SafeAtom;
    match c
    case Empty =>
    case Cons(atom, quant, rest) =>
      var u, v :| w == u + v && PieceMatches(eq, ci, atom, quant, u) && ConcatMatches(eq, AtomFold(atom, ci), rest, v);
      var b := AtomBound(atom, fold).value;
      var piece := QuantBound(b.0, quant);
      ConcatTotal(rest, b.1, SatAdd(total, piece));
      PieceBounded(eq, ci, fold, atom, quant, u);
      AtomFoldKept(atom, ci, fold);
      ConcatBounded(eq, AtomFold(atom, ci), b.1, rest, SatAdd(total, piece), v);
  }

  lemma {:induction false} AltBounded(eq: Fold, ci: bool, fold: bool, a: Alt, w: bytes)
    requires GoodFold(eq) && (ci ==> fold) && WfAlt(a) && Safe(a, ci) && AltMatches(eq, ci, a, w)
    requires AltBound(a, fold).Some? && AltBound(a, fold).value.0 < SIZE_MAX
    ensures |w| <= AltBound(a, fold).value.0
    decreases a, 4, 0
  {
    hide GoodFold, ConcatMatches, ConcatBound, WfConcat, SafeConcat, ConcatFold;
    match a
    case Only(c) => ConcatBounded(eq, ci, fold, c, 0, w);
    case Or(c, rest) =>
      var b := ConcatBound(c, fold, 0).value;
      if ConcatMatches(eq, ci, c, w) {
        ConcatBounded(eq, ci, fold, c, 0, w);
      } else {
        ConcatFoldKept(c, ci, fold, 0);
        AltBounded(eq, ConcatFold(c, ci), b.1, rest, w);
      }
  }

  /**
   Length-bound soundness: when regex_max_len gives a value below SIZE_MAX for a pattern
   whose atoms are safe wherever case is ignored, nothing the pattern matches is longer,
   in bytes, than that value.
   */
  lemma LengthBoundIsSound(eq: Fold, a: Alt, w: bytes)
    requires GoodFold(eq) && WfAlt(a) && Safe(a, false)
    requires Matches(eq, a, w) && RegexMaxLen(PrintAlt(a)) < SIZE_MAX
    ensures |w| <= RegexMaxLen(PrintAlt(a))
  {
    hide GoodFold, WfAlt, AltMatches, AltBound, Parse, PrintAlt, Nesting, Safe;
    PrintedIsParsed(a);
    AltBounded(eq, false, false, a, w);
  }

  // ---- Patterns without a case-folding flag ----

  lemma {:induction false} CaseSensitiveAtomIsSafe(a: Atom)
    requires CaseSensitiveAtom(a)
    ensures SafeAtom(a, false) && !AtomFold(a, false)
    decreases a, 0
  {
    hide FoldSafe;
    match a
    case SetFlags(f) => FlagFoldNeedsI(f, true, false);
    case Group(head, body) =>
      if head.Flagged? {
        FlagFoldNeedsI(head.flags, true, false);
      }
      CaseSensitiveIsSafe(body);
    case _ =>
  }

  lemma {:induction false} CaseSensitiveConcatIsSafe(c: Concat)
    requires CaseSensitiveConcat(c)
    ensures SafeConcat(c, false) && !ConcatFold(c, false)
    decreases c, 1
  {
    hide SafeAtom, AtomFold, CaseSensitiveAtom;
    match c
    case Empty =>
    case Cons(atom, _, rest) =>
      CaseSensitiveAtomIsSafe(atom);
      CaseSensitiveConcatIsSafe(rest);
  }

  /** Where no flag ignores case, nothing has to be safe. */
  lemma {:induction false} CaseSensitiveIsSafe(a: Alt)
    requires CaseSensitive(a)
    ensures Safe(a, false)
    decreases a, 2
  {
    hide SafeConcat, CaseSensitiveConcat, ConcatFold;
    match a
    case Only(c) => CaseSensitiveConcatIsSafe(c);
    case Or(c, rest) =>
      CaseSensitiveConcatIsSafe(c);
      CaseSensitiveIsSafe(rest);
  }
}
