/**
 A positive answer of the keyword prover is right: the nodes it builds match at least what
 the pattern matches, and a node that guarantees a keyword matches only strings that
 contain one once lowered.
 */
module PrefilterSound {
  import opened Bytes
  import opened Runes
  import opened RegexSyntax
  import opened RegexParse
  import opened RegexLang
  import opened Prefilter
  import Scanner

  // ---- Matched strings are whole runes ----

  lemma RuneIsWellFormed(x: bytes)
    requires IsRune(x)
    ensures WellFormed(x)
  {
    assert x[|x|..] == [];
  }

  lemma NothingIsWellFormed()
    ensures WellFormed([])
  {
  }

  lemma EscapeIsRune(eq: Fold, ci: bool, e: Escape, x: bytes)
    requires EscapeMatches(eq, ci, e, x)
    ensures x == [] || IsRune(x)
  {
    hide PerlMatches, IsRune;
  }

  lemma {:induction false} AtomIsWellFormed(eq: Fold, ci: bool, a: Atom, w: bytes)
    requires AtomMatches(eq, ci, a, w)
    ensures WellFormed(w)
    decreases a, 0, 0
  {
    hide WellFormed, IsRune, EscapeMatches, ClassMatches, AltMatches;
    NothingIsWellFormed();
    match a
    case Lit(_) => RuneIsWellFormed(w);
    case Esc(e) =>
      EscapeIsRune(eq, ci, e, w);
      if w != [] { RuneIsWellFormed(w); }
    case Anchor(_) =>
    case Dot => RuneIsWellFormed(w);
    case Class(negated, items) => ClassIsRune(eq, ci, negated, items, w);
    case Group(head, body) => AltIsWellFormed(eq, HeadFold(head, ci), body, w);
    case SetFlags(_) =>
  }

  lemma ClassIsRune(eq: Fold, ci: bool, negated: bool, items: seq<Item>, w: bytes)
    requires ClassMatches(eq, ci, negated, items, w)
    ensures WellFormed(w)
  {
    RuneIsWellFormed(w);
  }

  lemma {:induction false} CopiesAreWellFormed(eq: Fold, ci: bool, a: Atom, k: nat, w: bytes)
    requires CopiesMatch(eq, ci, a, k, w)
    ensures WellFormed(w)
    decreases a, 1, k
  {
    hide WellFormed, AtomMatches;
    NothingIsWellFormed();
    if k > 0 {
      var u, v :| w == u + v && AtomMatches(eq, ci, a, u) && CopiesMatch(eq, ci, a, k - 1, v);
      AtomIsWellFormed(eq, ci, a, u);
      CopiesAreWellFormed(eq, ci, a, k - 1, v);
      WellFormedConcat(u, v);
    }
  }

  lemma {:induction false} ConcatIsWellFormed(eq: Fold, ci: bool, c: Concat, w: bytes)
    requires ConcatMatches(eq, ci, c, w)
    ensures WellFormed(w)
    decreases c, 3, 0
  {
    hide WellFormed, CopiesMatch;
    NothingIsWellFormed();
    match c
    case Empty =>
    case Cons(atom, quant, rest) =>
      var u, v :| w == u + v && PieceMatches(eq, ci, atom, quant, u) && ConcatMatches(eq, AtomFold(atom, ci), rest, v);
      var k: nat :| Allowed(quant, k) && CopiesMatch(eq, ci, atom, k, u);
      CopiesAreWellFormed(eq, ci, atom, k, u);
      ConcatIsWellFormed(eq, AtomFold(atom, ci), rest, v);
      WellFormedConcat(u, v);
  }

  lemma {:induction false} AltIsWellFormed(eq: Fold, ci: bool, a: Alt, w: bytes)
    requires AltMatches(eq, ci, a, w)
    ensures WellFormed(w)
    decreases a, 4, 0
  {
    hide WellFormed, ConcatMatches;
    match a
    case Only(c) => ConcatIsWellFormed(eq, ci, c, w);
    case Or(c, rest) =>
      if ConcatMatches(eq, ci, c, w) {
        ConcatIsWellFormed(eq, ci, c, w);
      } else {
        AltIsWellFormed(eq, ConcatFold(c, ci), rest, w);
      }
  }

  // ---- The sticky flag is never behind the real one ----

  lemma {:induction false} AtomFoldTracked(a: Atom, ci: bool, fold: bool)
    requires (ci ==> fold) && BuildAtom(a, fold).Some?
    ensures fold ==> BuildAtom(a, fold).value.1
    ensures AtomFold(a, ci) ==> BuildAtom(a, fold).value.1
    decreases a, 0
  {
    hide EscapeNode, BuildAlt, FlagFold, ItemsBuild;
    match a
    case Group(head, body) => AltFoldKept(body, fold || (head.Flagged? && SetsFold(head.flags)));
    case SetFlags(f) => FlagFoldNeedsI(f, true, ci);
    case _ =>
  }

  lemma {:induction false} ConcatFoldTracked(c: Concat, ci: bool, fold: bool, acc: Acc)
    requires (ci ==> fold) && BuildConcat(c, fold, acc).Some?
    ensures fold ==> BuildConcat(c, fold, acc).value.1
    ensures ConcatFold(c, ci) ==> BuildConcat(c, fold, acc).value.1
    decreases c, 1
  {
    hide BuildAtom, Added, AtomFold, Finished;
    match c
    case Empty =>
    case Cons(atom, quant, rest) =>
      AtomFoldTracked(atom, ci, fold);
      var b := BuildAtom(atom, fold).value;
      ConcatFoldTracked(rest, AtomFold(atom, ci), b.1, Added(acc, b.0, quant));
  }

  lemma {:induction false} BranchesFoldKept(a: Alt, fold: bool)
    requires BuildBranches(a, fold).Some?
    ensures fold ==> BuildBranches(a, fold).value.1
    decreases a, 2
  {
    hide BuildConcat;
    match a
    case Only(c) => ConcatFoldTracked(c, false, fold, NOTHING);
    case Or(c, rest) =>
      ConcatFoldTracked(c, false, fold, NOTHING);
      BranchesFoldKept(rest, BuildConcat(c, fold, NOTHING).value.1);
  }

  lemma {:induction false} AltFoldKept(a: Alt, fold: bool)
    requires BuildAlt(a, fold).Some?
    ensures fold ==> BuildAlt(a, fold).value.1
    decreases a, 3
  {
    BranchesFoldKept(a, fold);
  }

  // ---- Sequences of nodes ----

  lemma {:induction false} AllMatchSnoc(eq: Fold, cs: seq<Node>, n: Node, u: bytes, v: bytes)
    requires AllMatch(eq, cs, u) && NodeMatches(eq, n, v)
    ensures AllMatch(eq, cs + [n], u + v)
    decreases |cs|
  {
    hide NodeMatches;
    var all := cs + [n];
    if cs == [] {
      assert all[0] == n && all[1..] == [];
      assert u + v == v + [];
      assert AllMatch(eq, [], []);
    } else {
      var x, y :| u == x + y && NodeMatches(eq, cs[0], x) && AllMatch(eq, cs[1..], y);
      AllMatchSnoc(eq, cs[1..], n, y, v);
      assert all[0] == cs[0] && all[1..] == cs[1..] + [n];
      Join3(x, y, v);
    }
  }

  lemma {:induction false} AllMatchSplit(eq: Fold, cs: seq<Node>, n: Node, w: bytes) returns (u: bytes, v: bytes)
    requires AllMatch(eq, cs + [n], w)
    ensures w == u + v && AllMatch(eq, cs, u) && NodeMatches(eq, n, v)
    decreases |cs|
  {
    hide NodeMatches;
    var all := cs + [n];
    var x, y :| w == x + y && NodeMatches(eq, all[0], x) && AllMatch(eq, all[1..], y);
    if cs == [] {
      assert all[1..] == [];
      u, v := [], x;
      assert w == u + v;
    } else {
      assert all[0] == cs[0] && all[1..] == cs[1..] + [n];
      var y1, y2 := AllMatchSplit(eq, cs[1..], n, y);
      u, v := x + y1, y2;
      Join3(x, y1, y2);
    }
  }

  lemma {:induction false} FoldConcat(eq: Fold, s: bytes, w: bytes, t: bytes, x: bytes)
    requires FoldMatches(eq, s, w) && FoldMatches(eq, t, x)
    ensures FoldMatches(eq, s + t, w + x)
    decreases |s|
  {
    hide RuneLength;
    if s == [] {
      assert s + t == t && w + x == x;
    } else {
      var n, m := RuneLength(s), RuneLength(w);
      RuneOfPrefix(s, t);
      RuneOfPrefix(w, x);
      FoldConcat(eq, s[n..], w[m..], t, x);
      assert (s + t)[..n] == s[..n] && (w + x)[..m] == w[..m];
      DropAcross(s, t, n);
      DropAcross(w, x, m);
    }
  }

  lemma LiteralConcat(eq: Fold, s: bytes, t: bytes, fold: bool, w: bytes, x: bytes)
    requires LiteralMatches(eq, s, fold, w) && LiteralMatches(eq, t, fold, x)
    ensures LiteralMatches(eq, s + t, fold, w + x)
  {
    hide FoldMatches, WellFormed;
    WellFormedConcat(w, x);
    if fold {
      FoldConcat(eq, s, w, t, x);
    }
  }

  /** One more node after the run: what was matched so far, then what the node matches. */
  lemma AddedMatches(eq: Fold, acc: Acc, n: Node, q: Quant, u: bytes, v: bytes)
    requires AllMatch(eq, Flushed(acc), u) && NodeMatches(eq, Quantified(n, q), v)
    ensures AllMatch(eq, Flushed(Added(acc, n, q)), u + v)
  {
    hide NodeMatches, AllMatch;
    if q.Once? && n.Literal? && acc.pending.Some? && acc.pending.value.Literal? && acc.pending.value.fold == n.fold {
      var p := acc.pending.value;
      var x, y := AllMatchSplit(eq, acc.children, p, u);
      assert LiteralMatches(eq, p.text, p.fold, y) && LiteralMatches(eq, n.text, n.fold, v) by { LiteralNode(eq, p, y); LiteralNode(eq, n, v); }
      LiteralConcat(eq, p.text, n.text, n.fold, y, v);
      LiteralNode(eq, Literal(p.text + n.text, n.fold), y + v);
      AllMatchSnoc(eq, acc.children, Literal(p.text + n.text, n.fold), x, y + v);
      Join3(x, y, v);
    } else {
      AllMatchSnoc(eq, Flushed(acc), Quantified(n, q), u, v);
    }
  }

  lemma LiteralNode(eq: Fold, n: Node, w: bytes)
    requires n.Literal?
    ensures NodeMatches(eq, n, w) <==> LiteralMatches(eq, n.text, n.fold, w)
  {
  }

  lemma FinishedMatches(eq: Fold, cs: seq<Node>, w: bytes)
    requires AllMatch(eq, cs, w)
    ensures NodeMatches(eq, Finished(cs), w)
  {
    if |cs| == 1 {
      hide NodeMatches;
      var u, v :| w == u + v && NodeMatches(eq, cs[0], u) && AllMatch(eq, cs[1..], v);
      assert cs[1..] == [];
      assert u + [] == u;
    }
  }

  // ---- The nodes match what the pattern matches ----

  /** A rune of the pattern, folded or not, as a literal under the sticky flag. */
  lemma RuneLiteral(eq: Fold, ci: bool, fold: bool, r: bytes, x: bytes)
    requires GoodFold(eq) && (ci ==> fold) && IsRune(r) && RuneMatches(eq, ci, r, x)
    ensures LiteralMatches(eq, r, fold, x)
  {
    RuneIsWellFormed(x);
    assert r[..|r|] == r && x[..|x|] == x && r[|r|..] == [] && x[|x|..] == [];
  }

  lemma EscapeBuilt(eq: Fold, ci: bool, fold: bool, e: Escape, x: bytes)
    requires GoodFold(eq) && (ci ==> fold) && WfEscape(e) && EscapeMatches(eq, ci, e, x)
    ensures EscapeNode(e, fold).Some? && NodeMatches(eq, EscapeNode(e, fold).value, x)
  {
    hide GoodFold, RuneMatches, LiteralMatches, PerlMatches;
    if e.Control? {
      RuneLiteral(eq, ci, fold, [ControlByte(e.c)], x);
    } else if e.Identity? {
      RuneLiteral(eq, ci, fold, e.rune, x);
    } else {
      EscapeWellFormed(eq, ci, e, x);
    }
  }

  lemma EscapeWellFormed(eq: Fold, ci: bool, e: Escape, x: bytes)
    requires EscapeMatches(eq, ci, e, x)
    ensures WellFormed(x)
  {
    EscapeIsRune(eq, ci, e, x);
    if x != [] { RuneIsWellFormed(x); }
  }

  lemma {:induction false} AtomBuilt(eq: Fold, ci: bool, fold: bool, a: Atom, w: bytes)
    requires GoodFold(eq) && (ci ==> fold) && WfAtom(a) && AtomMatches(eq, ci, a, w) && BuildAtom(a, fold).Some?
    ensures NodeMatches(eq, BuildAtom(a, fold).value.0, w)
    decreases a, 0, 0
  {
    hide GoodFold, WellFormed, EscapeMatches, ClassMatches, LiteralMatches, RuneMatches, IsRune, WfItems, WfEscape, EscapeNode, WfFlags, WfHead;
    match a
    case Lit(r) =>
      RuneLiteral(eq, ci, fold, r, w);
    case Esc(e) => EscapeBuilt(eq, ci, fold, e, w);
    case Group(head, body) => GroupBuilt(eq, ci, fold, head, body, w);
    case _ => AtomIsWellFormed(eq, ci, a, w);
  }

  lemma {:induction false} GroupBuilt(eq: Fold, ci: bool, fold: bool, head: Head, body: Alt, w: bytes)
    requires GoodFold(eq) && (ci ==> fold) && WfAlt(body)
    requires AltMatches(eq, HeadFold(head, ci), body, w) && BuildAtom(Group(head, body), fold).Some?
    ensures NodeMatches(eq, BuildAtom(Group(head, body), fold).value.0, w)
    decreases body, 6, 0
  {
    hide GoodFold, AltMatches, BuildAlt, WfAlt;
    var inner := fold || (head.Flagged? && SetsFold(head.flags));
    if head.Flagged? {
      FlagFoldNeedsI(head.flags, true, ci);
    }
    AltBuilt(eq, HeadFold(head, ci), inner, body, w);
  }

  lemma {:induction false} CopiesBuilt(eq: Fold, ci: bool, fold: bool, a: Atom, k: nat, w: bytes)
    requires GoodFold(eq) && (ci ==> fold) && WfAtom(a) && CopiesMatch(eq, ci, a, k, w) && BuildAtom(a, fold).Some?
    ensures NodeCopies(eq, BuildAtom(a, fold).value.0, k, w)
    decreases a, 1, k
  {
    hide GoodFold, AtomMatches, BuildAtom, WfAtom, NodeMatches;
    if k > 0 {
      var u, v :| w == u + v && AtomMatches(eq, ci, a, u) && CopiesMatch(eq, ci, a, k - 1, v);
      AtomBuilt(eq, ci, fold, a, u);
      CopiesBuilt(eq, ci, fold, a, k - 1, v);
    }
  }

  /** The parser's count never exceeds the real one. */
  lemma {:induction false} MinCountBelow(d: bytes)
    ensures MinCount(d) <= Value(d)
    decreases |d|
  {
    if d != [] {
      var n := |d| - 1;
      MinCountBelow(d[..n]);
      ModBelow(MinCount(d[..n]) * 10 + Digit(d[n]), WRAP);
    }
  }

  lemma ModBelow(a: nat, m: nat)
    requires m > 0
    ensures a % m <= a
  {
    if a < m {
      assert a % m == a;
    }
  }

  lemma {:induction false} PieceBuilt(eq: Fold, ci: bool, fold: bool, a: Atom, q: Quant, w: bytes)
    requires GoodFold(eq) && (ci ==> fold) && WfAtom(a) && PieceMatches(eq, ci, a, q, w) && BuildAtom(a, fold).Some?
    ensures NodeMatches(eq, Quantified(BuildAtom(a, fold).value.0, q), w)
    decreases a, 2, 0
  {
    hide GoodFold, CopiesMatch, BuildAtom, WfAtom, NodeCopies;
    var k: nat :| Allowed(q, k) && CopiesMatch(eq, ci, a, k, w);
    var n := BuildAtom(a, fold).value.0;
    CopiesBuilt(eq, ci, fold, a, k, w);
    if q.Once? {
      OneCopy(eq, n, w);
    } else {
      if q.Braces? { MinCountBelow(q.min); }
      RepeatMatches(eq, Quantified(n, q), k, w);
    }
  }

  lemma RepeatMatches(eq: Fold, n: Node, k: nat, w: bytes)
    requires n.Repeat? && k >= n.min && NodeCopies(eq, n.child, k, w)
    ensures NodeMatches(eq, n, w)
  {
    hide NodeCopies;
  }

  lemma OneCopy(eq: Fold, n: Node, w: bytes)
    requires NodeCopies(eq, n, 1, w)
    ensures NodeMatches(eq, n, w)
  {
    hide NodeMatches;
    var u, v :| w == u + v && NodeMatches(eq, n, u) && NodeCopies(eq, n, 0, v);
    assert u + [] == u;
  }

  lemma {:induction false} ConcatBuilt(eq: Fold, ci: bool, fold: bool, c: Concat, acc: Acc, u: bytes, w: bytes)
    requires GoodFold(eq) && (ci ==> fold) && WfConcat(c) && ConcatMatches(eq, ci, c, w) && BuildConcat(c, fold, acc).Some?
    requires AllMatch(eq, Flushed(acc), u)
    ensures NodeMatches(eq, BuildConcat(c, fold, acc).value.0, u + w)
    decreases c, 3, 0
  {
    hide GoodFold, PieceMatches, BuildAtom, WfAtom, AllMatch, NodeMatches, Added, Flushed, Finished, AtomFold, Quantified;
    match c
    case Empty =>
      assert u + w == u;
      FinishedMatches(eq, Flushed(acc), u);
    case Cons(atom, quant, rest) =>
      var x, y :| w == x + y && PieceMatches(eq, ci, atom, quant, x) && ConcatMatches(eq, AtomFold(atom, ci), rest, y);
      var b := BuildAtom(atom, fold).value;
      PieceBuilt(eq, ci, fold, atom, quant, x);
      AtomFoldTracked(atom, ci, fold);
      AddedMatches(eq, acc, b.0, quant, u, x);
      ConcatBuilt(eq, AtomFold(atom, ci), b.1, rest, Added(acc, b.0, quant), u + x, y);
      Join3(u, x, y);
  }

  lemma NothingMatches(eq: Fold)
    ensures AllMatch(eq, Flushed(NOTHING), [])
  {
  }

  /** Some branch of the alternation is built from the one that matches. */
  lemma {:induction false} BranchesBuilt(eq: Fold, ci: bool, fold: bool, a: Alt, w: bytes)
    requires GoodFold(eq) && (ci ==> fold) && WfAlt(a) && AltMatches(eq, ci, a, w) && BuildBranches(a, fold).Some?
    ensures var nodes := BuildBranches(a, fold).value.0;
      nodes != [] && (a.Only? ==> |nodes| == 1) && exists i | 0 <= i < |nodes| :: NodeMatches(eq, nodes[i], w)
    decreases a, 4, 0
  {
    hide GoodFold, ConcatMatches, BuildConcat, WfConcat, NodeMatches, AllMatch, ConcatFold;
    NothingMatches(eq);
    assert [] + w == w;
    match a
    case Only(c) =>
      ConcatBuilt(eq, ci, fold, c, NOTHING, [], w);
      assert NodeMatches(eq, BuildBranches(a, fold).value.0[0], w);
    case Or(c, rest) =>
      var b := BuildConcat(c, fold, NOTHING).value;
      var nodes := BuildBranches(a, fold).value.0;
      if ConcatMatches(eq, ci, c, w) {
        ConcatBuilt(eq, ci, fold, c, NOTHING, [], w);
        assert NodeMatches(eq, nodes[0], w);
      } else {
        ConcatFoldTracked(c, ci, fold, NOTHING);
        BranchesBuilt(eq, ConcatFold(c, ci), b.1, rest, w);
        var others := BuildBranches(rest, b.1).value.0;
        var i :| 0 <= i < |others| && NodeMatches(eq, others[i], w);
        assert nodes[i + 1] == others[i];
      }
  }

  lemma {:induction false} AltBuilt(eq: Fold, ci: bool, fold: bool, a: Alt, w: bytes)
    requires GoodFold(eq) && (ci ==> fold) && WfAlt(a) && AltMatches(eq, ci, a, w) && BuildAlt(a, fold).Some?
    ensures NodeMatches(eq, BuildAlt(a, fold).value.0, w)
    decreases a, 5, 0
  {
    hide GoodFold, AltMatches, BuildBranches, WfAlt, AllMatch;
    BranchesBuilt(eq, ci, fold, a, w);
  }

  // ---- A guarantee holds of every matched string ----

  lemma {:induction false} LowerConcat(low: bytes -> bytes, a: bytes, b: bytes)
    requires WellFormed(a)
    ensures Lower(low, a + b) == Lower(low, a) + Lower(low, b)
    decreases |a|
  {
    hide RuneLength;
    if a == [] {
      assert a + b == b;
    } else {
      var n := RuneLength(a);
      RuneOfPrefix(a, b);
      DropAcross(a, b, n);
      assert (a + b)[..n] == a[..n];
      LowerConcat(low, a[n..], b);
      Join3(low(a[..n]), Lower(low, a[n..]), Lower(low, b));
    }
  }

  lemma ContainsInside(x: bytes, s: bytes, y: bytes, part: bytes)
    requires Scanner.Contains(s, part)
    ensures Scanner.Contains(x + s + y, part)
  {
    var i :| 0 <= i <= |s| && At(s, i, part);
    var w := x + s + y;
    assert w[|x| + i..|x| + i + |part|] == s[i..i + |part|];
    assert At(w, |x| + i, part);
  }

  lemma KeywordInside(x: bytes, s: bytes, y: bytes, keywords: seq<bytes>)
    requires Scanner.HasKeyword(s, keywords)
    ensures Scanner.HasKeyword(x + s + y, keywords)
  {
    hide Scanner.Contains;
    var kw :| kw in keywords && kw != [] && Scanner.Contains(s, kw);
    ContainsInside(x, s, y, kw);
  }

  /** A keyword in the lowered middle is in the lowered whole. */
  lemma KeywordInLowered(low: bytes -> bytes, x: bytes, s: bytes, y: bytes, keywords: seq<bytes>)
    requires WellFormed(x) && WellFormed(s) && Scanner.HasKeyword(Lower(low, s), keywords)
    ensures Scanner.HasKeyword(Lower(low, x + s + y), keywords)
  {
    hide WellFormed, Lower, Scanner.HasKeyword;
    WellFormedConcat(x, s);
    LowerConcat(low, x + s, y);
    LowerConcat(low, x, s);
    KeywordInside(Lower(low, x), Lower(low, s), Lower(low, y), keywords);
  }

  /** Folding an ASCII rune other than `s` changes nothing that lowering does not undo. */
  lemma FoldedRuneLowers(low: bytes -> bytes, eq: Fold, c: byte, x: bytes)
    requires GoodLower(low) && GoodFold(eq) && c <= 0x7F && !IsS(c) && eq([c], x)
    ensures low(x) == low([c])
  {
    assert AsciiFold(c, x);
    assert low([c]) == [LowerCase(c)];
    if IsLower(c) && x == [c - 0x20] {
      assert low([c - 0x20]) == [LowerCase(c - 0x20)];
    } else if IsUpper(c) && x == [c + 0x20] {
      assert low([c + 0x20]) == [LowerCase(c + 0x20)];
    }
  }

  lemma {:induction false} FoldedLowers(low: bytes -> bytes, eq: Fold, s: bytes, w: bytes)
    requires GoodLower(low) && GoodFold(eq) && FoldMatches(eq, s, w) && LiteralIsFoldSafe(s, true)
    ensures Lower(low, s) == Lower(low, w)
    decreases |s|
  {
    hide GoodLower, GoodFold;
    if s != [] {
      var m := RuneLength(w);
      assert s[0] in s && RuneLength(s) == 1 && s[..1] == [s[0]];
      FoldedRuneLowers(low, eq, s[0], w[..m]);
      assert forall b <- s[1..] :: b in s;
      FoldedLowers(low, eq, s[1..], w[m..]);
    }
  }

  lemma LiteralGuarantee(low: bytes -> bytes, eq: Fold, s: bytes, fold: bool, w: bytes)
    requires GoodLower(low) && GoodFold(eq) && LiteralMatches(eq, s, fold, w) && LiteralIsFoldSafe(s, fold)
    ensures Lower(low, w) == Lower(low, s)
  {
    hide GoodLower, GoodFold, Lower, FoldMatches, WellFormed;
    if fold {
      FoldedLowers(low, eq, s, w);
    }
  }

  lemma {:induction false} NodeIsWellFormed(eq: Fold, n: Node, w: bytes)
    requires NodeMatches(eq, n, w)
    ensures WellFormed(w)
    decreases n, 0, 0
  {
    hide WellFormed, AllMatch, NodeCopies, FoldMatches;
    match n
    case Literal(_, _) =>
    case Sequence(cs) => AllAreWellFormed(eq, cs, w);
    case Alternate(cs) =>
      var i :| 0 <= i < |cs| && NodeMatches(eq, cs[i], w);
      NodeIsWellFormed(eq, cs[i], w);
    case Capture(c) => NodeIsWellFormed(eq, c, w);
    case Repeat(min, c) =>
      var k: nat :| k >= min && NodeCopies(eq, c, k, w);
      NodeCopiesAreWellFormed(eq, c, k, w);
    case Unsupported =>
  }

  lemma {:induction false} AllAreWellFormed(eq: Fold, cs: seq<Node>, w: bytes)
    requires AllMatch(eq, cs, w)
    ensures WellFormed(w)
    decreases cs, 0, 0
  {
    hide WellFormed, NodeMatches;
    NothingIsWellFormed();
    if cs != [] {
      var u, v :| w == u + v && NodeMatches(eq, cs[0], u) && AllMatch(eq, cs[1..], v);
      NodeIsWellFormed(eq, cs[0], u);
      AllAreWellFormed(eq, cs[1..], v);
      WellFormedConcat(u, v);
    }
  }

  lemma {:induction false} NodeCopiesAreWellFormed(eq: Fold, n: Node, k: nat, w: bytes)
    requires NodeCopies(eq, n, k, w)
    ensures WellFormed(w)
    decreases n, 1, k
  {
    hide WellFormed, NodeMatches;
    NothingIsWellFormed();
    if k > 0 {
      var u, v :| w == u + v && NodeMatches(eq, n, u) && NodeCopies(eq, n, k - 1, v);
      NodeIsWellFormed(eq, n, u);
      NodeCopiesAreWellFormed(eq, n, k - 1, v);
      WellFormedConcat(u, v);
    }
  }

  /** A node that guarantees a keyword matches only strings that contain one once lowered. */
  lemma {:induction false} GuaranteeHolds(low: bytes -> bytes, eq: Fold, n: Node, keywords: seq<bytes>, w: bytes)
    requires GoodLower(low) && GoodFold(eq) && Guarantees(low, n, keywords) && NodeMatches(eq, n, w)
    ensures Scanner.HasKeyword(Lower(low, w), keywords)
    decreases n, 0
  {
    hide GoodLower, GoodFold, Lower, WellFormed, Scanner.HasKeyword, LiteralIsFoldSafe, LiteralMatches, AllMatch, NodeCopies;
    match n
    case Literal(s, fold) => LiteralGuarantee(low, eq, s, fold, w);
    case Sequence(cs) =>
      var i :| 0 <= i < |cs| && Guarantees(low, cs[i], keywords);
      SequenceHolds(low, eq, cs, i, keywords, w);
    case Alternate(cs) =>
      var i :| 0 <= i < |cs| && NodeMatches(eq, cs[i], w);
      GuaranteeHolds(low, eq, cs[i], keywords, w);
    case Capture(c) => GuaranteeHolds(low, eq, c, keywords, w);
    case Repeat(min, c) =>
      var k: nat :| k >= min && NodeCopies(eq, c, k, w);
      FirstCopyHolds(low, eq, c, k, keywords, w);
    case Unsupported =>
  }

  /** One child that guarantees is enough: it matches a part of the whole string. */
  lemma {:induction false} SequenceHolds(low: bytes -> bytes, eq: Fold, cs: seq<Node>, i: nat, keywords: seq<bytes>, w: bytes)
    requires GoodLower(low) && GoodFold(eq) && i < |cs| && Guarantees(low, cs[i], keywords) && AllMatch(eq, cs, w)
    ensures Scanner.HasKeyword(Lower(low, w), keywords)
    decreases cs, 0
  {
    hide GoodLower, GoodFold, Lower, WellFormed, Scanner.HasKeyword, NodeMatches, Guarantees;
    var u, v :| w == u + v && NodeMatches(eq, cs[0], u) && AllMatch(eq, cs[1..], v);
    NodeIsWellFormed(eq, cs[0], u);
    NothingIsWellFormed();
    if i == 0 {
      GuaranteeHolds(low, eq, cs[0], keywords, u);
      KeywordInLowered(low, [], u, v, keywords);
      assert [] + u + v == w;
    } else {
      AllAreWellFormed(eq, cs[1..], v);
      SequenceHolds(low, eq, cs[1..], i - 1, keywords, v);
      KeywordInLowered(low, u, v, [], keywords);
      assert u + v + [] == w;
    }
  }

  lemma {:induction false} FirstCopyHolds(low: bytes -> bytes, eq: Fold, n: Node, k: nat, keywords: seq<bytes>, w: bytes)
    requires GoodLower(low) && GoodFold(eq) && Guarantees(low, n, keywords) && k >= 1 && NodeCopies(eq, n, k, w)
    ensures Scanner.HasKeyword(Lower(low, w), keywords)
    decreases n, 1
  {
    hide GoodLower, GoodFold, Lower, WellFormed, Scanner.HasKeyword, NodeMatches, Guarantees;
    var u, v :| w == u + v && NodeMatches(eq, n, u) && NodeCopies(eq, n, k - 1, v);
    NodeIsWellFormed(eq, n, u);
    NothingIsWellFormed();
    GuaranteeHolds(low, eq, n, keywords, u);
    KeywordInLowered(low, [], u, v, keywords);
    assert [] + u + v == w;
  }

  // ---- The result ----

  /**
   Prefilter soundness: when regex_guarantees_keyword answers true for a pattern of the
   subset, every string in the pattern's language contains some keyword, both lowered.
   */
  lemma PrefilterIsSound(low: bytes -> bytes, eq: Fold, a: Alt, keywords: seq<bytes>, w: bytes)
    requires GoodLower(low) && GoodFold(eq) && WfAlt(a)
    requires RegexGuarantees(low, PrintAlt(a), keywords) && Matches(eq, a, w)
    ensures Scanner.HasKeyword(Lower(low, w), LowerAll(low, keywords))
  {
    hide GoodLower, GoodFold, WfAlt, AltMatches, BuildAlt, Guarantees, Scanner.HasKeyword, Lower, LowerAll, Parse, PrintAlt, NodeMatches, Nesting;
    PrintedIsParsed(a);
    AltBuilt(eq, false, false, a, w);
    GuaranteeHolds(low, eq, BuildAlt(a, false).value.0, LowerAll(low, keywords), w);
  }
}
