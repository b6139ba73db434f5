/**
 When the keyword prover answers true, told over the syntax of the pattern: every branch
 has a run of adjacent literals, or a part that occurs at least once, that proves a
 keyword. Nothing here builds nodes.
 */
module PrefilterComplete {
  import opened Bytes
  import opened Runes
  import opened RegexSyntax
  import opened RegexParse
  import opened RegexLang
  import opened Prefilter
  import opened PrefilterSound
  import Scanner

  // ---- Literal text ----

  /** The text of a literal and whether it stands under a folding flag. */
  type Text = (bytes, bool)

  /** A folding flag was set before, or somewhere in this atom: the parser never forgets one. */
  predicate FoldAfter(a: Atom, fold: bool) {
    fold || !CaseSensitiveAtom(a)
  }

  predicate FoldInside(head: Head, fold: bool) {
    fold || (head.Flagged? && SetsFold(head.flags))
  }

  /** The text of an atom that is nothing but literal: a rune, an escape for one, or a transparent group of such. */
  function TextOf(a: Atom, fold: bool): Option<Text>
    decreases a, 0
  {
    match a
    case Lit(r) => Some((r, fold))
    case Esc(Identity(r)) => Some((r, fold))
    case Esc(Control(c)) => Some(([ControlByte(c)], fold))
    case Group(NonCapturing, Only(c)) => TextOfConcat(c, fold)
    case Group(Flagged(flags), Only(c)) => TextOfConcat(c, fold || SetsFold(flags))
    case _ => None
  }

  /** Nothing at all, or one run of literals from end to end. */
  function TextOfConcat(c: Concat, fold: bool): Option<Text>
    decreases c, 1
  {
    match c
    case Empty => Some(([], false))
    case Cons(atom, quant, rest) =>
      match TextOf(atom, fold)
      case None => None
      case Some(t) => if quant.Once? && RunIsAll(rest, FoldAfter(atom, fold), t.1) then Some((Run(c, fold, t.1), t.1)) else None
  }

  /** The literals at the front that stand under the flag `f`, as one text. */
  function Run(c: Concat, fold: bool, f: bool): bytes
    decreases c, 0
  {
    match c
    case Empty => []
    case Cons(atom, quant, rest) =>
      match TextOf(atom, fold)
      case Some((text, g)) => if quant.Once? && g == f then text + Run(rest, FoldAfter(atom, fold), f) else []
      case None => []
  }

  predicate RunIsAll(c: Concat, fold: bool, f: bool)
    decreases c, 0
  {
    match c
    case Empty => true
    case Cons(atom, quant, rest) =>
      quant.Once? && TextOf(atom, fold).Some? && TextOf(atom, fold).value.1 == f && RunIsAll(rest, FoldAfter(atom, fold), f)
  }

  // ---- What proves a keyword ----

  /** The lowered text holds a lowered keyword, and under a folding flag it is ASCII without `s` and `S`. */
  predicate Proves(low: bytes -> bytes, keywords: seq<bytes>, text: bytes, fold: bool) {
    && (fold ==> forall b <- text :: b <= 0x7F && b != 0x73 && b != 0x53)
    && exists kw <- keywords :: Lower(low, kw) != [] && Stands(Lower(low, text), Lower(low, kw))
  }

  predicate Stands(s: bytes, part: bytes) {
    exists i | 0 <= i <= |s| :: At(s, i, part)
  }

  /** Occurs at least once, by the count the parser keeps in 64 bits. */
  predicate AtLeastOnce(q: Quant) {
    match q
    case Once => true
    case Plus(_) => true
    case Braces(min, _, _, _) => Value(min) % 0x1_0000_0000_0000_0000 >= 1
    case _ => false
  }

  predicate SureAtom(low: bytes -> bytes, keywords: seq<bytes>, a: Atom, fold: bool)
    decreases a, 1
  {
    match a
    case Lit(r) => Proves(low, keywords, r, fold)
    case Esc(Identity(r)) => Proves(low, keywords, r, fold)
    case Esc(Control(c)) => Proves(low, keywords, [ControlByte(c)], fold)
    case Group(head, body) => SureAlt(low, keywords, body, FoldInside(head, fold))
    case _ => false
  }

  /** Some run of literals proves a keyword, or some part that is not one, and occurs at least once, does; `before` is the flag of a run that goes on. */
  predicate SureConcat(low: bytes -> bytes, keywords: seq<bytes>, c: Concat, fold: bool, before: Option<bool>)
    decreases c, 2
  {
    match c
    case Empty => false
    case Cons(atom, quant, rest) =>
      var text := if quant.Once? then TextOf(atom, fold) else None;
      var after := FoldAfter(atom, fold);
      if text.Some? then
        || (before != Some(text.value.1) && Proves(low, keywords, Run(c, fold, text.value.1), text.value.1))
        || SureConcat(low, keywords, rest, after, Some(text.value.1))
      else (AtLeastOnce(quant) && SureAtom(low, keywords, atom, fold)) || SureConcat(low, keywords, rest, after, None)
  }

  /** Every branch is sure. */
  predicate SureAlt(low: bytes -> bytes, keywords: seq<bytes>, a: Alt, fold: bool)
    decreases a, 3
  {
    match a
    case Only(c) => SureConcat(low, keywords, c, fold, None)
    case Or(c, rest) => SureConcat(low, keywords, c, fold, None) && SureAlt(low, keywords, rest, fold || !CaseSensitiveConcat(c))
  }

  // ---- Proving a literal ----

  lemma {:induction false} LowerAllAt(low: bytes -> bytes, keywords: seq<bytes>, i: nat)
    requires i < |keywords|
    ensures LowerAll(low, keywords)[i] == Lower(low, keywords[i])
    decreases i
  {
    if i > 0 {
      LowerAllAt(low, keywords[1..], i - 1);
    }
  }

  lemma LiteralProves(low: bytes -> bytes, keywords: seq<bytes>, text: bytes, fold: bool)
    ensures Guarantees(low, Literal(text, fold), LowerAll(low, keywords)) <==> Proves(low, keywords, text, fold)
  {
    hide Lower, LowerAll;
    var lowered, kws := Lower(low, text), LowerAll(low, keywords);
    if Scanner.HasKeyword(lowered, kws) {
      var kw :| kw in kws && kw != [] && Scanner.Contains(lowered, kw);
      var i :| 0 <= i < |kws| && kws[i] == kw;
      LowerAllAt(low, keywords, i);
      assert Stands(lowered, kw);
      assert keywords[i] in keywords;
    }
    if kw :| kw in keywords && Lower(low, kw) != [] && Stands(lowered, Lower(low, kw)) {
      var i :| 0 <= i < |keywords| && keywords[i] == kw;
      LowerAllAt(low, keywords, i);
      assert kws[i] in kws;
      assert Scanner.Contains(lowered, kws[i]);
    }
  }

  // ---- Patterns of the subset build ----

  lemma {:induction false} AtomBuilds(a: Atom, fold: bool)
    requires WfAtom(a)
    ensures BuildAtom(a, fold).Some? && BuildAtom(a, fold).value.1 == FoldAfter(a, fold)
    decreases a, 0
  {
    hide BuildAlt, WfAlt, WfItems, ItemsBuild, EscapeNode;
    match a
    case Esc(e) => EscapeBuilds(e, fold);
    case Class(_, items) => ItemsOfSubsetBuild(items);
    case Group(head, body) => AltBuilds(body, FoldInside(head, fold));
    case _ =>
  }

  lemma EscapeBuilds(e: Escape, fold: bool)
    requires WfEscape(e)
    ensures EscapeNode(e, fold).Some?
  {
  }

  lemma ItemsOfSubsetBuild(items: seq<Item>)
    requires WfItems(items)
    ensures ItemsBuild(items)
  {
    forall i <- items ensures ItemBuilds(i) {
      match i
      case Single(m) => MemOfSubsetBuilds(m);
      case Range(lo, hi) =>
        MemOfSubsetBuilds(lo);
        MemOfSubsetBuilds(hi);
    }
  }

  lemma MemOfSubsetBuilds(m: Mem)
    requires WfMem(m)
    ensures MemBuilds(m)
  {
    if m.EscMem? {
      EscapeBuilds(m.e, false);
    }
  }

  lemma {:induction false} ConcatBuilds(c: Concat, fold: bool, acc: Acc)
    requires WfConcat(c)
    ensures BuildConcat(c, fold, acc).Some? && BuildConcat(c, fold, acc).value.1 == (fold || !CaseSensitiveConcat(c))
    decreases c, 1
  {
    hide BuildAtom, WfAtom, Added, Finished, CaseSensitiveAtom;
    match c
    case Empty =>
    case Cons(atom, quant, rest) =>
      AtomBuilds(atom, fold);
      var b := BuildAtom(atom, fold).value;
      ConcatBuilds(rest, b.1, Added(acc, b.0, quant));
  }

  lemma {:induction false} BranchesBuild(a: Alt, fold: bool)
    requires WfAlt(a)
    ensures BuildBranches(a, fold).Some? && BuildBranches(a, fold).value.1 == (fold || !CaseSensitive(a))
    decreases a, 2
  {
    hide BuildConcat, WfConcat, CaseSensitiveConcat;
    match a
    case Only(c) => ConcatBuilds(c, fold, NOTHING);
    case Or(c, rest) =>
      ConcatBuilds(c, fold, NOTHING);
      BranchesBuild(rest, BuildConcat(c, fold, NOTHING).value.1);
  }

  lemma {:induction false} AltBuilds(a: Alt, fold: bool)
    requires WfAlt(a)
    ensures BuildAlt(a, fold).Some? && BuildAlt(a, fold).value.1 == (fold || !CaseSensitive(a))
    decreases a, 3
  {
    hide BuildBranches;
    BranchesBuild(a, fold);
  }

  // ---- Which nodes are literals ----

  function TextOfNode(n: Node): Option<Text> {
    if n.Literal? then Some((n.text, n.fold)) else None
  }

  /** The run being extended is literal, and a single finished child is not. */
  predicate AccOk(acc: Acc) {
    && (acc.pending.Some? ==> acc.pending.value.Literal?)
    && (|acc.children| == 1 && acc.pending.None? ==> !acc.children[0].Literal?)
  }

  lemma AddedOk(acc: Acc, n: Node, q: Quant)
    requires AccOk(acc)
    ensures AccOk(Added(acc, n, q))
    ensures acc.children != [] ==> Added(acc, n, q).children != []
  {
  }

  lemma {:induction false} AtomText(a: Atom, fold: bool)
    requires WfAtom(a) && BuildAtom(a, fold).Some?
    ensures TextOfNode(BuildAtom(a, fold).value.0) == TextOf(a, fold)
    decreases a, 0
  {
    hide WfConcat, BuildConcat, TextOfConcat, ItemsBuild, WfItems;
    match a
    case Group(head, body) => GroupText(head, body, fold);
    case _ =>
  }

  lemma {:induction false} GroupText(head: Head, body: Alt, fold: bool)
    requires WfAlt(body) && BuildAlt(body, FoldInside(head, fold)).Some?
    ensures TextOfNode(BuildAlt(body, FoldInside(head, fold)).value.0) == (if body.Only? then TextOfConcat(body.c, FoldInside(head, fold)) else None)
    decreases body, 3
  {
    hide WfConcat, BuildConcat, TextOfConcat;
    match body
    case Only(c) =>
      StartOk();
      ConcatText(c, FoldInside(head, fold), NOTHING);
    case Or(_, _) =>
  }

  lemma StartOk()
    ensures AccOk(NOTHING)
  {
  }

  /** What a concatenation builds is a literal exactly when it is one run, together with what came before. */
  lemma {:induction false} ConcatText(c: Concat, fold: bool, acc: Acc)
    requires WfConcat(c) && AccOk(acc) && BuildConcat(c, fold, acc).Some?
    ensures var t := TextOfNode(BuildConcat(c, fold, acc).value.0);
      if acc.children != [] then t == None
      else if acc.pending.None? then t == TextOfConcat(c, fold)
      else
        var p := acc.pending.value;
        t == if RunIsAll(c, fold, p.fold) then Some((p.text + Run(c, fold, p.fold), p.fold)) else None
    decreases c, 1
  {
    hide BuildAtom, WfAtom, TextOf, CaseSensitiveAtom, Quantified;
    match c
    case Empty =>
      FinishedText(acc);
    case Cons(atom, quant, rest) =>
      AtomBuilds(atom, fold);
      AtomText(atom, fold);
      var b := BuildAtom(atom, fold).value;
      AddedOk(acc, b.0, quant);
      ConcatText(rest, b.1, Added(acc, b.0, quant));
      if acc.pending.Some? && TextOf(atom, fold).Some? {
        Join3(acc.pending.value.text, TextOf(atom, fold).value.0, Run(rest, b.1, acc.pending.value.fold));
      }
  }

  lemma FinishedText(acc: Acc)
    requires AccOk(acc)
    ensures TextOfNode(Finished(Flushed(acc)))
         == if acc.children != [] then None else if acc.pending.None? then Some(([], false)) else TextOfNode(acc.pending.value)
    ensures acc.pending.Some? ==> acc.pending.value.text + [] == acc.pending.value.text
  {
  }

  // ---- Sure and guaranteed are one ----

  predicate SomeGuarantees(low: bytes -> bytes, nodes: seq<Node>, kws: seq<bytes>) {
    exists i | 0 <= i < |nodes| :: Guarantees(low, nodes[i], kws)
  }

  lemma SomeOfMore(low: bytes -> bytes, nodes: seq<Node>, n: Node, kws: seq<bytes>)
    ensures SomeGuarantees(low, nodes + [n], kws) <==> SomeGuarantees(low, nodes, kws) || Guarantees(low, n, kws)
  {
    hide Guarantees;
    var all := nodes + [n];
    assert all[|nodes|] == n;
    if SomeGuarantees(low, nodes, kws) {
      var i :| 0 <= i < |nodes| && Guarantees(low, nodes[i], kws);
      assert all[i] == nodes[i];
    }
    if i :| 0 <= i < |all| && Guarantees(low, all[i], kws) {
      assert i < |nodes| ==> nodes[i] == all[i];
    }
  }

  lemma FinishedGuarantees(low: bytes -> bytes, children: seq<Node>, keywords: seq<bytes>)
    ensures Guarantees(low, Finished(children), LowerAll(low, keywords)) <==> SomeGuarantees(low, children, LowerAll(low, keywords))
  {
    hide LowerAll, LiteralIsFoldSafe, Scanner.HasKeyword, Proves;
    if children == [] {
      LiteralProves(low, keywords, [], false);
      NothingProves(low, keywords, false);
    }
  }

  lemma NothingProves(low: bytes -> bytes, keywords: seq<bytes>, fold: bool)
    ensures !Proves(low, keywords, [], fold)
  {
    assert Lower(low, []) == [];
  }

  lemma ModTimes(x: nat, d: nat)
    ensures (x % WRAP * 10 + d) % WRAP == (x * 10 + d) % WRAP
  {
    var k, a := x / WRAP, x % WRAP * 10 + d;
    assert x * 10 + d == a + k * 10 * WRAP;
    ModPlus(a, k * 10);
  }

  lemma {:induction false} ModPlus(a: nat, k: nat)
    ensures (a + k * WRAP) % WRAP == a % WRAP
    decreases k
  {
    if k > 0 {
      ModPlus(a, k - 1);
      assert a + k * WRAP == a + (k - 1) * WRAP + WRAP;
    }
  }

  lemma {:induction false} MinCountIs(d: bytes)
    ensures MinCount(d) == Value(d) % WRAP
    decreases |d|
  {
    hide Digit;
    if d != [] {
      var n := |d| - 1;
      MinCountIs(d[..n]);
      ModTimes(Value(d[..n]), Digit(d[n]));
    }
  }

  lemma QuantifiedGuarantees(low: bytes -> bytes, n: Node, q: Quant, kws: seq<bytes>)
    ensures Guarantees(low, Quantified(n, q), kws) <==> AtLeastOnce(q) && Guarantees(low, n, kws)
  {
    hide MinCount;
    match q
    case Braces(min, _, _, _) => MinCountIs(min);
    case _ =>
  }

  lemma {:induction false} AtomSure(low: bytes -> bytes, keywords: seq<bytes>, a: Atom, fold: bool)
    requires WfAtom(a) && BuildAtom(a, fold).Some?
    ensures Guarantees(low, BuildAtom(a, fold).value.0, LowerAll(low, keywords)) <==> SureAtom(low, keywords, a, fold)
    decreases a, 1
  {
    hide BuildAlt, WfAlt, SureAlt, ItemsBuild, WfItems, LowerAll, Proves, LiteralIsFoldSafe, Scanner.HasKeyword;
    match a
    case Lit(r) => LiteralProves(low, keywords, r, fold);
    case Esc(Identity(r)) => LiteralProves(low, keywords, r, fold);
    case Esc(Control(c)) => LiteralProves(low, keywords, [ControlByte(c)], fold);
    case Group(head, body) => AltSure(low, keywords, body, FoldInside(head, fold));
    case _ =>
  }

  /** What a concatenation guarantees: by a part finished before, by the run that goes on, or by itself. */
  lemma {:induction false} ConcatSure(low: bytes -> bytes, keywords: seq<bytes>, c: Concat, fold: bool, acc: Acc)
    requires WfConcat(c) && AccOk(acc) && BuildConcat(c, fold, acc).Some?
    ensures var kws := LowerAll(low, keywords);
      Guarantees(low, BuildConcat(c, fold, acc).value.0, kws)
      <==> SomeGuarantees(low, acc.children, kws) || RunGoesOn(low, keywords, c, fold, acc) || SureConcat(low, keywords, c, fold, Before(acc))
    decreases c, 2
  {
    hide BuildAtom, WfAtom, TextOf, CaseSensitiveAtom, Quantified, Guarantees, LowerAll, SureAtom, Proves, Finished, AtLeastOnce, SomeGuarantees;
    match c
    case Empty => EmptySure(low, keywords, fold, acc);
    case Cons(atom, quant, rest) =>
      AtomBuilds(atom, fold);
      AtomText(atom, fold);
      AtomSure(low, keywords, atom, fold);
      var b := BuildAtom(atom, fold).value;
      AddedOk(acc, b.0, quant);
      ConcatSure(low, keywords, rest, b.1, Added(acc, b.0, quant));
      AddedSure(low, keywords, atom, quant, rest, fold, acc, b.0);
  }

  function Before(acc: Acc): Option<bool> {
    if acc.pending.Some? && acc.pending.value.Literal? then Some(acc.pending.value.fold) else None
  }

  /** The run being extended proves a keyword with the literals at the front of `c`. */
  predicate RunGoesOn(low: bytes -> bytes, keywords: seq<bytes>, c: Concat, fold: bool, acc: Acc) {
    acc.pending.Some? && acc.pending.value.Literal?
    && Proves(low, keywords, acc.pending.value.text + Run(c, fold, acc.pending.value.fold), acc.pending.value.fold)
  }

  lemma EmptySure(low: bytes -> bytes, keywords: seq<bytes>, fold: bool, acc: Acc)
    requires AccOk(acc)
    ensures var kws := LowerAll(low, keywords);
      Guarantees(low, Finished(Flushed(acc)), kws) <==> SomeGuarantees(low, acc.children, kws) || RunGoesOn(low, keywords, Empty, fold, acc)
  {
    hide Guarantees, LowerAll, Proves, Finished, SomeGuarantees;
    FinishedGuarantees(low, Flushed(acc), keywords);
    FlushedSure(low, keywords, acc);
    if acc.pending.Some? {
      assert acc.pending.value.text + [] == acc.pending.value.text;
    }
  }

  lemma FlushedSure(low: bytes -> bytes, keywords: seq<bytes>, acc: Acc)
    requires AccOk(acc)
    ensures var kws := LowerAll(low, keywords);
      SomeGuarantees(low, Flushed(acc), kws)
      <==> SomeGuarantees(low, acc.children, kws)
           || (acc.pending.Some? && Proves(low, keywords, acc.pending.value.text, acc.pending.value.fold))
  {
    hide Guarantees, LowerAll, Proves, SomeGuarantees;
    if acc.pending.Some? {
      var p := acc.pending.value;
      SomeOfMore(low, acc.children, p, LowerAll(low, keywords));
      LiteralProves(low, keywords, p.text, p.fold);
    }
  }

  /** One more part: what it adds to what is guaranteed. */
  lemma AddedSure(low: bytes -> bytes, keywords: seq<bytes>, atom: Atom, quant: Quant, rest: Concat, fold: bool, acc: Acc, n: Node)
    requires AccOk(acc) && TextOfNode(n) == TextOf(atom, fold)
    requires Guarantees(low, n, LowerAll(low, keywords)) <==> SureAtom(low, keywords, atom, fold)
    ensures var kws := LowerAll(low, keywords);
      var c, now, after := Cons(atom, quant, rest), Added(acc, n, quant), FoldAfter(atom, fold);
      (SomeGuarantees(low, now.children, kws) || RunGoesOn(low, keywords, rest, after, now) || SureConcat(low, keywords, rest, after, Before(now)))
      <==> (SomeGuarantees(low, acc.children, kws) || RunGoesOn(low, keywords, c, fold, acc) || SureConcat(low, keywords, c, fold, Before(acc)))
  {
    hide TextOf, CaseSensitiveAtom, Quantified, Guarantees, LowerAll, SureAtom, Proves, AtLeastOnce, SomeGuarantees;
    var kws := LowerAll(low, keywords);
    FlushedSure(low, keywords, acc);
    if acc.pending.Some? {
      assert acc.pending.value.text + [] == acc.pending.value.text;
    }
    if quant.Once? && n.Literal? {
      if acc.pending.Some? {
        Join3(acc.pending.value.text, n.text, Run(rest, FoldAfter(atom, fold), n.fold));
      }
    } else {
      SomeOfMore(low, Flushed(acc), Quantified(n, quant), kws);
      QuantifiedGuarantees(low, n, quant, kws);
    }
  }

  lemma {:induction false} BranchesSure(low: bytes -> bytes, keywords: seq<bytes>, a: Alt, fold: bool)
    requires WfAlt(a) && BuildBranches(a, fold).Some?
    ensures var nodes := BuildBranches(a, fold).value.0;
      && nodes != [] && (a.Only? ==> |nodes| == 1)
      && ((forall i | 0 <= i < |nodes| :: Guarantees(low, nodes[i], LowerAll(low, keywords))) <==> SureAlt(low, keywords, a, fold))
    decreases a, 3
  {
    hide WfConcat, BuildConcat, Guarantees, LowerAll, SureConcat, CaseSensitiveConcat;
    var c := a.c;
    StartOk();
    ConcatBuilds(c, fold, NOTHING);
    ConcatSure(low, keywords, c, fold, NOTHING);
    match a
    case Only(_) =>
      assert BuildBranches(a, fold).value.0[0] == BuildConcat(c, fold, NOTHING).value.0;
    case Or(_, rest) =>
      var b := BuildConcat(c, fold, NOTHING).value;
      BranchesSure(low, keywords, rest, b.1);
      var others := BuildBranches(rest, b.1).value.0;
      AllOfMore(low, b.0, others, LowerAll(low, keywords));
  }

  lemma AllOfMore(low: bytes -> bytes, n: Node, nodes: seq<Node>, kws: seq<bytes>)
    ensures (forall i | 0 <= i < |nodes| + 1 :: Guarantees(low, ([n] + nodes)[i], kws))
       <==> Guarantees(low, n, kws) && forall i | 0 <= i < |nodes| :: Guarantees(low, nodes[i], kws)
  {
    hide Guarantees;
    var all := [n] + nodes;
    assert all[0] == n && forall i | 0 <= i < |nodes| :: all[i + 1] == nodes[i];
  }

  lemma {:induction false} AltSure(low: bytes -> bytes, keywords: seq<bytes>, a: Alt, fold: bool)
    requires WfAlt(a) && BuildAlt(a, fold).Some?
    ensures Guarantees(low, BuildAlt(a, fold).value.0, LowerAll(low, keywords)) <==> SureAlt(low, keywords, a, fold)
    decreases a, 4
  {
    hide BuildBranches, LowerAll, SureAlt, WfAlt;
    BranchesSure(low, keywords, a, fold);
  }

  // ---- The result ----

  lemma {:induction false} SureHasKeyword(low: bytes -> bytes, keywords: seq<bytes>, a: Alt, fold: bool)
    requires SureAlt(low, keywords, a, fold)
    ensures keywords != []
    decreases a, 3
  {
    hide Lower;
    SureConcatHasKeyword(low, keywords, a.c, fold, None);
  }

  lemma {:induction false} SureConcatHasKeyword(low: bytes -> bytes, keywords: seq<bytes>, c: Concat, fold: bool, before: Option<bool>)
    requires SureConcat(low, keywords, c, fold, before)
    ensures keywords != []
    decreases c, 2
  {
    hide Lower, Run, TextOf;
    var after := FoldAfter(c.atom, fold);
    var text := if c.quant.Once? then TextOf(c.atom, fold) else None;
    var next := if text.Some? then Some(text.value.1) else None;
    if SureConcat(low, keywords, c.rest, after, next) {
      SureConcatHasKeyword(low, keywords, c.rest, after, next);
    } else if text.None? && c.atom.Group? {
      SureHasKeyword(low, keywords, c.atom.body, FoldInside(c.atom.head, fold));
    }
  }

  /**
   Exactly when regex_guarantees_keyword answers true, for every pattern of the subset:
   when its groups nest no deeper than a thousand and every branch is sure of a keyword.
   */
  lemma GuaranteedIffSure(low: bytes -> bytes, a: Alt, keywords: seq<bytes>)
    requires WfAlt(a)
    ensures RegexGuarantees(low, PrintAlt(a), keywords) <==> Nesting(a) <= 1000 && SureAlt(low, keywords, a, false)
  {
    hide WfAlt, BuildAlt, Guarantees, LowerAll, Parse, PrintAlt, Nesting, SureAlt;
    PrintedIsParsed(a);
    AltBuilds(a, false);
    AltSure(low, keywords, a, false);
    if SureAlt(low, keywords, a, false) {
      SureHasKeyword(low, keywords, a, false);
    }
  }

  // ---- The plain case: a word in every branch ----

  function Append(a: Concat, b: Concat): Concat {
    match a
    case Empty => b
    case Cons(atom, quant, rest) => Cons(atom, quant, Append(rest, b))
  }

  /** Literal runes, none of them quantified. */
  predicate IsWordRun(c: Concat) {
    match c
    case Empty => true
    case Cons(atom, quant, rest) => atom.Lit? && quant.Once? && IsWordRun(rest)
  }

  /** Somewhere in the branch stands a word whose lowered bytes hold a lowered keyword. */
  ghost predicate HasWord(low: bytes -> bytes, keywords: seq<bytes>, c: Concat) {
    exists pre, word, post :: c == Append(pre, Append(word, post)) && IsWordRun(word) && Proves(low, keywords, PrintConcat(word), false)
  }

  ghost predicate EveryBranchHasWord(low: bytes -> bytes, keywords: seq<bytes>, a: Alt) {
    match a
    case Only(c) => HasWord(low, keywords, c)
    case Or(c, rest) => HasWord(low, keywords, c) && EveryBranchHasWord(low, keywords, rest)
  }

  lemma {:induction false} TextIsPlain(a: Atom)
    requires WfAtom(a) && CaseSensitiveAtom(a) && TextOf(a, false).Some?
    ensures WellFormed(TextOf(a, false).value.0) && !TextOf(a, false).value.1
    decreases a, 0
  {
    hide RuneLength, TextOfConcat, WfConcat, CaseSensitiveConcat;
    match a
    case Lit(r) => RuneIsWellFormed(r);
    case Esc(Identity(r)) => RuneIsWellFormed(r);
    case Esc(Control(c)) => AsciiIsWellFormed(ControlByte(c));
    case Group(_, Only(c)) => RunIsPlain(c);
    case _ =>
  }

  lemma AsciiIsWellFormed(b: byte)
    requires b <= 0x7F
    ensures WellFormed([b])
  {
    assert RuneLength([b]) == 1;
    assert [b][1..] == [];
  }

  /** Without folding flags, a run is whole runes. */
  lemma {:induction false} RunIsPlain(c: Concat)
    requires WfConcat(c) && CaseSensitiveConcat(c)
    ensures WellFormed(Run(c, false, false))
    ensures TextOfConcat(c, false).Some? ==> WellFormed(TextOfConcat(c, false).value.0) && !TextOfConcat(c, false).value.1
    decreases c, 1
  {
    hide RuneLength, WfAtom, TextOf, CaseSensitiveAtom, WellFormed;
    NothingIsWellFormed();
    match c
    case Empty =>
    case Cons(atom, quant, rest) =>
      RunIsPlain(rest);
      if TextOf(atom, false).Some? {
        TextIsPlain(atom);
        WellFormedConcat(TextOf(atom, false).value.0, Run(rest, false, false));
      }
  }

  /** A text proves what a part of it proves, when whole runes come before that part. */
  lemma ProvesMore(low: bytes -> bytes, keywords: seq<bytes>, x: bytes, s: bytes, y: bytes)
    requires WellFormed(x) && WellFormed(s) && Proves(low, keywords, s, false)
    ensures Proves(low, keywords, x + s + y, false)
  {
    hide Lower, WellFormed;
    WellFormedConcat(x, s);
    LowerConcat(low, x + s, y);
    LowerConcat(low, x, s);
    var kw :| kw in keywords && Lower(low, kw) != [] && Stands(Lower(low, s), Lower(low, kw));
    StandsInside(Lower(low, x), Lower(low, s), Lower(low, y), Lower(low, kw));
  }

  lemma StandsInside(x: bytes, s: bytes, y: bytes, part: bytes)
    requires Stands(s, part)
    ensures Stands(x + s + y, part)
  {
    assert Scanner.Contains(s, part);
    ContainsInside(x, s, y, part);
    var i :| 0 <= i <= |x + s + y| && At(x + s + y, i, part);
  }

  /** A word at the front is the beginning of the run there. */
  lemma {:induction false} WordLeads(word: Concat, post: Concat)
    requires IsWordRun(word) && WfConcat(word)
    ensures Run(Append(word, post), false, false) == PrintConcat(word) + Run(post, false, false)
    ensures WellFormed(PrintConcat(word))
    decreases word
  {
    hide RuneLength, WellFormed;
    NothingIsWellFormed();
    match word
    case Empty =>
    case Cons(atom, quant, rest) =>
      WordLeads(rest, post);
      Join3(atom.rune, PrintConcat(rest), Run(post, false, false));
      RuneIsWellFormed(atom.rune);
      WellFormedConcat(atom.rune, PrintConcat(rest));
      assert [] + PrintConcat(rest) == PrintConcat(rest);
  }

  /** Wherever the word stands, the branch is sure, or the run that goes on proves it. */
  lemma {:induction false} WordIsSure(low: bytes -> bytes, keywords: seq<bytes>, pre: Concat, word: Concat, post: Concat, before: Option<bool>)
    requires WfConcat(pre) && WfConcat(word) && CaseSensitiveConcat(pre)
    requires IsWordRun(word) && Proves(low, keywords, PrintConcat(word), false)
    ensures var c := Append(pre, Append(word, post));
      || SureConcat(low, keywords, c, false, before)
      || (before == Some(false) && Proves(low, keywords, Run(c, false, false), false))
    decreases pre
  {
    hide TextOf, WfAtom, CaseSensitiveAtom, SureAtom, Proves, AtLeastOnce, WellFormed;
    match pre
    case Empty => WordHere(low, keywords, word, post, before);
    case Cons(atom, quant, rest) =>
      var text := if quant.Once? then TextOf(atom, false) else None;
      var c := Append(rest, Append(word, post));
      if text.Some? {
        TextIsPlain(atom);
        WordIsSure(low, keywords, rest, word, post, Some(false));
        if !SureConcat(low, keywords, c, false, Some(false)) {
          LongerRun(low, keywords, text.value.0, rest, word, post);
        }
      } else {
        WordIsSure(low, keywords, rest, word, post, None);
      }
  }

  lemma WordHere(low: bytes -> bytes, keywords: seq<bytes>, word: Concat, post: Concat, before: Option<bool>)
    requires WfConcat(word) && IsWordRun(word) && Proves(low, keywords, PrintConcat(word), false)
    ensures var c := Append(word, post);
      || SureConcat(low, keywords, c, false, before)
      || (before == Some(false) && Proves(low, keywords, Run(c, false, false), false))
  {
    hide Proves, WellFormed, Run, WfAtom;
    WordLeads(word, post);
    NothingIsWellFormed();
    ProvesMore(low, keywords, [], PrintConcat(word), Run(post, false, false));
    assert [] + PrintConcat(word) == PrintConcat(word);
    if word.Empty? {
      NothingProves(low, keywords, false);
    }
  }

  lemma LongerRun(low: bytes -> bytes, keywords: seq<bytes>, text: bytes, rest: Concat, word: Concat, post: Concat)
    requires WellFormed(text)
    requires Proves(low, keywords, Run(Append(rest, Append(word, post)), false, false), false)
    ensures Proves(low, keywords, text + Run(Append(rest, Append(word, post)), false, false), false)
  {
    hide Lower, Run;
    var run := Run(Append(rest, Append(word, post)), false, false);
    LowerConcat(low, text, run);
    var kw :| kw in keywords && Lower(low, kw) != [] && Stands(Lower(low, run), Lower(low, kw));
    StandsInside(Lower(low, text), Lower(low, run), [], Lower(low, kw));
    assert Lower(low, text) + Lower(low, run) + [] == Lower(low, text + run);
  }

  lemma {:induction false} AppendedParts(pre: Concat, rest: Concat)
    requires WfConcat(Append(pre, rest))
    ensures WfConcat(pre) && WfConcat(rest)
    ensures CaseSensitiveConcat(Append(pre, rest)) ==> CaseSensitiveConcat(pre)
    decreases pre
  {
    hide WfAtom, CaseSensitiveAtom;
    if pre.Cons? {
      AppendedParts(pre.rest, rest);
    }
  }

  lemma BranchWithWordIsSure(low: bytes -> bytes, keywords: seq<bytes>, c: Concat)
    requires WfConcat(c) && CaseSensitiveConcat(c) && HasWord(low, keywords, c)
    ensures SureConcat(low, keywords, c, false, None)
  {
    hide WfConcat, CaseSensitiveConcat, SureConcat, Proves, Append;
    var pre, word, post :| c == Append(pre, Append(word, post)) && IsWordRun(word) && Proves(low, keywords, PrintConcat(word), false);
    AppendedParts(pre, Append(word, post));
    AppendedParts(word, post);
    WordIsSure(low, keywords, pre, word, post, None);
  }

  lemma {:induction false} WordsAreSure(low: bytes -> bytes, keywords: seq<bytes>, a: Alt)
    requires WfAlt(a) && CaseSensitive(a) && EveryBranchHasWord(low, keywords, a)
    ensures SureAlt(low, keywords, a, false)
    decreases a
  {
    hide WfConcat, CaseSensitiveConcat, SureConcat, HasWord;
    match a
    case Only(c) => BranchWithWordIsSure(low, keywords, c);
    case Or(c, rest) =>
      BranchWithWordIsSure(low, keywords, c);
      WordsAreSure(low, keywords, rest);
  }

  /** A pattern without folding flags is guaranteed when every branch has a word with a keyword in it, whatever else stands there. */
  lemma WordInEveryBranchIsEnough(low: bytes -> bytes, a: Alt, keywords: seq<bytes>)
    requires WfAlt(a) && CaseSensitive(a) && Nesting(a) <= 1000 && EveryBranchHasWord(low, keywords, a)
    ensures RegexGuarantees(low, PrintAlt(a), keywords)
  {
    hide WfAlt, CaseSensitive, Nesting, EveryBranchHasWord, RegexGuarantees, PrintAlt, SureAlt;
    WordsAreSure(low, keywords, a);
    GuaranteedIffSure(low, a, keywords);
  }

  // ---- Escapes that are not valid ----

  /** Letters and digits that the subset gives no escape: none of `dswDSW`, `bBAzZ`, `ntrfva`, `pP`, `x`, `0` to `7`. */
  predicate NoEscape(c: byte) {
    IsAlnum(c) && !IsPerl(c) && !IsZeroWidth(c) && !IsControl(c) && !IsOctalDigit(c) && c != 0x70 && c != 0x50 && c != 0x78
  }

  lemma OddEscapeReads(rest: bytes, c: byte)
    requires NoEscape(c)
    ensures var r := ParseEscape([BACKSLASH, c] + rest, 0); r.Some? && r.value.tree == Identity([c])
  {
  }

  lemma EscapeAtom(s: bytes)
    requires s != [] && s[0] == BACKSLASH && ParseEscape(s, 0).Some?
    ensures ParseAtom(s, 0, 0).Some? && ParseAtom(s, 0, 0).value.tree == Esc(ParseEscape(s, 0).value.tree)
  {
    hide ParseEscape, ParseGroup, ParseClass;
  }

  lemma ConcatStartsWith(s: bytes, a: Atom)
    requires !Stops(s, 0) && ParseAtom(s, 0, 0).Some? && ParseAtom(s, 0, 0).value.tree == a && ParseConcat(s, 0, 0).Some?
    ensures ParseConcat(s, 0, 0).value.tree.Cons? && ParseConcat(s, 0, 0).value.tree.atom == a
  {
    hide ParseAtom, ParseQuant;
  }

  lemma AltStartsWith(s: bytes)
    requires ParseAlt(s, 0, 0).Some?
    ensures ParseConcat(s, 0, 0).Some? && ParseAlt(s, 0, 0).value.tree.c == ParseConcat(s, 0, 0).value.tree
  {
    hide ParseConcat;
  }

  lemma FirstAtomFails(a: Alt, fold: bool)
    requires a.c.Cons? && BuildAtom(a.c.atom, fold).None?
    ensures BuildAlt(a, fold).None?
  {
    hide BuildAtom;
    assert BuildConcat(a.c, fold, NOTHING).None?;
    assert BuildBranches(a, fold).None?;
  }

  /** An unknown escape fails the whole pattern, whatever literals follow: `\Qsecret\E` proves nothing. */
  lemma UnknownEscapeProvesNothing(low: bytes -> bytes, c: byte, rest: bytes, keywords: seq<bytes>)
    requires NoEscape(c)
    ensures !RegexGuarantees(low, [BACKSLASH, c] + rest, keywords)
  {
    hide ParseEscape, ParseAtom, ParseConcat, ParseAlt, BuildAlt, Guarantees, LowerAll;
    var s := [BACKSLASH, c] + rest;
    OddEscapeReads(rest, c);
    if Parse(s).Some? {
      EscapeAtom(s);
      AltStartsWith(s);
      ConcatStartsWith(s, Esc(Identity([c])));
      FirstAtomFails(Parse(s).value, false);
    }
  }
}
