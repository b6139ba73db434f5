/**
 The recursive-descent parser of Prefilter.hpp as it runs: a cursor, a nesting depth and a
 case-folding flag that is set and never cleared. Every method gives what reading the
 syntax and then building its node gives.
 */
module PrefilterParsing {
  import opened Bytes
  import opened RegexSyntax
  import opened RegexParse
  import opened RegexLang
  import opened Prefilter

  /** What parsing from a position gives: a node, the position after it, the folding flag. */
  datatype Step = Step(node: Node, end: nat, fold: bool)

  datatype Steps = Steps(nodes: seq<Node>, end: nat, fold: bool)

  function EscapeStep(s: bytes, p: nat, fold: bool): Option<Step>
    requires p < |s|
  {
    match ParseEscape(s, p)
    case None => None
    case Some(e) =>
      match EscapeNode(e.tree, fold)
      case None => None
      case Some(n) => Some(Step(n, e.end, fold))
  }

  function AtomStep(s: bytes, p: nat, depth: nat, fold: bool): Option<Step>
    requires p <= |s|
  {
    match ParseAtom(s, p, depth)
    case None => None
    case Some(a) =>
      match BuildAtom(a.tree, fold)
      case None => None
      case Some(b) => Some(Step(b.0, a.end, b.1))
  }

  function ConcatStep(s: bytes, p: nat, depth: nat, fold: bool, acc: Acc): Option<Step>
    requires p <= |s|
  {
    match ParseConcat(s, p, depth)
    case None => None
    case Some(c) =>
      match BuildConcat(c.tree, fold, acc)
      case None => None
      case Some(b) => Some(Step(b.0, c.end, b.1))
  }

  function BranchesStep(s: bytes, p: nat, depth: nat, fold: bool): Option<Steps>
    requires p <= |s|
  {
    match ParseAlt(s, p, depth)
    case None => None
    case Some(a) =>
      match BuildBranches(a.tree, fold)
      case None => None
      case Some(b) => Some(Steps(b.0, a.end, b.1))
  }

  /** The branches after the first ones: more of them only after a `|`. */
  function MoreBranches(s: bytes, p: nat, depth: nat, fold: bool, nodes: seq<Node>): Option<Steps>
    requires p <= |s|
  {
    if Peek(s, p, BAR) then
      match BranchesStep(s, p + 1, depth, fold)
      case None => None
      case Some(more) => Some(Steps(nodes + more.nodes, more.end, more.fold))
    else Some(Steps(nodes, p, fold))
  }

  function AltStep(s: bytes, p: nat, depth: nat, fold: bool): Option<Step>
    requires p <= |s|
  {
    match ParseAlt(s, p, depth)
    case None => None
    case Some(a) =>
      match BuildAlt(a.tree, fold)
      case None => None
      case Some(b) => Some(Step(b.0, a.end, b.1))
  }

  lemma AltStepIsBranches(s: bytes, p: nat, depth: nat, fold: bool)
    requires p <= |s|
    ensures match BranchesStep(s, p, depth, fold)
      case None => AltStep(s, p, depth, fold) == None
      case Some(b) =>
        b.nodes != [] && AltStep(s, p, depth, fold) == Some(Step(if |b.nodes| == 1 then b.nodes[0] else Alternate(b.nodes), b.end, b.fold))
  {
    hide ParseAlt, BuildConcat;
    if ParseAlt(s, p, depth).Some? && BuildBranches(ParseAlt(s, p, depth).value.tree, fold).Some? {
      BranchCount(ParseAlt(s, p, depth).value.tree, fold);
    }
  }

  lemma {:induction false} BranchCount(a: Alt, fold: bool)
    requires BuildBranches(a, fold).Some?
    ensures |BuildBranches(a, fold).value.0| > 0
    ensures |BuildBranches(a, fold).value.0| == 1 <==> a.Only?
    decreases a
  {
    hide BuildConcat;
    match a
    case Only(_) =>
    case Or(c, rest) => BranchCount(rest, BuildConcat(c, fold, NOTHING).value.1);
  }

  lemma BranchesUnfold(s: bytes, p: nat, depth: nat, fold: bool)
    requires p <= |s|
    ensures match ConcatStep(s, p, depth, fold, NOTHING)
      case None => BranchesStep(s, p, depth, fold) == None
      case Some(c) => c.end <= |s| && BranchesStep(s, p, depth, fold) == MoreBranches(s, c.end, depth, c.fold, [c.node])
  {
    hide ParseConcat, BuildConcat;
  }

  lemma ConcatUnfolds(s: bytes, p: nat, depth: nat, fold: bool, acc: Acc)
    requires p <= |s|
    ensures Stops(s, p) ==> ConcatStep(s, p, depth, fold, acc) == Some(Step(Finished(Flushed(acc)), p, fold))
    ensures !Stops(s, p) ==>
      match AtomStep(s, p, depth, fold)
      case None => ConcatStep(s, p, depth, fold, acc) == None
      case Some(t) =>
        && p < t.end <= |s|
        && var q := ParseQuant(s, t.end);
        ConcatStep(s, p, depth, fold, acc) == ConcatStep(s, q.end, depth, t.fold, Added(acc, t.node, q.tree))
  {
    hide ParseAtom, BuildAtom, ParseQuant, Added, Finished, Flushed;
  }

  /** A brace that is no quantifier starts no atom either. */
  lemma StrayBraceFails(s: bytes, p: nat, depth: nat, fold: bool, acc: Acc)
    requires Peek(s, p, LBRACE)
    ensures ConcatStep(s, p, depth, fold, acc) == None
  {
    assert ParseAtom(s, p, depth) == None;
    assert !Stops(s, p);
  }

  /** A group's body and the parenthesis that must follow it. */
  function Closed(s: bytes, body: Option<Step>, capture: bool): Option<Step> {
    match body
    case None => None
    case Some(b) => if Peek(s, b.end, RPAREN) then Some(Step(if capture then Capture(b.node) else b.node, b.end + 1, b.fold)) else None
  }

  /** One group, by what opens it. */
  lemma GroupUnfolds(s: bytes, p: nat, depth: nat, fold: bool)
    requires Peek(s, p, LPAREN)
    ensures depth >= MAX_DEPTH || ParseOpening(s, p).None? ==> AtomStep(s, p, depth, fold) == None
    ensures depth < MAX_DEPTH && ParseOpening(s, p).Some? ==>
      match ParseOpening(s, p).value
      case FlagsOnly(flags, e) => AtomStep(s, p, depth, fold) == Some(Step(Unsupported, e, fold || SetsFold(flags)))
      case Body(head, q) =>
        match AltStep(s, q, depth + 1, fold || (head.Flagged? && SetsFold(head.flags)))
        case b => AtomStep(s, p, depth, fold) == Closed(s, b, head.Capturing? || head.Named?)
  {
    hide ParseOpening, ParseAlt, BuildAlt, ParseAtom;
    GroupAtom(s, p, depth);
    if depth < MAX_DEPTH && ParseOpening(s, p).Some? {
      match ParseOpening(s, p).value
      case FlagsOnly(flags, e) => assert BuildAtom(SetFlags(flags), fold) == Some((Unsupported, fold || SetsFold(flags)));
      case Body(head, q) =>
        if ParseAlt(s, q, depth + 1).Some? {
          GroupBuild(head, ParseAlt(s, q, depth + 1).value.tree, fold);
        }
    }
  }

  lemma GroupBuild(head: Head, body: Alt, fold: bool)
    ensures BuildAtom(Group(head, body), fold)
      == match BuildAlt(body, fold || (head.Flagged? && SetsFold(head.flags)))
         case None => None
         case Some(b) => Some((if head.Capturing? || head.Named? then Capture(b.0) else b.0, b.1))
  {
    hide BuildAlt;
  }

  /** The rest of a class: where it ends, if all members parse; `any` when some came before. */
  function ClassRest(s: bytes, p: nat): Option<nat>
    requires p <= |s|
  {
    match ParseItems(s, p)
    case None => None
    case Some(items) => if ItemsBuild(items.tree) then Some(items.end) else None
  }

  lemma ClassRestUnfolds(s: bytes, p: nat)
    requires p <= |s|
    ensures p >= |s| ==> ClassRest(s, p) == None
    ensures Peek(s, p, RBRACKET) ==> ClassRest(s, p) == Some(p + 1)
    ensures p < |s| && s[p] != RBRACKET ==>
      match ParseItem(s, p)
      case None => ClassRest(s, p) == None
      case Some(i) => p < i.end <= |s| && ClassRest(s, p) == if ItemBuilds(i.tree) then ClassRest(s, i.end) else None
  {
    hide ParseItem, ItemBuilds;
    if p < |s| && s[p] != RBRACKET && ParseItem(s, p).Some? {
      var i := ParseItem(s, p).value;
      if ParseItems(s, i.end).Some? {
        var rest := ParseItems(s, i.end).value.tree;
        assert forall x <- [i.tree] + rest :: x == i.tree || x in rest;
        assert i.tree in [i.tree] + rest && forall x <- rest :: x in [i.tree] + rest;
      }
    }
  }

  lemma ClassUnfolds(s: bytes, p: nat, depth: nat, fold: bool)
    requires Peek(s, p, LBRACKET)
    ensures var q := if Peek(s, p + 1, CARET) then p + 2 else p + 1;
      AtomStep(s, p, depth, fold)
      == if Peek(s, q, RBRACKET) || ClassRest(s, q).None? then None else Some(Step(Unsupported, ClassRest(s, q).value, fold))
  {
    hide ItemsBuild;
    var q := if Peek(s, p + 1, CARET) then p + 2 else p + 1;
    ItemsEmpty(s, q);
  }

  class PrefilterParser {
    const s: bytes
    var pos: nat
    var depth: nat
    var fold: bool

    constructor (pattern: bytes)
      ensures s == pattern && pos == 0 && depth == 0 && !fold
    {
      s, pos, depth, fold := pattern, 0, 0, false;
    }

    /** The result of a method and the state it leaves are this step. */
    ghost predicate Did(r: Option<Node>, step: Option<Step>)
      reads this
    {
      match step
      case None => r == None
      case Some(t) => r == Some(t.node) && pos == t.end <= |s| && fold == t.fold
    }

    method ConsumeRune() returns (rune: bytes)
      requires pos < |s|
      modifies this`pos
      ensures pos == RuneEnd(s, old(pos)) && rune == s[old(pos)..pos]
    {
      var c := s[pos];
      var n := 1;
      if 0xC0 <= c < 0xE0 {
        n := 2;
      } else if 0xE0 <= c < 0xF0 {
        n := 3;
      } else if 0xF0 <= c < 0xF8 {
        n := 4;
      }
      if pos + n > |s| {
        n := |s| - pos;
      }
      rune := s[pos..pos + n];
      pos := pos + n;
    }

    method SkipUntil(b: byte)
      requires pos <= |s|
      modifies this`pos
      ensures pos == Until(s, old(pos), b)
    {
      while pos < |s| && s[pos] != b
        invariant pos <= |s|
        invariant Until(s, pos, b) == Until(s, old(pos), b)
        decreases |s| - pos
      {
        pos := pos + 1;
      }
    }

    method SkipDigits()
      requires pos <= |s|
      modifies this`pos
      ensures pos == DigitsFrom(s, old(pos))
    {
      while pos < |s| && IsDigit(s[pos])
        invariant pos <= |s|
        invariant DigitsFrom(s, pos) == DigitsFrom(s, old(pos))
        decreases |s| - pos
      {
        pos := pos + 1;
      }
    }

    method SkipLazyMarker()
      requires pos <= |s|
      modifies this`pos
      ensures pos == LazyEnd(s, old(pos)) <= |s|
    {
      if pos < |s| && s[pos] == QUESTION {
        pos := pos + 1;
      }
    }

    method ParseAlternation() returns (r: Option<Node>)
      requires pos <= |s|
      modifies this
      ensures pos <= |s| && depth == old(depth)
      ensures Did(r, AltStep(s, old(pos), old(depth), old(fold)))
      decreases |s| - pos, 4
    {
      hide AltStep, ConcatStep, BranchesStep, MoreBranches;
      AltStepIsBranches(s, pos, depth, fold);
      BranchesUnfold(s, pos, depth, fold);
      ghost var p0, d0, f0 := pos, depth, fold;
      r := this.ParseConcat();
      if r.None? {
        return;
      }
      MoreUnfolds(s, pos, depth, fold, [r.value]);
      if !(pos < |s| && s[pos] == BAR) {
        return;
      }
      var children := [r.value];
      while pos < |s| && s[pos] == BAR
        invariant p0 <= pos <= |s| && depth == d0 && children != []
        invariant BranchesStep(s, p0, d0, f0) == MoreBranches(s, pos, d0, fold, children)
        invariant |children| == 1 ==> Peek(s, pos, BAR)
        decreases |s| - pos
      {
        MoreUnfolds(s, pos, depth, fold, children);
        pos := pos + 1;
        BranchesUnfold(s, pos, depth, fold);
        ghost var before := children;
        var next := this.ParseConcat();
        if next.None? {
          return None;
        }
        MoreAppends(s, pos, depth, fold, before, [next.value]);
        children := children + [next.value];
      }
      MoreUnfolds(s, pos, depth, fold, children);
      return Some(Alternate(children));
    }

    method ParseConcat() returns (r: Option<Node>)
      requires pos <= |s|
      modifies this
      ensures pos <= |s| && depth == old(depth)
      ensures Did(r, ConcatStep(s, old(pos), old(depth), old(fold), NOTHING))
      ensures r.Some? ==> old(pos) <= pos
      decreases |s| - pos, 3
    {
      hide ConcatStep, AtomStep, ParseQuant, Finished, Quantified;
      ghost var p0, d0, f0 := pos, depth, fold;
      var children: seq<Node> := [];
      var pending: Option<Node> := None;
      while pos < |s| && s[pos] != BAR && s[pos] != RPAREN
        invariant p0 <= pos <= |s| && depth == d0
        invariant pending.Some? ==> pending.value.Literal?
        invariant ConcatStep(s, p0, d0, f0, NOTHING) == ConcatStep(s, pos, d0, fold, Acc(children, pending))
        decreases |s| - pos
      {
        ghost var acc := Acc(children, pending);
        ConcatUnfolds(s, pos, depth, fold, acc);
        var atom := this.ParseAtom();
        if atom.None? {
          return None;
        }
        var quantified := pos < |s| && (s[pos] == STAR || s[pos] == PLUS || s[pos] == QUESTION || s[pos] == LBRACE);
        QuantKinds(s, pos);
        ghost var q := RegexParse.ParseQuant(s, pos);
        var piece := atom.value;
        if quantified {
          piece := this.ParseQuantifier(atom.value);
          if q.tree.Once? {
            StrayBraceFails(s, pos, depth, fold, Added(acc, atom.value, Once));
            StrayBraceFails(s, pos, depth, fold, Acc(Flushed(acc) + [piece], None));
          }
        }
        if !quantified && piece.Literal? {
          if pending.Some? && pending.value.fold == piece.fold {
            pending := Some(Literal(pending.value.text + piece.text, piece.fold));
          } else {
            children := if pending.Some? then children + [pending.value] else children;
            pending := Some(piece);
          }
          assert Acc(children, pending) == Added(acc, atom.value, Once);
          continue;
        }
        children := (if pending.Some? then children + [pending.value] else children) + [piece];
        pending := None;
        assert Acc(children, pending) == Acc(Flushed(acc) + [piece], None);
        assert !q.tree.Once? || !quantified ==> Acc(children, pending) == Added(acc, atom.value, q.tree) by { QuantifiedOnce(atom.value); }
      }
      ConcatUnfolds(s, pos, depth, fold, Acc(children, pending));
      children := if pending.Some? then children + [pending.value] else children;
      FinishedIs(children);
      if children == [] {
        return Some(Literal([], false));
      }
      if |children| == 1 {
        return Some(children[0]);
      }
      return Some(Sequence(children));
    }

    method ParseQuantifier(atom: Node) returns (r: Node)
      requires pos < |s| && (s[pos] == STAR || s[pos] == PLUS || s[pos] == QUESTION || s[pos] == LBRACE)
      modifies this`pos
      ensures var q := ParseQuant(s, old(pos)); pos == q.end <= |s| && old(pos) <= pos && r == Quantified(atom, q.tree)
    {
      hide ParseBraces;
      var c := s[pos];
      if c == STAR {
        pos := pos + 1;
        SkipLazyMarker();
        return Repeat(0, atom);
      }
      if c == PLUS {
        pos := pos + 1;
        SkipLazyMarker();
        return Repeat(1, atom);
      }
      if c == QUESTION {
        pos := pos + 1;
        SkipLazyMarker();
        return Repeat(0, atom);
      }
      r := ParseBraceQuantifier(atom);
    }

    method ParseBraceQuantifier(atom: Node) returns (r: Node)
      requires pos < |s| && s[pos] == LBRACE
      modifies this`pos
      ensures var q := ParseBraces(s, old(pos)); pos == q.end <= |s| && old(pos) <= pos && r == Quantified(atom, q.tree)
    {
      hide DigitsFrom, MinCount, ParseBraces;
      var save := pos;
      pos := pos + 1;
      SkipDigits();
      var afterMin := pos;
      var minDigits := s[save + 1..afterMin];
      var comma := pos < |s| && s[pos] == COMMA;
      if comma {
        pos := pos + 1;
        SkipDigits();
      } else {
        DigitsEnd(s, save + 1);
      }
      BraceCases(s, save, afterMin, comma, pos);
      if minDigits == [] || !(pos < |s| && s[pos] == RBRACE) {
        pos := save;
        return atom;
      }
      pos := pos + 1;
      SkipLazyMarker();
      var min := CountOf(minDigits);
      return Repeat(min, atom);
    }

    method ParseAtom() returns (r: Option<Node>)
      requires pos <= |s|
      modifies this
      ensures pos <= |s| && depth == old(depth)
      ensures Did(r, AtomStep(s, old(pos), old(depth), old(fold)))
      ensures r.Some? ==> old(pos) < pos
      decreases |s| - pos, 2
    {
      hide ParseEscape, ParseClass, RegexParse.ParseGroup, EscapeNode, ParseOpening, BuildAlt, ItemsBuild, RuneEnd;
      if pos >= |s| {
        return None;
      }
      var c := s[pos];
      if c == LPAREN {
        hide AtomStep;
        r := this.ParseGroup();
        return;
      }
      if c == LBRACKET {
        hide AtomStep;
        r := this.ParseCharClass();
        return;
      }
      if c == BACKSLASH {
        r := this.ParseEscapeHere();
        return;
      }
      if c == CARET || c == DOLLAR {
        pos := pos + 1;
        return Some(Unsupported);
      }
      if c == DOT {
        pos := pos + 1;
        return Some(Unsupported);
      }
      if c == BAR || c == RPAREN || c == STAR || c == PLUS || c == QUESTION || c == LBRACE || c == RBRACE || c == RBRACKET {
        return None;
      }
      var rune := ConsumeRune();
      return Some(Literal(rune, fold));
    }

    method ParseGroup() returns (r: Option<Node>)
      requires pos < |s| && s[pos] == LPAREN
      modifies this
      ensures pos <= |s| && depth == old(depth)
      ensures Did(r, AtomStep(s, old(pos), old(depth), old(fold)))
      ensures r.Some? ==> old(pos) < pos
      decreases |s| - pos, 1
    {
      hide AtomStep;
      if depth >= MAX_DEPTH {
        GroupUnfolds(s, pos, depth, fold);
        return None;
      }
      depth := depth + 1;
      pos := pos + 1;
      r := this.ParseOpened();
      depth := depth - 1;
    }

    /** A group past its parenthesis: its head decides what is read. */
    method ParseOpened() returns (r: Option<Node>)
      requires 0 < pos <= |s| && s[pos - 1] == LPAREN && 0 < depth <= MAX_DEPTH
      modifies this
      ensures pos <= |s| && depth == old(depth)
      ensures Did(r, AtomStep(s, old(pos) - 1, old(depth) - 1, old(fold)))
      ensures r.Some? ==> old(pos) <= pos
      decreases |s| - pos, 6
    {
      hide AtomStep, AltStep, FlagsFrom, Until, ParseOpening, SetsFold, Closed;
      GroupUnfolds(s, pos - 1, depth - 1, fold);
      OpeningCases(s, pos - 1);
      if !(pos < |s| && s[pos] == QUESTION) {
        r := this.ParseBody(true);
        return;
      }
      if pos + 1 < |s| && s[pos + 1] == COLON {
        pos := pos + 2;
        r := this.ParseBody(false);
        return;
      }
      if pos + 1 < |s| && s[pos + 1] == LETTER_P && pos + 2 < |s| && s[pos + 2] == LESS {
        pos := pos + 3;
        SkipUntil(GREATER);
        if pos >= |s| {
          return None;
        }
        pos := pos + 1;
        r := this.ParseBody(true);
        return;
      }
      pos := pos + 1;
      r := this.ParseFlags();
    }

    /** `(?` past the question mark, when flags must follow: flags alone, or a group with flags. */
    method ParseFlags() returns (r: Option<Node>)
      requires 1 < pos <= |s| && s[pos - 2] == LPAREN && s[pos - 1] == QUESTION && 0 < depth <= MAX_DEPTH
      requires !Peek(s, pos, COLON) && !(Peek(s, pos, LETTER_P) && Peek(s, pos + 1, LESS))
      modifies this
      ensures pos <= |s| && depth == old(depth)
      ensures Did(r, AtomStep(s, old(pos) - 2, old(depth) - 1, old(fold)))
      ensures r.Some? ==> old(pos) <= pos
      decreases |s| - pos, 6
    {
      hide AtomStep, AltStep, FlagsFrom, Until, ParseOpening, SetsFold, Closed;
      GroupUnfolds(s, pos - 2, depth - 1, fold);
      OpeningCases(s, pos - 2);
      var from := pos;
      ReadFlags();
      if pos > from && pos < |s| && s[pos] == RPAREN {
        pos := pos + 1;
        return Some(Unsupported);
      }
      if pos > from && pos < |s| && s[pos] == COLON {
        pos := pos + 1;
        r := this.ParseBody(false);
        return;
      }
      return None;
    }

    /** The letters of a flag list; an `i` anywhere sets the folding flag. */
    method ReadFlags()
      requires pos <= |s|
      modifies this`pos, this`fold
      ensures pos == FlagsFrom(s, old(pos)) && old(pos) <= pos <= |s|
      ensures fold == (old(fold) || SetsFold(s[old(pos)..pos]))
    {
      var start := pos;
      while pos < |s| && (IsFlag(s[pos]) || s[pos] == MINUS)
        invariant start <= pos <= |s|
        invariant FlagsFrom(s, pos) == FlagsFrom(s, start)
        invariant fold == (old(fold) || SetsFold(s[start..pos]))
        decreases |s| - pos
      {
        assert s[start..pos + 1] == s[start..pos] + [s[pos]];
        if s[pos] == LETTER_I {
          fold := true;
        }
        pos := pos + 1;
      }
    }

    /** The alternation inside a group and its closing parenthesis. */
    method ParseBody(capture: bool) returns (r: Option<Node>)
      requires pos <= |s| && depth > 0
      modifies this
      ensures pos <= |s| && depth == old(depth)
      ensures Did(r, Closed(s, AltStep(s, old(pos), old(depth), old(fold)), capture))
      ensures r.Some? ==> old(pos) < pos
      decreases |s| - pos, 5
    {
      hide AltStep;
      AltStepGrows(s, pos, depth, fold);
      r := this.ParseAlternation();
      if r.None? {
        return;
      }
      if !(pos < |s| && s[pos] == RPAREN) {
        return None;
      }
      pos := pos + 1;
      if capture {
        r := Some(Capture(r.value));
      }
    }

    method ParseMember() returns (ok: bool)
      requires pos < |s|
      modifies this`pos
      ensures pos <= |s|
      ensures match ParseMem(s, old(pos))
        case None => !ok
        case Some(m) => ok == MemBuilds(m.tree) && (ok ==> pos == m.end)
    {
      hide RuneEnd, ParseEscape, EscapeNode;
      if s[pos] == BACKSLASH {
        FoldDoesNotMatter(s, pos, fold);
        var e := this.ParseEscapeHere();
        return e.Some?;
      }
      var rune := ConsumeRune();
      return true;
    }

    /** One member of a class, or a range of two. */
    method ParseItemHere() returns (ok: bool)
      requires pos < |s|
      modifies this`pos
      ensures pos <= |s|
      ensures match ParseItem(s, old(pos))
        case None => !ok
        case Some(i) => ok == ItemBuilds(i.tree) && (ok ==> pos == i.end)
    {
      hide ParseMem, MemBuilds, ParseItem;
      ItemByMembers(s, pos);
      ok := this.ParseMember();
      if !ok {
        return;
      }
      if pos < |s| && s[pos] == MINUS && pos + 1 < |s| && s[pos + 1] != RBRACKET {
        pos := pos + 1;
        ok := this.ParseMember();
      }
    }

    method ParseCharClass() returns (r: Option<Node>)
      requires pos < |s| && s[pos] == LBRACKET
      modifies this`pos
      ensures pos <= |s|
      ensures Did(r, AtomStep(s, old(pos), old(depth), old(fold)))
      ensures r.Some? ==> old(pos) < pos
    {
      hide AtomStep, ClassRest, ParseItem, ItemBuilds;
      ClassUnfolds(s, pos, depth, fold);
      ghost var p0 := pos;
      pos := pos + 1;
      if pos < |s| && s[pos] == CARET {
        pos := pos + 1;
      }
      var first := pos;
      var anyMember := false;
      while true
        invariant p0 < first <= pos <= |s|
        invariant anyMember <==> pos > first
        invariant anyMember ==> !Peek(s, first, RBRACKET)
        invariant ClassRest(s, first) == ClassRest(s, pos)
        decreases |s| - pos
      {
        ClassRestUnfolds(s, pos);
        if pos >= |s| {
          return None;
        }
        if s[pos] == RBRACKET {
          pos := pos + 1;
          break;
        }
        anyMember := true;
        var ok := this.ParseItemHere();
        if !ok {
          return None;
        }
      }
      if !anyMember {
        return None;
      }
      return Some(Unsupported);
    }

    method ParseEscapeHere() returns (r: Option<Node>)
      requires pos < |s| && s[pos] == BACKSLASH
      modifies this`pos
      ensures pos <= |s|
      ensures Did(r, EscapeStep(s, old(pos), old(fold)))
      ensures r.Some? ==> old(pos) < pos
    {
      hide RuneEnd, Until, HexEnd, OctalEnd, EscapeStep, ParseEscape;
      EscapeCases(s, pos, fold);
      pos := pos + 1;
      if pos >= |s| {
        return None;
      }
      var c := s[pos];
      if IsPerl(c) || IsZeroWidth(c) {
        pos := pos + 1;
        return Some(Unsupported);
      }
      if IsControl(c) {
        pos := pos + 1;
        return Some(Literal([ControlByte(c)], fold));
      }
      if c == 0x70 || c == 0x50 {
        pos := pos + 1;
        if pos < |s| && s[pos] == LBRACE {
          pos := pos + 1;
          SkipUntil(RBRACE);
          if pos >= |s| {
            return None;
          }
          pos := pos + 1;
        } else if pos < |s| {
          pos := pos + 1;
        }
        return Some(Unsupported);
      }
      if c == 0x78 {
        pos := pos + 1;
        if pos < |s| && s[pos] == LBRACE {
          pos := pos + 1;
          SkipUntil(RBRACE);
          if pos >= |s| {
            return None;
          }
          pos := pos + 1;
        } else {
          SkipHexPair();
        }
        return Some(Unsupported);
      }
      if IsOctalDigit(c) {
        SkipOctal();
        return Some(Unsupported);
      }
      if IsAlnum(c) {
        return None;
      }
      var rune := ConsumeRune();
      return Some(Literal(rune, fold));
    }

    method SkipHexPair()
      requires pos <= |s|
      modifies this`pos
      ensures pos == HexEnd(s, old(pos)) <= |s| && old(pos) <= pos
    {
      var i := 0;
      while i < 2 && pos < |s| && IsHexDigit(s[pos])
        invariant 0 <= i <= 2 && pos == old(pos) + i <= |s|
        invariant forall j | old(pos) <= j < pos :: IsHexDigit(s[j])
      {
        pos := pos + 1;
        i := i + 1;
      }
    }

    method SkipOctal()
      requires pos < |s| && IsOctalDigit(s[pos])
      modifies this`pos
      ensures pos == OctalEnd(s, old(pos)) <= |s| && old(pos) < pos
    {
      var i := 0;
      while i < 3 && pos < |s| && IsOctalDigit(s[pos])
        invariant 0 <= i <= 3 && pos == old(pos) + i <= |s|
        invariant forall j | old(pos) <= j < pos :: IsOctalDigit(s[j])
      {
        pos := pos + 1;
        i := i + 1;
      }
    }

    method Run() returns (r: Option<Node>)
      requires pos == 0 && depth == 0 && !fold
      modifies this
      ensures r == match Parse(s)
        case None => None
        case Some(a) => (match BuildAlt(a, false) case None => None case Some(b) => Some(b.0))
    {
      hide ParseAlt, BuildAlt;
      r := ParseAlternation();
      if r.Some? && pos != |s| {
        return None;
      }
    }
  }

  // ---- What the methods use ----

  lemma MoreUnfolds(s: bytes, p: nat, depth: nat, fold: bool, nodes: seq<Node>)
    requires p <= |s|
    ensures !Peek(s, p, BAR) ==> MoreBranches(s, p, depth, fold, nodes) == Some(Steps(nodes, p, fold))
    ensures Peek(s, p, BAR) ==>
      match BranchesStep(s, p + 1, depth, fold)
      case None => MoreBranches(s, p, depth, fold, nodes) == None
      case Some(more) => MoreBranches(s, p, depth, fold, nodes) == Some(Steps(nodes + more.nodes, more.end, more.fold))
  {
    hide BranchesStep;
  }

  lemma MoreAppends(s: bytes, p: nat, depth: nat, fold: bool, before: seq<Node>, nodes: seq<Node>)
    requires p <= |s|
    ensures match MoreBranches(s, p, depth, fold, nodes)
      case None => MoreBranches(s, p, depth, fold, before + nodes) == None
      case Some(more) => MoreBranches(s, p, depth, fold, before + nodes) == Some(Steps(before + more.nodes, more.end, more.fold))
  {
    hide BranchesStep;
    if Peek(s, p, BAR) && BranchesStep(s, p + 1, depth, fold).Some? {
      Join3(before, nodes, BranchesStep(s, p + 1, depth, fold).value.nodes);
    }
  }

  lemma AltStepGrows(s: bytes, p: nat, depth: nat, fold: bool)
    requires p <= |s|
    ensures AltStep(s, p, depth, fold).Some? ==> p <= AltStep(s, p, depth, fold).value.end <= |s|
  {
    hide BuildAlt;
  }

  lemma QuantKinds(s: bytes, p: nat)
    requires p <= |s|
    ensures var q := ParseQuant(s, p);
      && p <= q.end <= |s|
      && (NoQuantAt(s, p) ==> q == Read(Once, p))
      && (!NoQuantAt(s, p) && q.tree.Once? ==> q.end == p && Peek(s, p, LBRACE))
  {
  }

  lemma QuantifiedOnce(n: Node)
    ensures Quantified(n, Once) == n
  {
  }

  lemma FinishedIs(children: seq<Node>)
    ensures Finished(children) == if children == [] then Literal([], false) else if |children| == 1 then children[0] else Sequence(children)
  {
  }

  lemma DigitsEnd(s: bytes, p: nat)
    requires p <= |s|
    ensures DigitsFrom(s, DigitsFrom(s, p)) == DigitsFrom(s, p)
  {
  }

  method CountOf(digits: bytes) returns (min: nat)
    ensures min == MinCount(digits)
  {
    min := 0;
    for i := 0 to |digits|
      invariant min == MinCount(digits[..i])
    {
      assert digits[..i + 1][..i] == digits[..i];
      min := (min * 10 + Digit(digits[i])) % WRAP;
    }
    assert digits[..|digits|] == digits;
  }

  /** An escape, by the byte after its backslash. */
  lemma EscapeCases(s: bytes, p: nat, fold: bool)
    requires p < |s|
    ensures p + 1 >= |s| ==> EscapeStep(s, p, fold) == None
    ensures p + 1 < |s| && (IsPerl(s[p + 1]) || IsZeroWidth(s[p + 1])) ==> EscapeStep(s, p, fold) == Some(Step(Unsupported, p + 2, fold))
    ensures p + 1 < |s| && IsControl(s[p + 1]) ==> EscapeStep(s, p, fold) == Some(Step(Literal([ControlByte(s[p + 1])], fold), p + 2, fold))
    ensures p + 1 < |s| && (s[p + 1] == 0x70 || s[p + 1] == 0x50 || s[p + 1] == 0x78) && Peek(s, p + 2, LBRACE) ==>
      var u := Until(s, p + 3, RBRACE);
      EscapeStep(s, p, fold) == if u < |s| then Some(Step(Unsupported, u + 1, fold)) else None
    ensures p + 1 < |s| && (s[p + 1] == 0x70 || s[p + 1] == 0x50) && !Peek(s, p + 2, LBRACE) ==>
      EscapeStep(s, p, fold) == Some(Step(Unsupported, if p + 2 < |s| then p + 3 else p + 2, fold))
    ensures p + 1 < |s| && s[p + 1] == 0x78 && !Peek(s, p + 2, LBRACE) ==>
      EscapeStep(s, p, fold) == Some(Step(Unsupported, HexEnd(s, p + 2), fold))
    ensures p + 1 < |s| && IsOctalDigit(s[p + 1]) ==> EscapeStep(s, p, fold) == Some(Step(Unsupported, OctalEnd(s, p + 1), fold))
    ensures p + 1 < |s| && !IsPerl(s[p + 1]) && !IsZeroWidth(s[p + 1]) && !IsControl(s[p + 1]) && !IsOctalDigit(s[p + 1])
            && s[p + 1] != 0x70 && s[p + 1] != 0x50 && s[p + 1] != 0x78 ==>
      EscapeStep(s, p, fold)
      == if IsAlnum(s[p + 1]) then None else Some(Step(Literal(s[p + 1..RuneEnd(s, p + 1)], fold), RuneEnd(s, p + 1), fold))
  {
    hide Until, HexEnd, OctalEnd, RuneEnd;
  }

  lemma FoldDoesNotMatter(s: bytes, p: nat, fold: bool)
    requires p < |s|
    ensures EscapeStep(s, p, fold).Some? <==> ParseEscape(s, p).Some? && EscapeNode(ParseEscape(s, p).value.tree, false).Some?
    ensures EscapeStep(s, p, fold).Some? ==> EscapeStep(s, p, fold).value.end == ParseEscape(s, p).value.end
  {
    hide ParseEscape;
  }

  /** regex_guarantees_keyword. */
  method RegexGuaranteesKeyword(low: bytes -> bytes, pattern: bytes, keywords: seq<bytes>) returns (r: bool)
    ensures r == RegexGuarantees(low, pattern, keywords)
  {
    hide Parse, BuildAlt, Guarantees, LowerAll;
    if keywords == [] {
      return false;
    }
    var lowered := LowerAll(low, keywords);
    var parser := new PrefilterParser(pattern);
    var tree := parser.Run();
    if tree.None? {
      return false;
    }
    return Guarantees(low, tree.value, lowered);
  }
}
