/**
 The recursive-descent parser of PlaceholderRegex.hpp as it runs: it computes the length
 bound while it reads. Every method gives what reading the syntax and then bounding the
 tree gives; None stands for the signal that no bound is known.
 */
module LengthParsing {
  import opened Bytes
  import opened RegexSyntax
  import opened RegexParse
  import opened RegexLang
  import opened LengthBound

  datatype Step = Step(bound: nat, end: nat, fold: bool)

  function EscapeStep(s: bytes, p: nat, fold: bool): Option<Step>
    requires p < |s|
  {
    match ParseEscape(s, p)
    case None => None
    case Some(e) =>
      match EscapeBound(e.tree, fold)
      case None => None
      case Some(n) => Some(Step(n, e.end, fold))
  }

  function AtomStep(s: bytes, p: nat, depth: nat, fold: bool): (r: Option<Step>)
    requires p <= |s|
    ensures r.Some? ==> r.value.bound <= SIZE_MAX
  {
    match ParseAtom(s, p, depth)
    case None => None
    case Some(a) =>
      match AtomBound(a.tree, fold)
      case None => None
      case Some(b) => Some(Step(b.0, a.end, b.1))
  }

  function ConcatStep(s: bytes, p: nat, depth: nat, fold: bool, total: nat): (r: Option<Step>)
    requires p <= |s| && total <= SIZE_MAX
    ensures r.Some? ==> r.value.bound <= SIZE_MAX
  {
    match ParseConcat(s, p, depth)
    case None => None
    case Some(c) =>
      match ConcatBound(c.tree, fold, total)
      case None => None
      case Some(b) => Some(Step(b.0, c.end, b.1))
  }

  function AltStep(s: bytes, p: nat, depth: nat, fold: bool): (r: Option<Step>)
    requires p <= |s|
    ensures r.Some? ==> r.value.bound <= SIZE_MAX
  {
    match ParseAlt(s, p, depth)
    case None => None
    case Some(a) =>
      match AltBound(a.tree, fold)
      case None => None
      case Some(b) => Some(Step(b.0, a.end, b.1))
  }

  /** The branches after the first ones, whose widest is `best`. */
  function MoreBranches(s: bytes, p: nat, depth: nat, fold: bool, best: nat): Option<Step>
    requires p <= |s|
  {
    if Peek(s, p, BAR) then
      match AltStep(s, p + 1, depth, fold)
      case None => None
      case Some(more) => Some(Step(MaxNat(best, more.bound), more.end, more.fold))
    else Some(Step(best, p, fold))
  }

  lemma AltUnfolds(s: bytes, p: nat, depth: nat, fold: bool)
    requires p <= |s|
    ensures match ConcatStep(s, p, depth, fold, 0)
      case None => AltStep(s, p, depth, fold) == None
      case Some(c) => c.end <= |s| && AltStep(s, p, depth, fold) == MoreBranches(s, c.end, depth, c.fold, c.bound)
  {
    hide ParseConcat, ConcatBound;
  }

  lemma MoreUnfolds(s: bytes, p: nat, depth: nat, fold: bool, best: nat)
    requires p <= |s|
    ensures !Peek(s, p, BAR) ==> MoreBranches(s, p, depth, fold, best) == Some(Step(best, p, fold))
    ensures Peek(s, p, BAR) ==>
      match AltStep(s, p + 1, depth, fold)
      case None => MoreBranches(s, p, depth, fold, best) == None
      case Some(more) => MoreBranches(s, p, depth, fold, best) == Some(Step(MaxNat(best, more.bound), more.end, more.fold))
  {
    hide AltStep;
  }

  lemma MoreIsMax(s: bytes, p: nat, depth: nat, fold: bool, a: nat, b: nat)
    requires p <= |s|
    ensures match MoreBranches(s, p, depth, fold, b)
      case None => MoreBranches(s, p, depth, fold, MaxNat(a, b)) == None
      case Some(more) => MoreBranches(s, p, depth, fold, MaxNat(a, b)) == Some(Step(MaxNat(a, more.bound), more.end, more.fold))
  {
    hide AltStep;
  }

  lemma ConcatUnfolds(s: bytes, p: nat, depth: nat, fold: bool, total: nat)
    requires p <= |s| && total <= SIZE_MAX
    ensures Stops(s, p) ==> ConcatStep(s, p, depth, fold, total) == Some(Step(total, p, fold))
    ensures !Stops(s, p) ==>
      match AtomStep(s, p, depth, fold)
      case None => ConcatStep(s, p, depth, fold, total) == None
      case Some(t) =>
        && p < t.end <= |s|
        && var q := ParseQuant(s, t.end);
        ConcatStep(s, p, depth, fold, total) == ConcatStep(s, q.end, depth, t.fold, SatAdd(total, QuantBound(t.bound, q.tree)))
  {
    hide ParseAtom, AtomBound, ParseQuant, QuantBound;
  }

  /** A group's body and the parenthesis that must follow it. */
  function Closed(s: bytes, body: Option<Step>): Option<Step> {
    match body
    case None => None
    case Some(b) => if Peek(s, b.end, RPAREN) then Some(Step(b.bound, b.end + 1, b.fold)) else None
  }

  /** One group, by what opens it. */
  lemma GroupUnfolds(s: bytes, p: nat, depth: nat, fold: bool)
    requires Peek(s, p, LPAREN)
    ensures depth >= MAX_DEPTH || ParseOpening(s, p).None? ==> AtomStep(s, p, depth, fold) == None
    ensures depth < MAX_DEPTH && ParseOpening(s, p).Some? ==>
      match ParseOpening(s, p).value
      case FlagsOnly(flags, e) => AtomStep(s, p, depth, fold) == Some(Step(0, e, fold || SetsFold(flags)))
      case Body(head, q) =>
        match AltStep(s, q, depth + 1, fold || (head.Flagged? && SetsFold(head.flags)))
        case b => AtomStep(s, p, depth, fold) == Closed(s, b)
  {
    hide ParseOpening, ParseAlt, AltBound, ParseAtom;
    GroupAtom(s, p, depth);
    if depth < MAX_DEPTH && ParseOpening(s, p).Some? {
      match ParseOpening(s, p).value
      case FlagsOnly(flags, e) => assert AtomBound(SetFlags(flags), fold) == Some((0, fold || SetsFold(flags)));
      case Body(head, q) =>
        if ParseAlt(s, q, depth + 1).Some? {
          GroupBound(head, ParseAlt(s, q, depth + 1).value.tree, fold);
        }
    }
  }

  lemma GroupBound(head: Head, body: Alt, fold: bool)
    ensures AtomBound(Group(head, body), fold) == AltBound(body, fold || (head.Flagged? && SetsFold(head.flags)))
  {
    hide AltBound;
  }

  /** The rest of a class: the widest member and where it ends. */
  function ClassRest(s: bytes, p: nat, fold: bool, widest: nat): Option<(nat, nat)>
    requires p <= |s|
  {
    match ParseItems(s, p)
    case None => None
    case Some(items) =>
      match ItemsBound(items.tree, fold)
      case None => None
      case Some(n) => Some((MaxNat(widest, n), items.end))
  }

  lemma ClassRestUnfolds(s: bytes, p: nat, fold: bool, widest: nat)
    requires p <= |s|
    ensures p >= |s| ==> ClassRest(s, p, fold, widest) == None
    ensures Peek(s, p, RBRACKET) ==> ClassRest(s, p, fold, widest) == Some((widest, p + 1))
    ensures p < |s| && s[p] != RBRACKET ==>
      match ParseItem(s, p)
      case None => ClassRest(s, p, fold, widest) == None
      case Some(i) =>
        p < i.end <= |s| &&
        match ItemBound(i.tree, fold)
        case None => ClassRest(s, p, fold, widest) == None
        case Some(n) => ClassRest(s, p, fold, widest) == ClassRest(s, i.end, fold, MaxNat(widest, n))
  {
    hide ParseItem, ItemBound;
  }

  lemma ClassUnfolds(s: bytes, p: nat, depth: nat, fold: bool)
    requires Peek(s, p, LBRACKET)
    ensures var negated := Peek(s, p + 1, CARET);
      var q := if negated then p + 2 else p + 1;
      AtomStep(s, p, depth, fold)
      == if Peek(s, q, RBRACKET) || ClassRest(s, q, fold, 0).None? then None
         else Some(Step(if negated then UTF8_MAX else Clamped(ClassRest(s, q, fold, 0).value.0), ClassRest(s, q, fold, 0).value.1, fold))
  {
    hide ItemsBound;
    var q := if Peek(s, p + 1, CARET) then p + 2 else p + 1;
    ItemsEmpty(s, q);
  }

  class BoundedLengthParser {
    const s: bytes
    var pos: nat
    var depth: nat
    var fold: bool

    constructor (pattern: bytes)
      ensures s == pattern && pos == 0 && depth == 0 && !fold
    {
      s, pos, depth, fold := pattern, 0, 0, false;
    }

    ghost predicate Did(r: Option<nat>, step: Option<Step>)
      reads this
    {
      match step
      case None => r == None
      case Some(t) => r == Some(t.bound) && pos == t.end <= |s| && fold == t.fold
    }

    /** A rune in full; the letters with wider partners count as three bytes once folding has been seen. */
    method ConsumeRuneLen() returns (n: nat)
      requires pos < |s|
      modifies this`pos
      ensures pos == RuneEnd(s, old(pos)) && n == RuneWidth(s[old(pos)..pos], fold)
    {
      var c := s[pos];
      n := 1;
      if 0xC0 <= c < 0xE0 {
        n := 2;
      } else if 0xE0 <= c < 0xF0 {
        n := 3;
      } else if 0xF0 <= c < 0xF8 {
        n := 4;
      }
      if pos + n > |s| {
        n := |s| - pos;
      }
      ghost var rune := s[pos..pos + n];
      assert rune[0] == c;
      var wide := fold && n == 1 && (IsS(c) || IsK(c));
      pos := pos + n;
      return if wide then 3 else n;
    }

    method SkipUntil(b: byte)
      requires pos <= |s|
      modifies this`pos
      ensures pos == Until(s, old(pos), b)
    {
      while pos < |s| && s[pos] != b
        invariant pos <= |s|
        invariant Until(s, pos, b) == Until(s, old(pos), b)
        decreases |s| - pos
      {
        pos := pos + 1;
      }
    }

    method SkipDigits()
      requires pos <= |s|
      modifies this`pos
      ensures pos == DigitsFrom(s, old(pos))
    {
      while pos < |s| && IsDigit(s[pos])
        invariant pos <= |s|
        invariant DigitsFrom(s, pos) == DigitsFrom(s, old(pos))
        decreases |s| - pos
      {
        pos := pos + 1;
      }
    }

    method SkipLazyMarker()
      requires pos <= |s|
      modifies this`pos
      ensures pos == LazyEnd(s, old(pos)) <= |s|
    {
      if pos < |s| && s[pos] == QUESTION {
        pos := pos + 1;
      }
    }

    method ParseAlternation() returns (r: Option<nat>)
      requires pos <= |s|
      modifies this
      ensures pos <= |s| && depth == old(depth)
      ensures Did(r, AltStep(s, old(pos), old(depth), old(fold)))
      decreases |s| - pos, 4
    {
      hide AltStep, ConcatStep, MoreBranches;
      AltUnfolds(s, pos, depth, fold);
      ghost var p0, d0, f0 := pos, depth, fold;
      r := this.ParseConcat();
      if r.None? {
        return;
      }
      var best := r.value;
      while pos < |s| && s[pos] == BAR
        invariant p0 <= pos <= |s| && depth == d0 && 0 <= best
        invariant AltStep(s, p0, d0, f0) == MoreBranches(s, pos, d0, fold, best)
        decreases |s| - pos
      {
        MoreUnfolds(s, pos, depth, fold, best);
        pos := pos + 1;
        AltUnfolds(s, pos, depth, fold);
        var next := this.ParseConcat();
        if next.None? {
          return None;
        }
        MoreIsMax(s, pos, depth, fold, best, next.value);
        MaxSymmetric(best, next.value);
        if next.value > best {
          best := next.value;
        }
      }
      MoreUnfolds(s, pos, depth, fold, best);
      return Some(best);
    }

    method ParseConcat() returns (r: Option<nat>)
      requires pos <= |s|
      modifies this
      ensures pos <= |s| && depth == old(depth)
      ensures Did(r, ConcatStep(s, old(pos), old(depth), old(fold), 0))
      ensures r.Some? ==> old(pos) <= pos && r.value <= SIZE_MAX
      decreases |s| - pos, 3
    {
      hide ConcatStep, AtomStep, ParseQuant, QuantBound;
      ghost var p0, d0, f0 := pos, depth, fold;
      var total := 0;
      while pos < |s| && s[pos] != BAR && s[pos] != RPAREN
        invariant p0 <= pos <= |s| && depth == d0 && 0 <= total <= SIZE_MAX
        invariant ConcatStep(s, p0, d0, f0, 0) == ConcatStep(s, pos, d0, fold, total)
        decreases |s| - pos
      {
        ConcatUnfolds(s, pos, depth, fold, total);
        var atom := this.ParseAtom();
        if atom.None? {
          return None;
        }
        var piece := this.ParseQuantifier(atom.value);
        total := SatAdd(total, piece);
      }
      ConcatUnfolds(s, pos, depth, fold, total);
      return Some(total);
    }

    method ParseQuantifier(atom: nat) returns (r: nat)
      requires pos <= |s| && atom <= SIZE_MAX
      modifies this`pos
      ensures var q := ParseQuant(s, old(pos)); pos == q.end <= |s| && old(pos) <= pos && r == QuantBound(atom, q.tree)
    {
      hide ParseBraces;
      if pos >= |s| {
        return atom;
      }
      var c := s[pos];
      if c == STAR || c == PLUS {
        pos := pos + 1;
        SkipLazyMarker();
        return if atom == 0 then 0 else SIZE_MAX;
      }
      if c == QUESTION {
        pos := pos + 1;
        SkipLazyMarker();
        return atom;
      }
      if c == LBRACE {
        r := ParseBraceQuantifier(atom);
        return;
      }
      return atom;
    }

    method ParseBraceQuantifier(atom: nat) returns (r: nat)
      requires pos < |s| && s[pos] == LBRACE && atom <= SIZE_MAX
      modifies this`pos
      ensures var q := ParseBraces(s, old(pos)); pos == q.end <= |s| && old(pos) <= pos && r == QuantBound(atom, q.tree)
    {
      hide DigitsFrom, RepeatCount, ParseBraces, SatMul;
      var save := pos;
      pos := pos + 1;
      SkipDigits();
      var afterMin := pos;
      var minDigits := s[save + 1..afterMin];
      var comma := pos < |s| && s[pos] == COMMA;
      if comma {
        pos := pos + 1;
      }
      var beforeMax := pos;
      SkipDigits();
      var maxDigits := s[beforeMax..pos];
      BraceCases(s, save, afterMin, comma, pos);
      if minDigits == [] || !(pos < |s| && s[pos] == RBRACE) {
        pos := save;
        return atom;
      }
      pos := pos + 1;
      SkipLazyMarker();
      if !comma {
        var count := CountOf(minDigits);
        return SatMul(count, atom);
      }
      if maxDigits == [] {
        return if atom == 0 then 0 else SIZE_MAX;
      }
      var count := CountOf(maxDigits);
      return SatMul(count, atom);
    }

    method ParseAtom() returns (r: Option<nat>)
      requires pos <= |s|
      modifies this
      ensures pos <= |s| && depth == old(depth)
      ensures Did(r, AtomStep(s, old(pos), old(depth), old(fold)))
      ensures r.Some? ==> old(pos) < pos && r.value <= SIZE_MAX
      decreases |s| - pos, 2
    {
      hide ParseEscape, ParseClass, RegexParse.ParseGroup, EscapeBound, ParseOpening, AltBound, ItemsBound, RuneEnd, RuneWidth;
      if pos >= |s| {
        return None;
      }
      var c := s[pos];
      if c == LPAREN {
        hide AtomStep;
        r := this.ParseGroup();
        return;
      }
      if c == LBRACKET {
        hide AtomStep;
        r := this.ParseCharClass();
        return;
      }
      if c == BACKSLASH {
        EscapeFits(s, pos, fold);
        r := this.ParseEscapeHere();
        return;
      }
      if c == CARET || c == DOLLAR {
        pos := pos + 1;
        return Some(0);
      }
      if c == DOT {
        pos := pos + 1;
        return Some(UTF8_MAX);
      }
      if c == BAR || c == RPAREN || c == STAR || c == PLUS || c == QUESTION || c == LBRACE || c == RBRACE || c == RBRACKET {
        return None;
      }
      RuneFits(s, pos, fold);
      var n := ConsumeRuneLen();
      return Some(n);
    }

    method ParseGroup() returns (r: Option<nat>)
      requires pos < |s| && s[pos] == LPAREN
      modifies this
      ensures pos <= |s| && depth == old(depth)
      ensures Did(r, AtomStep(s, old(pos), old(depth), old(fold)))
      ensures r.Some? ==> old(pos) < pos && r.value <= SIZE_MAX
      decreases |s| - pos, 1
    {
      hide AtomStep;
      if depth >= MAX_DEPTH {
        GroupUnfolds(s, pos, depth, fold);
        return None;
      }
      depth := depth + 1;
      pos := pos + 1;
      r := this.ParseOpened();
      depth := depth - 1;
    }

    /** A group past its parenthesis: its head decides what is read. */
    method ParseOpened() returns (r: Option<nat>)
      requires 0 < pos <= |s| && s[pos - 1] == LPAREN && 0 < depth <= MAX_DEPTH
      modifies this
      ensures pos <= |s| && depth == old(depth)
      ensures Did(r, AtomStep(s, old(pos) - 1, old(depth) - 1, old(fold)))
      ensures r.Some? ==> old(pos) <= pos
      decreases |s| - pos, 6
    {
      hide AtomStep, AltStep, FlagsFrom, Until, ParseOpening, SetsFold, Closed;
      GroupUnfolds(s, pos - 1, depth - 1, fold);
      OpeningCases(s, pos - 1);
      if !(pos < |s| && s[pos] == QUESTION) {
        r := this.ParseBody();
        return;
      }
      if pos + 1 < |s| && s[pos + 1] == COLON {
        pos := pos + 2;
        r := this.ParseBody();
        return;
      }
      if pos + 1 < |s| && s[pos + 1] == LETTER_P && pos + 2 < |s| && s[pos + 2] == LESS {
        pos := pos + 3;
        SkipUntil(GREATER);
        if pos >= |s| {
          return None;
        }
        pos := pos + 1;
        r := this.ParseBody();
        return;
      }
      pos := pos + 1;
      r := this.ParseFlags();
    }

    /** `(?` past the question mark, when flags must follow: flags alone, or a group with flags. */
    method ParseFlags() returns (r: Option<nat>)
      requires 1 < pos <= |s| && s[pos - 2] == LPAREN && s[pos - 1] == QUESTION && 0 < depth <= MAX_DEPTH
      requires !Peek(s, pos, COLON) && !(Peek(s, pos, LETTER_P) && Peek(s, pos + 1, LESS))
      modifies this
      ensures pos <= |s| && depth == old(depth)
      ensures Did(r, AtomStep(s, old(pos) - 2, old(depth) - 1, old(fold)))
      ensures r.Some? ==> old(pos) <= pos
      decreases |s| - pos, 6
    {
      hide AtomStep, AltStep, FlagsFrom, Until, ParseOpening, SetsFold, Closed;
      GroupUnfolds(s, pos - 2, depth - 1, fold);
      OpeningCases(s, pos - 2);
      var from := pos;
      ReadFlags();
      if pos > from && pos < |s| && s[pos] == RPAREN {
        pos := pos + 1;
        return Some(0);
      }
      if pos > from && pos < |s| && s[pos] == COLON {
        pos := pos + 1;
        r := this.ParseBody();
        return;
      }
      return None;
    }

    /** The letters of a flag list; an `i` anywhere sets the folding flag. */
    method ReadFlags()
      requires pos <= |s|
      modifies this`pos, this`fold
      ensures pos == FlagsFrom(s, old(pos)) && old(pos) <= pos <= |s|
      ensures fold == (old(fold) || SetsFold(s[old(pos)..pos]))
    {
      var start := pos;
      while pos < |s| && (IsFlag(s[pos]) || s[pos] == MINUS)
        invariant start <= pos <= |s|
        invariant FlagsFrom(s, pos) == FlagsFrom(s, start)
        invariant fold == (old(fold) || SetsFold(s[start..pos]))
        decreases |s| - pos
      {
        assert s[start..pos + 1] == s[start..pos] + [s[pos]];
        if s[pos] == LETTER_I {
          fold := true;
        }
        pos := pos + 1;
      }
    }

    /** The alternation inside a group and its closing parenthesis. */
    method ParseBody() returns (r: Option<nat>)
      requires pos <= |s| && depth > 0
      modifies this
      ensures pos <= |s| && depth == old(depth)
      ensures Did(r, Closed(s, AltStep(s, old(pos), old(depth), old(fold))))
      ensures r.Some? ==> old(pos) < pos
      decreases |s| - pos, 5
    {
      hide AltStep;
      AltStepGrows(s, pos, depth, fold);
      r := this.ParseAlternation();
      if r.None? {
        return;
      }
      if !(pos < |s| && s[pos] == RPAREN) {
        return None;
      }
      pos := pos + 1;
    }

    method ParseMember() returns (r: Option<nat>)
      requires pos < |s|
      modifies this`pos
      ensures pos <= |s|
      ensures match ParseMem(s, old(pos))
        case None => r == None
        case Some(m) => r == MemBound(m.tree, fold) && (r.Some? ==> pos == m.end)
    {
      hide RuneEnd, ParseEscape, EscapeBound, RuneWidth;
      if s[pos] == BACKSLASH {
        r := this.ParseEscapeHere();
        return;
      }
      var n := ConsumeRuneLen();
      return Some(n);
    }

    /** One member of a class, or a range of two, of which the wider counts. */
    method ParseItemHere() returns (r: Option<nat>)
      requires pos < |s|
      modifies this`pos
      ensures pos <= |s|
      ensures match ParseItem(s, old(pos))
        case None => r == None
        case Some(i) => r == ItemBound(i.tree, fold) && (r.Some? ==> pos == i.end)
    {
      hide ParseMem, MemBound, ParseItem;
      ItemByMembers(s, pos);
      r := this.ParseMember();
      if r.None? {
        return;
      }
      if pos < |s| && s[pos] == MINUS && pos + 1 < |s| && s[pos + 1] != RBRACKET {
        pos := pos + 1;
        var hi := this.ParseMember();
        if hi.None? {
          return None;
        }
        if hi.value > r.value {
          r := hi;
        }
      }
    }

    method ParseCharClass() returns (r: Option<nat>)
      requires pos < |s| && s[pos] == LBRACKET
      modifies this`pos
      ensures pos <= |s|
      ensures Did(r, AtomStep(s, old(pos), old(depth), old(fold)))
      ensures r.Some? ==> old(pos) < pos && r.value <= SIZE_MAX
    {
      hide AtomStep, ClassRest, ParseItem, ItemBound;
      ClassUnfolds(s, pos, depth, fold);
      ghost var p0 := pos;
      pos := pos + 1;
      var negated := false;
      if pos < |s| && s[pos] == CARET {
        negated := true;
        pos := pos + 1;
      }
      ghost var first := pos;
      var widest := 0;
      var anyMember := false;
      while true
        invariant p0 < first <= pos <= |s| && 0 <= widest
        invariant anyMember <==> pos > first
        invariant anyMember ==> !Peek(s, first, RBRACKET)
        invariant ClassRest(s, first, fold, 0) == ClassRest(s, pos, fold, widest)
        decreases |s| - pos
      {
        ClassRestUnfolds(s, pos, fold, widest);
        if pos >= |s| {
          return None;
        }
        if s[pos] == RBRACKET {
          pos := pos + 1;
          break;
        }
        anyMember := true;
        var member := this.ParseItemHere();
        if member.None? {
          return None;
        }
        if member.value > widest {
          widest := member.value;
        }
      }
      if !anyMember {
        return None;
      }
      return Some(if negated then UTF8_MAX else Clamped(widest));
    }

    method ParseEscapeHere() returns (r: Option<nat>)
      requires pos < |s| && s[pos] == BACKSLASH
      modifies this`pos
      ensures pos <= |s|
      ensures Did(r, EscapeStep(s, old(pos), fold))
      ensures r.Some? ==> old(pos) < pos
    {
      hide RuneEnd, Until, HexEnd, OctalEnd, RuneWidth;
      EscapeKinds(s, pos);
      pos := pos + 1;
      if pos >= |s| {
        return None;
      }
      var c := s[pos];
      if c == 0x64 || c == 0x73 || c == 0x77 {
        pos := pos + 1;
        return Some(1);
      }
      if c == 0x44 || c == 0x53 || c == 0x57 {
        pos := pos + 1;
        return Some(UTF8_MAX);
      }
      if IsZeroWidth(c) {
        pos := pos + 1;
        return Some(0);
      }
      if IsControl(c) {
        pos := pos + 1;
        return Some(1);
      }
      if c == 0x70 || c == 0x50 || c == 0x78 || IsOctalDigit(c) {
        return None;
      }
      var n := ConsumeRuneLen();
      return Some(n);
    }

    method Run() returns (n: nat)
      requires pos == 0 && depth == 0 && !fold
      modifies this
      ensures n == RegexMaxLen(s)
    {
      hide ParseAlt, AltBound;
      var r := ParseAlternation();
      if r.None? || pos != |s| {
        return SIZE_MAX;
      }
      return r.value;
    }
  }

  // ---- What the methods use ----

  lemma MaxSymmetric(a: nat, b: nat)
    ensures MaxNat(a, b) == if b > a then b else a
  {
  }

  lemma AltStepGrows(s: bytes, p: nat, depth: nat, fold: bool)
    requires p <= |s|
    ensures AltStep(s, p, depth, fold).Some? ==> p <= AltStep(s, p, depth, fold).value.end <= |s|
  {
    hide AltBound;
  }

  method CountOf(digits: bytes) returns (v: nat)
    ensures v == RepeatCount(digits)
  {
    hide SatMul;
    v := 0;
    for i := 0 to |digits|
      invariant v == RepeatCount(digits[..i])
    {
      assert digits[..i + 1][..i] == digits[..i];
      v := SatAdd(SatMul(v, 10), Digit(digits[i]));
    }
    assert digits[..|digits|] == digits;
  }

  lemma RuneFits(s: bytes, p: nat, fold: bool)
    requires p < |s|
    ensures RuneWidth(s[p..RuneEnd(s, p)], fold) <= SIZE_MAX
  {
  }

  lemma EscapeFits(s: bytes, p: nat, fold: bool)
    requires p < |s|
    ensures EscapeStep(s, p, fold).Some? ==> EscapeStep(s, p, fold).value.bound <= SIZE_MAX
    ensures ParseEscape(s, p).Some? && EscapeBound(ParseEscape(s, p).value.tree, fold).Some? ==>
      EscapeBound(ParseEscape(s, p).value.tree, fold).value <= SIZE_MAX
  {
  }

  /** The escapes without a bound. */
  lemma EscapeKinds(s: bytes, p: nat)
    requires p < |s|
    ensures p + 1 < |s| && (s[p + 1] == 0x70 || s[p + 1] == 0x50 || s[p + 1] == 0x78 || IsOctalDigit(s[p + 1])) ==>
      forall fold :: EscapeStep(s, p, fold) == None
  {
  }

  /** regex_max_len. */
  method RegexMaxLength(pattern: bytes) returns (n: nat)
    ensures n == RegexMaxLen(pattern)
  {
    var parser := new BoundedLengthParser(pattern);
    n := parser.Run();
  }
}
