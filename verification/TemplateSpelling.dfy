/**
 What the tolerant recogniser is for: the tokens of a placeholder name are its runs
 between underscores, and every drifted spelling of `<NAME_N>` is recognised, the
 rendered placeholder itself among them.
 */
module TemplateSpelling {
  import opened Bytes
  import opened Runes
  import opened RegexSyntax
  import opened RegexLang
  import opened PlaceholderTemplate
  import FoldBound
  import Placeholders

  // ---- Splitting a name ----

  predicate AllUnderscores(s: bytes) {
    forall b <- s :: b == UNDERSCORE
  }

  /** The gaps and the tokens in turn, beginning with the first gap. */
  function Interleaved(gaps: seq<bytes>, tokens: seq<bytes>): bytes
    requires |gaps| == |tokens| + 1
  {
    if tokens == [] then gaps[0] else gaps[0] + tokens[0] + Interleaved(gaps[1..], tokens[1..])
  }

  /** The name taken apart: runs of underscores, none of them empty between two tokens, around tokens without any. */
  predicate SplitsAs(name: bytes, gaps: seq<bytes>, tokens: seq<bytes>) {
    && |gaps| == |tokens| + 1 && name == Interleaved(gaps, tokens)
    && (forall g <- gaps :: AllUnderscores(g))
    && (forall k | 0 < k < |tokens| :: gaps[k] != [])
    && (forall t <- tokens :: t != [] && UNDERSCORE !in t)
  }

  /** The fields of a name are its runs between underscores; a run being read is the beginning of the first. */
  lemma {:induction false} FieldsSplit(name: bytes, current: bytes) returns (gaps: seq<bytes>)
    requires UNDERSCORE !in current
    ensures SplitsAs(current + name, gaps, Fields(name, current)) && (current != [] ==> gaps[0] == [])
    decreases |name|
  {
    hide SplitsAs, Fields;
    FieldsUnfold(name, current);
    if name == [] {
      gaps := EndSplits(current);
    } else if name[0] == UNDERSCORE {
      var more := FieldsSplit(name[1..], []);
      gaps := GapSplits(name, current, more, Fields(name[1..], []));
    } else {
      assert current + [name[0]] + name[1..] == current + name;
      gaps := FieldsSplit(name[1..], current + [name[0]]);
    }
  }

  lemma FieldsUnfold(name: bytes, current: bytes)
    ensures name == [] ==> Fields(name, current) == Field(current)
    ensures name != [] && name[0] == UNDERSCORE ==> Fields(name, current) == Field(current) + Fields(name[1..], [])
    ensures name != [] && name[0] != UNDERSCORE ==> Fields(name, current) == Fields(name[1..], current + [name[0]])
  {
  }

  lemma EndSplits(current: bytes) returns (gaps: seq<bytes>)
    requires UNDERSCORE !in current
    ensures SplitsAs(current + [], gaps, Field(current)) && (current != [] ==> gaps[0] == [])
  {
    if current == [] {
      gaps := [[]];
    } else {
      gaps := [[], []];
      assert gaps[1..] == [[]] && [current][1..] == [];
      assert [] + current + [] == current + [];
    }
  }

  lemma WiderGap(rest: bytes, more: seq<bytes>, fields: seq<bytes>) returns (gaps: seq<bytes>)
    requires SplitsAs(rest, more, fields)
    ensures SplitsAs([UNDERSCORE] + rest, gaps, fields) && gaps[0] != []
  {
    gaps := more[0 := [UNDERSCORE] + more[0]];
    assert gaps[1..] == more[1..];
    forall g <- gaps ensures AllUnderscores(g) {
      var k :| 0 <= k < |gaps| && gaps[k] == g;
      assert more[k] in more;
    }
    if fields == [] {
      assert Interleaved(gaps, fields) == [UNDERSCORE] + more[0];
    } else {
      var tail := Interleaved(more[1..], fields[1..]);
      assert [UNDERSCORE] + (more[0] + fields[0] + tail) == [UNDERSCORE] + more[0] + fields[0] + tail;
    }
  }

  lemma OneMoreToken(name: bytes, t: bytes, more: seq<bytes>, fields: seq<bytes>) returns (gaps: seq<bytes>)
    requires SplitsAs(name, more, fields) && more[0] != [] && t != [] && UNDERSCORE !in t
    ensures SplitsAs(t + name, gaps, [t] + fields) && gaps[0] == []
  {
    gaps := [[]] + more;
    assert gaps[1..] == more && ([t] + fields)[1..] == fields;
    assert [] + t + name == t + name;
    forall k | 0 < k < |[t] + fields| ensures gaps[k] != [] {
      assert gaps[k] == more[k - 1];
    }
    assert AllUnderscores([]);
    assert forall g <- gaps :: g == [] || g in more;
    assert forall x <- [t] + fields :: x == t || x in fields;
  }

  /** An underscore ends the run being read and widens the gap after it. */
  lemma GapSplits(name: bytes, current: bytes, more: seq<bytes>, fields: seq<bytes>) returns (gaps: seq<bytes>)
    requires UNDERSCORE !in current && name != [] && name[0] == UNDERSCORE && SplitsAs([] + name[1..], more, fields)
    ensures SplitsAs(current + name, gaps, Field(current) + fields) && (current != [] ==> gaps[0] == [])
  {
    gaps := WiderGap(name[1..], more, fields);
    assert [UNDERSCORE] + name[1..] == name;
    if current == [] {
      assert Field(current) + fields == fields;
      assert current + name == name;
    } else {
      gaps := OneMoreToken(name, current, gaps, fields);
    }
  }

  /** The tokens of a name that is not all underscores are exactly its runs between underscores; any other name is its own token. */
  lemma TokensSplit(name: bytes) returns (gaps: seq<bytes>)
    ensures AllUnderscores(name) ==> Tokens(name) == [name]
    ensures !AllUnderscores(name) ==> SplitsAs(name, gaps, Tokens(name))
  {
    hide Fields;
    gaps := FieldsSplit(name, []);
    assert [] + name == name;
    var fields := Fields(name, []);
    if fields != [] {
      assert fields[0] in fields;
      assert fields[0][0] in fields[0];
      assert name[|gaps[0]|] in name;
      assert name[|gaps[0]|] == fields[0][0] != UNDERSCORE;
    } else {
      assert gaps[0] in gaps;
    }
  }

  // ---- Spellings ----

  /** A white-space byte of `\s`. */
  predicate IsSpace(b: byte) {
    b == TAB || b == LF || b == 0x0C || b == CR || b == SPACE
  }

  predicate IsJoint(b: byte) {
    IsSpace(b) || b == UNDERSCORE || b == MINUS
  }

  /** At most three white-space bytes. */
  predicate IsGap(s: bytes) {
    |s| <= 3 && forall b <- s :: IsSpace(b)
  }

  /** At most three bytes of white space, underscore or hyphen. */
  predicate IsSeparator(s: bytes) {
    |s| <= 3 && forall b <- s :: IsJoint(b)
  }

  /** One to nine digits. */
  predicate IsIndex(s: bytes) {
    1 <= |s| <= 9 && forall b <- s :: IsDigit(b)
  }

  /** Every token and the separator after it. */
  function Joined(tokens: seq<bytes>, seps: seq<bytes>): bytes
    requires |seps| == |tokens|
  {
    if tokens == [] then [] else tokens[0] + (seps[0] + Joined(tokens[1..], seps[1..]))
  }

  /** `<`, the tokens with separators, the index, `>`, with white space inside the brackets. */
  function Spelling(tokens: seq<bytes>, before: bytes, seps: seq<bytes>, index: bytes, after: bytes): bytes
    requires |seps| == |tokens|
  {
    [LESS] + (before + (Joined(tokens, seps) + (index + (after + [GREATER]))))
  }

  // ---- Pieces of the template ----

  lemma {:induction false} BytesAreCopies(eq: Fold, a: Atom, s: bytes)
    requires forall b <- s :: AtomMatches(eq, true, a, [b])
    ensures CopiesMatch(eq, true, a, |s|, s)
    decreases |s|
  {
    hide AtomMatches;
    if s != [] {
      assert s[0] in s && forall b <- s[1..] :: b in s;
      BytesAreCopies(eq, a, s[1..]);
      assert s == [s[0]] + s[1..];
    }
  }

  lemma AsciiMatchesItself(eq: Fold, b: byte)
    requires GoodFold(eq) && b <= 0x7F
    ensures IsRune([b]) && CodePoint([b]) == b as int && RuneMatches(eq, true, [b], [b])
  {
  }

  lemma SpaceMatches(eq: Fold, b: byte)
    requires GoodFold(eq) && IsSpace(b)
    ensures AtomMatches(eq, true, GAP, [b]) && EscapeMatches(eq, true, Perl(0x73), [b])
  {
    hide GoodFold;
    AsciiMatchesItself(eq, b);
    assert PerlHas(0x73, b);
    assert PerlMatches(eq, true, 0x73, [b]);
  }

  lemma JointMatches(eq: Fold, b: byte)
    requires GoodFold(eq) && IsJoint(b)
    ensures AtomMatches(eq, true, JOINT, [b])
  {
    hide GoodFold, EscapeMatches, RuneMatches;
    AsciiMatchesItself(eq, b);
    var item := if IsSpace(b) then JOINT.items[0] else if b == UNDERSCORE then JOINT.items[1] else JOINT.items[2];
    if IsSpace(b) {
      SpaceMatches(eq, b);
    }
    assert ItemMatches(eq, true, item, [b]) && item in JOINT.items;
  }

  lemma DigitMatches(eq: Fold, b: byte)
    requires GoodFold(eq) && IsDigit(b)
    ensures AtomMatches(eq, true, DIGITS, [b])
  {
    hide GoodFold, RuneMatches, CodePoint, IsRune;
    AsciiMatchesItself(eq, b);
    AsciiMatchesItself(eq, ZERO);
    AsciiMatchesItself(eq, NINE);
    var item := DIGITS.items[0];
    assert Between([ZERO], [b], [NINE]);
    assert ItemMatches(eq, true, item, [b]) && item in DIGITS.items;
  }

  lemma Counts(k: nat)
    ensures Allowed(DRIFT, k) <==> k <= 3
    ensures Allowed(INDEX, k) <==> 1 <= k <= 9
  {
    assert Value([]) == 0;
    assert [0x30 as byte][..0] == [] && [0x31 as byte][..0] == [] && [0x33 as byte][..0] == [] && [0x39 as byte][..0] == [];
    assert Value([0x30]) == 0 && Value([0x31]) == 1 && Value([0x33]) == 3 && Value([0x39]) == 9;
  }

  lemma GapMatches(eq: Fold, s: bytes)
    requires GoodFold(eq) && IsGap(s)
    ensures PieceMatches(eq, true, GAP, DRIFT, s)
  {
    hide GoodFold, AtomMatches, Allowed, CopiesMatch;
    forall b <- s ensures AtomMatches(eq, true, GAP, [b]) {
      SpaceMatches(eq, b);
    }
    BytesAreCopies(eq, GAP, s);
    Counts(|s|);
  }

  lemma SeparatorMatches(eq: Fold, s: bytes)
    requires GoodFold(eq) && IsSeparator(s)
    ensures PieceMatches(eq, true, JOINT, DRIFT, s)
  {
    hide GoodFold, AtomMatches, Allowed, CopiesMatch;
    forall b <- s ensures AtomMatches(eq, true, JOINT, [b]) {
      JointMatches(eq, b);
    }
    BytesAreCopies(eq, JOINT, s);
    Counts(|s|);
  }

  lemma IndexMatches(eq: Fold, s: bytes)
    requires GoodFold(eq) && IsIndex(s)
    ensures PieceMatches(eq, true, DIGITS, INDEX, s)
  {
    hide GoodFold, AtomMatches, Allowed, CopiesMatch;
    forall b <- s ensures AtomMatches(eq, true, DIGITS, [b]) {
      DigitMatches(eq, b);
    }
    BytesAreCopies(eq, DIGITS, s);
    Counts(|s|);
  }

  /** One more piece in front, where the flags stay as they are. */
  lemma PieceThen(eq: Fold, a: Atom, q: Quant, rest: Concat, u: bytes, v: bytes)
    requires PieceMatches(eq, true, a, q, u) && ConcatMatches(eq, true, rest, v) && !a.SetFlags?
    ensures ConcatMatches(eq, true, Cons(a, q, rest), u + v)
  {
    hide PieceMatches;
  }

  lemma OneThen(eq: Fold, a: Atom, w: bytes, rest: Concat, v: bytes)
    requires AtomMatches(eq, true, a, w) && ConcatMatches(eq, true, rest, v) && !a.SetFlags?
    ensures ConcatMatches(eq, true, Cons(a, Once, rest), w + v)
  {
    hide AtomMatches, ConcatMatches, PieceMatches;
    FoldBound.OneCopyMatches(eq, true, a, w);
    PieceThen(eq, a, Once, rest, w, v);
  }

  lemma CharMatches(eq: Fold, b: byte)
    requires GoodFold(eq) && b <= 0x7F
    ensures AtomMatches(eq, true, CharAtom(b), [b]) && AtomMatches(eq, true, Lit([b]), [b])
  {
    hide GoodFold, RuneMatches;
    AsciiMatchesItself(eq, b);
  }

  lemma {:induction false} TokenThen(eq: Fold, t: bytes, rest: Concat, v: bytes)
    requires GoodFold(eq) && IsPlainName(t) && ConcatMatches(eq, true, rest, v)
    ensures ConcatMatches(eq, true, TokenConcat(t, rest), t + v)
    decreases |t|
  {
    hide GoodFold, ConcatMatches, AtomMatches, CharAtom;
    if t == [] {
      assert t + v == v;
    } else {
      assert t[0] in t && forall b <- t[1..] :: b in t;
      TokenThen(eq, t[1..], rest, v);
      CharMatches(eq, t[0]);
      IsCharAtom(t[0]);
      OneThen(eq, CharAtom(t[0]), [t[0]], TokenConcat(t[1..], rest), t[1..] + v);
      assert [t[0]] + (t[1..] + v) == t + v;
    }
  }

  lemma {:induction false} TokensThen(eq: Fold, tokens: seq<bytes>, seps: seq<bytes>, rest: Concat, v: bytes)
    requires GoodFold(eq) && |seps| == |tokens| && (forall t <- tokens :: IsPlainName(t)) && (forall s <- seps :: IsSeparator(s))
    requires ConcatMatches(eq, true, rest, v)
    ensures ConcatMatches(eq, true, TokensConcat(tokens, rest), Joined(tokens, seps) + v)
    decreases |tokens|
  {
    hide GoodFold, ConcatMatches, IsPlainName, IsSeparator, TokenConcat, PieceMatches;
    if tokens == [] {
      assert [] + v == v;
    } else {
      assert tokens[0] in tokens && forall t <- tokens[1..] :: t in tokens;
      assert seps[0] in seps && forall s <- seps[1..] :: s in seps;
      var more := Joined(tokens[1..], seps[1..]);
      TokensThen(eq, tokens[1..], seps[1..], rest, v);
      SeparatorMatches(eq, seps[0]);
      PieceThen(eq, JOINT, DRIFT, TokensConcat(tokens[1..], rest), seps[0], more + v);
      TokenThen(eq, tokens[0], Cons(JOINT, DRIFT, TokensConcat(tokens[1..], rest)), seps[0] + (more + v));
      Join3(seps[0], more, v);
      Join3(tokens[0], seps[0] + more, v);
    }
  }

  lemma IsCharAtom(b: byte)
    ensures !CharAtom(b).SetFlags?
  {
  }

  lemma TailMatches(eq: Fold, index: bytes, after: bytes)
    requires GoodFold(eq) && IsIndex(index) && IsGap(after)
    ensures ConcatMatches(eq, true, TAIL, index + (after + [GREATER]))
  {
    hide GoodFold, PieceMatches, RuneMatches, IsIndex, IsGap, ConcatMatches;
    NothingMatches(eq);
    IndexMatches(eq, index);
    PieceThen(eq, DIGITS, INDEX, Empty, index, []);
    assert index + [] == index;
    CharMatches(eq, GREATER);
    OneThen(eq, Lit([GREATER]), [GREATER], Empty, []);
    assert [GREATER] + [] == [GREATER];
    GapMatches(eq, after);
    var close := Cons(Lit([GREATER]), Once, Empty);
    PieceThen(eq, GAP, DRIFT, close, after, [GREATER]);
    OneThen(eq, Group(Capturing, NUMBER_BODY), index, Cons(GAP, DRIFT, close), after + [GREATER]);
  }

  lemma NothingMatches(eq: Fold)
    ensures ConcatMatches(eq, true, Empty, [])
  {
  }

  // ---- The results ----

  /** Every drifted spelling of a name is recognised, whatever the separators, the white space and the index. */
  lemma SpellingIsRecognised(eq: Fold, name: bytes, before: bytes, seps: seq<bytes>, index: bytes, after: bytes)
    requires GoodFold(eq) && IsPlainName(name) && |seps| == |Tokens(name)|
    requires IsGap(before) && (forall s <- seps :: IsSeparator(s)) && IsIndex(index) && IsGap(after)
    ensures Matches(eq, Tree(name), Spelling(Tokens(name), before, seps, index, after))
  {
    hide GoodFold, IsGap, IsSeparator, IsIndex, IsPlainName, Tokens, ConcatMatches, PieceMatches, AtomMatches, TokensConcat, Joined;
    var tokens := Tokens(name);
    var tail := index + (after + [GREATER]);
    TailMatches(eq, index, after);
    assert forall t <- tokens :: IsPlainName(t) by { TokensFit(name); }
    TokensThen(eq, tokens, seps, TAIL, tail);
    var inner := TokensConcat(tokens, TAIL);
    GapMatches(eq, before);
    PieceThen(eq, GAP, DRIFT, inner, before, Joined(tokens, seps) + tail);
    CharMatches(eq, LESS);
    var rest := Cons(Lit([LESS]), Once, Cons(GAP, DRIFT, inner));
    var w := Spelling(tokens, before, seps, index, after);
    OneThen(eq, Lit([LESS]), [LESS], Cons(GAP, DRIFT, inner), before + (Joined(tokens, seps) + tail));
    FoldingMatches(eq, rest, w);
  }

  /** The folding flag in front matches nothing and turns folding on. */
  lemma FoldingMatches(eq: Fold, rest: Concat, w: bytes)
    requires ConcatMatches(eq, true, rest, w)
    ensures ConcatMatches(eq, false, Cons(SetFlags([LETTER_I]), Once, rest), w)
  {
    hide PieceMatches, AtomFold;
    FoldBound.FlagsMatch(eq);
    assert [] + w == w;
  }

  // ---- The placeholder itself ----

  lemma {:induction false} InterleavedIsJoined(gaps: seq<bytes>, tokens: seq<bytes>)
    requires |gaps| == |tokens| + 1
    ensures Interleaved(gaps, tokens) == gaps[0] + Joined(tokens, gaps[1..])
    decreases |tokens|
  {
    if tokens == [] {
      assert gaps[0] + [] == gaps[0];
    } else {
      InterleavedIsJoined(gaps[1..], tokens[1..]);
      var more := Joined(tokens[1..], gaps[1..][1..]);
      Join3(gaps[0], tokens[0], gaps[1] + more);
    }
  }

  /** The separators of the rendered placeholder: the gaps of the name, and the underscore after the last. */
  function RenderedSeps(gaps: seq<bytes>): (r: seq<bytes>)
    requires gaps != []
    ensures |r| == |gaps|
  {
    gaps[..|gaps| - 1] + [gaps[|gaps| - 1] + [UNDERSCORE]]
  }

  lemma {:induction false} JoinedWithUnderscore(tokens: seq<bytes>, seps: seq<bytes>)
    requires |seps| == |tokens| > 0
    ensures Joined(tokens, RenderedSeps(seps)) == Joined(tokens, seps) + [UNDERSCORE]
    decreases |tokens|
  {
    var now := RenderedSeps(seps);
    if |tokens| == 1 {
      assert tokens[1..] == [] && seps[1..] == [] && now[1..] == [];
      assert tokens[0] + (seps[0] + [UNDERSCORE] + []) == tokens[0] + (seps[0] + []) + [UNDERSCORE];
    } else {
      JoinedWithUnderscore(tokens[1..], seps[1..]);
      assert now[1..] == RenderedSeps(seps[1..]) && now[0] == seps[0];
      var more := Joined(tokens[1..], seps[1..]);
      assert tokens[0] + (seps[0] + (more + [UNDERSCORE])) == tokens[0] + (seps[0] + more) + [UNDERSCORE];
    }
  }

  /** No gap of a name is wider than a separator, with room for one more underscore after the last token. */
  predicate GapsFit(gaps: seq<bytes>) {
    |gaps| >= 2 && gaps[0] == [] && |gaps[|gaps| - 1]| <= 2 && forall g <- gaps :: |g| <= 3
  }

  lemma RenderedSepsAreSeparators(gaps: seq<bytes>)
    requires GapsFit(gaps) && forall g <- gaps :: AllUnderscores(g)
    ensures forall s <- RenderedSeps(gaps[1..]) :: IsSeparator(s)
  {
    var last := |gaps| - 1;
    assert gaps[last] in gaps;
    forall s <- RenderedSeps(gaps[1..]) ensures IsSeparator(s) {
      if s != gaps[last] + [UNDERSCORE] {
        assert s in gaps;
      }
    }
  }

  /** The placeholder that masking renders is recognised by the recogniser of its own name, when its gaps and its number fit the template. */
  lemma RenderedIsRecognised(eq: Fold, name: bytes, gaps: seq<bytes>, n: nat)
    requires GoodFold(eq) && IsPlainName(name) && SplitsAs(name, gaps, Tokens(name)) && GapsFit(gaps)
    requires |Placeholders.Decimal(n)| <= 9
    ensures Matches(eq, Tree(name), Placeholders.Render(name, n))
  {
    hide GoodFold, IsPlainName, Tokens, AltMatches, Tree, Joined, Interleaved;
    var tokens, index := Tokens(name), Placeholders.Decimal(n);
    var seps := RenderedSeps(gaps[1..]);
    Placeholders.DecimalReads(n);
    RenderedSepsAreSeparators(gaps);
    SpellingIsRecognised(eq, name, [], seps, index, []);
    InterleavedIsJoined(gaps, tokens);
    JoinedWithUnderscore(tokens, gaps[1..]);
    assert name == Joined(tokens, gaps[1..]);
    assert Spelling(tokens, [], seps, index, []) == Placeholders.Render(name, n);
  }
}
