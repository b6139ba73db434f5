/**
 The tolerant recogniser of PlaceholderRegex.hpp: the pattern built from a placeholder
 name, the tree it prints, and its length bound.
 */
module PlaceholderTemplate {
  import opened Bytes
  import opened RegexSyntax
  import opened RegexParse
  import opened RegexLang
  import opened LengthBound
  import LengthParsing

  datatype RuleError = UnboundedPlaceholder

  datatype PlaceholderPattern = PlaceholderPattern(pattern: bytes, maxLen: nat)

  // ---- Tokens of a name ----

  function Field(current: bytes): seq<bytes> {
    if current == [] then [] else [current]
  }

  /** The non-empty runs of bytes other than `_`; `current` is the run being read. */
  function Fields(name: bytes, current: bytes): seq<bytes>
    decreases |name|
  {
    if name == [] then Field(current)
    else if name[0] == UNDERSCORE then Field(current) + Fields(name[1..], [])
    else Fields(name[1..], current + [name[0]])
  }

  /** The whole name when nothing but underscores is left. */
  function Tokens(name: bytes): seq<bytes> {
    if Fields(name, []) == [] then [name] else Fields(name, [])
  }

  method SplitOnUnderscore(name: bytes) returns (tokens: seq<bytes>)
    ensures tokens == Tokens(name)
  {
    tokens := [];
    var current: bytes := [];
    for i := 0 to |name|
      invariant tokens + Fields(name[i..], current) == Fields(name, [])
    {
      assert name[i..][1..] == name[i + 1..];
      if name[i] == UNDERSCORE {
        Join3(tokens, Field(current), Fields(name[i + 1..], []));
        if current != [] {
          tokens := tokens + [current];
          current := [];
        }
      } else {
        current := current + [name[i]];
      }
    }
    if current != [] {
      tokens := tokens + [current];
    }
    if tokens == [] {
      tokens := [name];
    }
  }

  function TotalLength(tokens: seq<bytes>): nat {
    if tokens == [] then 0 else |tokens[0]| + TotalLength(tokens[1..])
  }

  lemma {:induction false} FieldsFit(name: bytes, current: bytes)
    ensures TotalLength(Fields(name, current)) <= |name| + |current|
    ensures |Fields(name, current)| <= |name| + |current|
    ensures forall t <- Fields(name, current) :: forall b <- t :: b in name || b in current
    decreases |name|
  {
    if name != [] {
      assert name == [name[0]] + name[1..];
      if name[0] == UNDERSCORE {
        FieldsFit(name[1..], []);
        if current != [] {
          assert (Field(current) + Fields(name[1..], []))[1..] == Fields(name[1..], []);
        } else {
          assert Field(current) + Fields(name[1..], []) == Fields(name[1..], []);
        }
      } else {
        FieldsFit(name[1..], current + [name[0]]);
      }
    } else if current != [] {
      assert [current][1..] == [];
    }
  }

  /** The names the bound is meant for. */
  predicate IsPlainName(name: bytes) {
    forall b <- name :: 0 < b <= 0x7F
  }

  lemma TokensFit(name: bytes)
    ensures TotalLength(Tokens(name)) <= |name| && |Tokens(name)| <= |name| + 1
    ensures IsPlainName(name) ==> forall t <- Tokens(name) :: IsPlainName(t)
  {
    FieldsFit(name, []);
    assert [name][1..] == [];
  }

  // ---- The pattern ----

  predicate IsUnquoted(b: byte) {
    IsAlnum(b) || b == UNDERSCORE || b > 0x7F
  }

  /** RE2's QuoteMeta: a backslash before everything but letters, digits, `_` and bytes outside ASCII; NUL in hexadecimal. */
  function QuoteMeta(s: bytes): bytes {
    if s == [] then []
    else Quoted(s[0]) + QuoteMeta(s[1..])
  }

  /** One byte of a name, quoted. */
  function Quoted(b: byte): bytes {
    if IsUnquoted(b) then [b] else if b == 0 then Ascii("\\x00") else [BACKSLASH, b]
  }

  const OPENING: bytes := Ascii("(?i)<\\s{0,3}")
  const SEPARATOR: bytes := Ascii("[\\s_-]{0,3}")
  const NUMBER: bytes := Ascii("([0-9]{1,9})\\s{0,3}>")

  /** Every token, quoted and followed by the separator. */
  function QuotedTokens(tokens: seq<bytes>): bytes {
    if tokens == [] then [] else QuoteMeta(tokens[0]) + (SEPARATOR + QuotedTokens(tokens[1..]))
  }

  function Pattern(name: bytes): bytes {
    OPENING + (QuotedTokens(Tokens(name)) + NUMBER)
  }

  lemma {:induction false} QuotedTokensSnoc(tokens: seq<bytes>, t: bytes)
    ensures QuotedTokens(tokens + [t]) == QuotedTokens(tokens) + (QuoteMeta(t) + SEPARATOR)
    decreases |tokens|
  {
    hide QuoteMeta;
    var all := tokens + [t];
    if tokens == [] {
      assert all[0] == t && all[1..] == [];
    } else {
      assert all[0] == tokens[0] && all[1..] == tokens[1..] + [t];
      QuotedTokensSnoc(tokens[1..], t);
      Join3(QuoteMeta(tokens[0]), SEPARATOR, QuotedTokens(tokens[1..] + [t]));
      Join3(QuoteMeta(tokens[0]), SEPARATOR, QuotedTokens(tokens[1..]));
      Join3(QuoteMeta(tokens[0]) + SEPARATOR, QuotedTokens(tokens[1..]), QuoteMeta(t) + SEPARATOR);
    }
  }

  method BuildPatternString(name: bytes) returns (pattern: bytes)
    ensures pattern == Pattern(name)
  {
    hide QuoteMeta, QuotedTokens, Tokens;
    var tokens := SplitOnUnderscore(name);
    pattern := OPENING;
    assert tokens[..0] == [];
    NoTokens();
    for i := 0 to |tokens|
      invariant i == 0 ==> pattern == OPENING
      invariant i > 0 ==> pattern + SEPARATOR == OPENING + QuotedTokens(tokens[..i])
    {
      assert tokens[..i + 1] == tokens[..i] + [tokens[i]];
      QuotedTokensSnoc(tokens[..i], tokens[i]);
      ghost var before := pattern;
      if i > 0 {
        pattern := pattern + SEPARATOR;
      }
      assert pattern == OPENING + QuotedTokens(tokens[..i]);
      Join3(OPENING, QuotedTokens(tokens[..i]), QuoteMeta(tokens[i]) + SEPARATOR);
      Join3(pattern, QuoteMeta(tokens[i]), SEPARATOR);
      pattern := pattern + QuoteMeta(tokens[i]);
    }
    SomeTokens(name);
    assert tokens[..|tokens|] == tokens;
    pattern := pattern + SEPARATOR;
    Join3(OPENING, QuotedTokens(tokens), NUMBER);
    pattern := pattern + NUMBER;
  }

  lemma NoTokens()
    ensures QuotedTokens([]) == []
  {
  }

  lemma SomeTokens(name: bytes)
    ensures Tokens(name) != []
  {
  }

  /** build_placeholder_pattern: the pattern with its bound, or an error when it has none. */
  function Built(name: bytes): Result<PlaceholderPattern, RuleError> {
    if RegexMaxLen(Pattern(name)) == SIZE_MAX then Err(UnboundedPlaceholder)
    else Ok(PlaceholderPattern(Pattern(name), RegexMaxLen(Pattern(name))))
  }

  method BuildPlaceholderPattern(name: bytes) returns (r: Result<PlaceholderPattern, RuleError>)
    ensures r == Built(name)
  {
    hide Pattern, RegexMaxLen;
    var pattern := BuildPatternString(name);
    var maxLen := LengthParsing.RegexMaxLength(pattern);
    if maxLen == SIZE_MAX {
      return Err(UnboundedPlaceholder);
    }
    return Ok(PlaceholderPattern(pattern, maxLen));
  }

  // ---- The tree of the pattern ----

  const DRIFT := Braces([0x30], true, [0x33], false)
  const INDEX := Braces([0x31], true, [0x39], false)
  const GAP := Esc(Perl(0x73))
  const JOINT := Class(false, [Single(EscMem(Perl(0x73))), Single(RuneMem([UNDERSCORE])), Single(RuneMem([MINUS]))])
  const DIGITS := Class(false, [Range(RuneMem([0x30]), RuneMem([0x39]))])

  function CharAtom(b: byte): Atom {
    if IsUnquoted(b) then Lit([b]) else Esc(Identity([b]))
  }

  function TokenConcat(t: bytes, rest: Concat): Concat {
    if t == [] then rest else Cons(CharAtom(t[0]), Once, TokenConcat(t[1..], rest))
  }

  function TokensConcat(tokens: seq<bytes>, rest: Concat): Concat {
    if tokens == [] then rest else TokenConcat(tokens[0], Cons(JOINT, DRIFT, TokensConcat(tokens[1..], rest)))
  }

  const NUMBER_BODY := Only(Cons(DIGITS, INDEX, Empty))
  const TAIL := Cons(Group(Capturing, NUMBER_BODY), Once, Cons(GAP, DRIFT, Cons(Lit([GREATER]), Once, Empty)))

  function Tree(name: bytes): Alt {
    Only(Cons(SetFlags([LETTER_I]), Once, Cons(Lit([LESS]), Once, Cons(GAP, DRIFT, TokensConcat(Tokens(name), TAIL)))))
  }

  lemma OncePrints(a: Atom, rest: Concat)
    ensures PrintConcat(Cons(a, Once, rest)) == PrintAtom(a) + PrintConcat(rest)
  {
    hide PrintAtom;
    assert [] + PrintConcat(rest) == PrintConcat(rest);
  }

  lemma CharPrints(b: byte)
    requires 0 < b <= 0x7F
    ensures PrintAtom(CharAtom(b)) == Quoted(b)
  {
  }

  lemma {:induction false} TokenPrints(t: bytes, rest: Concat)
    requires IsPlainName(t)
    ensures PrintConcat(TokenConcat(t, rest)) == QuoteMeta(t) + PrintConcat(rest)
    decreases |t|
  {
    hide PrintAtom, PrintConcat, CharAtom, Quoted;
    if t == [] {
      assert [] + PrintConcat(rest) == PrintConcat(rest);
    } else {
      assert t[0] in t && forall b <- t[1..] :: b in t;
      TokenPrints(t[1..], rest);
      OncePrints(CharAtom(t[0]), TokenConcat(t[1..], rest));
      CharPrints(t[0]);
      Join3(Quoted(t[0]), QuoteMeta(t[1..]), PrintConcat(rest));
    }
  }

  lemma JointPrints()
    ensures PrintAtom(JOINT) + PrintQuant(DRIFT) == SEPARATOR
  {
    hide PrintAtom, PrintQuant;
    JointBytes();
    DriftPrints();
    assert SEPARATOR == [LBRACKET, BACKSLASH, 0x73, UNDERSCORE, MINUS, RBRACKET, LBRACE, 0x30, COMMA, 0x33, RBRACE];
  }

  lemma JointBytes()
    ensures PrintAtom(JOINT) == [LBRACKET, BACKSLASH, 0x73, UNDERSCORE, MINUS, RBRACKET]
  {
    var one := [Single(RuneMem([MINUS]))];
    assert one[1..] == [] && PrintItems(one) == [MINUS] + [RBRACKET];
    var two := [Single(RuneMem([UNDERSCORE])), Single(RuneMem([MINUS]))];
    assert two[1..] == one && PrintItems(two) == [UNDERSCORE] + [MINUS, RBRACKET];
    assert JOINT.items[1..] == two && PrintItems(JOINT.items) == [BACKSLASH, 0x73] + [UNDERSCORE, MINUS, RBRACKET];
  }

  lemma DriftPrints()
    ensures PrintQuant(DRIFT) == [LBRACE, 0x30, COMMA, 0x33, RBRACE]
    ensures PrintQuant(INDEX) == [LBRACE, 0x31, COMMA, 0x39, RBRACE]
    ensures PrintAtom(GAP) == [BACKSLASH, 0x73]
  {
  }

  lemma {:induction false} TokensPrint(tokens: seq<bytes>, rest: Concat)
    requires forall t <- tokens :: IsPlainName(t)
    ensures PrintConcat(TokensConcat(tokens, rest)) == QuotedTokens(tokens) + PrintConcat(rest)
    decreases |tokens|
  {
    hide IsPlainName, QuoteMeta, PrintAtom, PrintQuant, TokenConcat;
    if tokens == [] {
      assert [] + PrintConcat(rest) == PrintConcat(rest);
    } else {
      assert tokens[0] in tokens && forall t <- tokens[1..] :: t in tokens;
      TokensPrint(tokens[1..], rest);
      var after := Cons(JOINT, DRIFT, TokensConcat(tokens[1..], rest));
      TokenPrints(tokens[0], after);
      JointPrints();
      var tail := PrintConcat(TokensConcat(tokens[1..], rest));
      Join3(PrintAtom(JOINT), PrintQuant(DRIFT), tail);
      assert PrintConcat(after) == SEPARATOR + tail;
      Join3(SEPARATOR, QuotedTokens(tokens[1..]), PrintConcat(rest));
      Join3(QuoteMeta(tokens[0]), SEPARATOR + QuotedTokens(tokens[1..]), PrintConcat(rest));
    }
  }

  const INDEX_GROUP: bytes := [LPAREN] + ([LBRACKET, 0x30, MINUS, 0x39, RBRACKET, LBRACE, 0x31, COMMA, 0x39, RBRACE] + [RPAREN])

  lemma DigitsPrint()
    ensures PrintAtom(DIGITS) == [LBRACKET, 0x30, MINUS, 0x39, RBRACKET]
  {
    assert DIGITS.items[1..] == [];
    assert PrintItem(DIGITS.items[0]) == [0x30, MINUS, 0x39];
    assert PrintItems(DIGITS.items) == [0x30, MINUS, 0x39] + [RBRACKET];
  }

  lemma NumberBodyPrints()
    ensures PrintAlt(NUMBER_BODY) == [LBRACKET, 0x30, MINUS, 0x39, RBRACKET, LBRACE, 0x31, COMMA, 0x39, RBRACE]
  {
    hide PrintAtom, PrintQuant;
    DigitsPrint();
    DriftPrints();
    assert PrintConcat(Empty) == [];
    assert PrintConcat(Cons(DIGITS, INDEX, Empty)) == PrintAtom(DIGITS) + (PrintQuant(INDEX) + []);
  }

  lemma GroupPrints()
    ensures PrintAtom(Group(Capturing, NUMBER_BODY)) == INDEX_GROUP
  {
    hide PrintAlt;
    NumberBodyPrints();
    assert [] + (PrintAlt(NUMBER_BODY) + [RPAREN]) == PrintAlt(NUMBER_BODY) + [RPAREN];
  }

  lemma NumberBytes()
    ensures NUMBER == INDEX_GROUP + (DRIFTING + [GREATER])
  {
    assert NUMBER == [LPAREN, LBRACKET, 0x30, MINUS, 0x39, RBRACKET, LBRACE, 0x31, COMMA, 0x39, RBRACE, RPAREN,
                      BACKSLASH, 0x73, LBRACE, 0x30, COMMA, 0x33, RBRACE, GREATER];
  }

  lemma TailPrints()
    ensures PrintConcat(TAIL) == NUMBER
  {
    hide PrintAtom, PrintConcat, PrintQuant;
    var last := Cons(Lit([GREATER]), Once, Empty);
    OncePrints(Lit([GREATER]), Empty);
    EndPrints();
    var gap := Cons(GAP, DRIFT, last);
    GapPrints(gap, [GREATER]);
    GroupPrints();
    OncePrints(Group(Capturing, NUMBER_BODY), gap);
    NumberBytes();
  }

  lemma EndPrints()
    ensures PrintAtom(Lit([GREATER])) + PrintConcat(Empty) == [GREATER]
  {
  }

  /** The pattern of a plain name is the printed tree. */
  lemma PatternIsPrinted(name: bytes)
    requires IsPlainName(name)
    ensures Pattern(name) == PrintAlt(Tree(name))
  {
    hide IsPlainName, QuotedTokens, Tokens, TokensConcat;
    TokensFit(name);
    TokensPrint(Tokens(name), TAIL);
    TailPrints();
    DriftPrints();
    var body := QuotedTokens(Tokens(name)) + NUMBER;
    var gap := Cons(GAP, DRIFT, TokensConcat(Tokens(name), TAIL));
    OpeningPrints(gap, body);
  }

  lemma OpeningPrints(gap: Concat, body: bytes)
    requires gap.Cons? && gap.atom == GAP && gap.quant == DRIFT && PrintConcat(gap.rest) == body
    ensures PrintAlt(Only(Cons(SetFlags([LETTER_I]), Once, Cons(Lit([LESS]), Once, gap)))) == OPENING + body
  {
    hide PrintConcat, PrintAtom;
    var less := Cons(Lit([LESS]), Once, gap);
    GapPrints(gap, body);
    OncePrints(Lit([LESS]), gap);
    OncePrints(SetFlags([LETTER_I]), less);
    FlagsPrint();
    OpeningBytes();
    Join3(INTRO, DRIFTING, body);
    assert PrintAlt(Only(Cons(SetFlags([LETTER_I]), Once, less))) == PrintConcat(Cons(SetFlags([LETTER_I]), Once, less));
    Join3([LPAREN, QUESTION, LETTER_I, RPAREN], [LESS], DRIFTING + body);
  }

  const INTRO: bytes := [LPAREN, QUESTION, LETTER_I, RPAREN] + [LESS]
  const DRIFTING: bytes := [BACKSLASH, 0x73, LBRACE, 0x30, COMMA, 0x33, RBRACE]

  lemma GapPrints(gap: Concat, body: bytes)
    requires gap.Cons? && gap.atom == GAP && gap.quant == DRIFT && PrintConcat(gap.rest) == body
    ensures PrintConcat(gap) == DRIFTING + body
  {
    hide PrintAtom, PrintQuant;
    DriftPrints();
    Join3(PrintAtom(GAP), PrintQuant(DRIFT), body);
    assert PrintAtom(GAP) + PrintQuant(DRIFT) == DRIFTING;
  }

  lemma FlagsPrint()
    ensures PrintAtom(SetFlags([LETTER_I])) == [LPAREN, QUESTION, LETTER_I, RPAREN] && PrintAtom(Lit([LESS])) == [LESS]
  {
  }

  lemma OpeningBytes()
    ensures OPENING == INTRO + DRIFTING
  {
    assert OPENING == [LPAREN, QUESTION, LETTER_I, RPAREN, LESS, BACKSLASH, 0x73, LBRACE, 0x30, COMMA, 0x33, RBRACE];
  }

  // ---- The tree is in the subset, and safe ----

  lemma JointWf()
    ensures WfAtom(JOINT) && WfQuant(DRIFT) && WfAtom(GAP) && SafeAtom(JOINT, true) && SafeAtom(GAP, true)
    ensures NestingOfAtom(JOINT) == 0 && NestingOfAtom(GAP) == 0
  {
    assert PrintItem(Single(RuneMem([UNDERSCORE]))) == [UNDERSCORE];
    assert PrintItem(Single(EscMem(Perl(0x73)))) == [BACKSLASH, 0x73];
  }

  lemma CharWf(b: byte)
    requires 0 < b <= 0x7F
    ensures WfAtom(CharAtom(b)) && SafeAtom(CharAtom(b), true) && !CharAtom(b).SetFlags? && NestingOfAtom(CharAtom(b)) == 0
  {
  }

  lemma {:induction false} TokenWf(t: bytes, rest: Concat)
    requires IsPlainName(t) && WfConcat(rest) && SafeConcat(rest, true) && NestingOfConcat(rest) <= 1
    ensures WfConcat(TokenConcat(t, rest)) && SafeConcat(TokenConcat(t, rest), true) && NestingOfConcat(TokenConcat(t, rest)) <= 1
    decreases |t|
  {
    hide WfAtom, SafeAtom, NestingOfAtom, CharAtom;
    if t != [] {
      assert t[0] in t && forall b <- t[1..] :: b in t;
      CharWf(t[0]);
      TokenWf(t[1..], rest);
    }
  }

  lemma {:induction false} TokensWf(tokens: seq<bytes>, rest: Concat)
    requires (forall t <- tokens :: IsPlainName(t)) && WfConcat(rest) && SafeConcat(rest, true) && NestingOfConcat(rest) <= 1
    ensures WfConcat(TokensConcat(tokens, rest)) && SafeConcat(TokensConcat(tokens, rest), true) && NestingOfConcat(TokensConcat(tokens, rest)) <= 1
    decreases |tokens|
  {
    hide IsPlainName, WfAtom, SafeAtom, TokenConcat;
    if tokens != [] {
      assert tokens[0] in tokens && forall t <- tokens[1..] :: t in tokens;
      TokensWf(tokens[1..], rest);
      JointWf();
      TokenWf(tokens[0], Cons(JOINT, DRIFT, TokensConcat(tokens[1..], rest)));
    }
  }

  /** One more piece in front of a concatenation that is in the subset and safe. */
  lemma PieceWf(a: Atom, q: Quant, rest: Concat, ci: bool)
    requires WfAtom(a) && SafeAtom(a, ci) && WfQuant(q) && (a.SetFlags? ==> q.Once?) && WfConcat(rest) && SafeConcat(rest, AtomFold(a, ci))
    ensures WfConcat(Cons(a, q, rest)) && SafeConcat(Cons(a, q, rest), ci)
    ensures NestingOfConcat(Cons(a, q, rest)) == MaxNat(NestingOfAtom(a), NestingOfConcat(rest))
  {
    hide WfAtom, SafeAtom, NestingOfAtom, WfQuant, AtomFold;
  }

  lemma NothingWf()
    ensures WfConcat(Empty) && SafeConcat(Empty, true) && NestingOfConcat(Empty) == 0 && WfQuant(Once)
  {
  }

  lemma LitWf(b: byte)
    requires b == LESS || b == GREATER
    ensures WfAtom(Lit([b])) && SafeAtom(Lit([b]), true) && NestingOfAtom(Lit([b])) == 0
  {
  }

  lemma DigitsWf()
    ensures WfAtom(DIGITS) && SafeAtom(DIGITS, true) && NestingOfAtom(DIGITS) == 0 && WfQuant(INDEX)
  {
    assert PrintItem(Range(RuneMem([0x30]), RuneMem([0x39]))) == [0x30, MINUS, 0x39];
  }

  lemma NumberWf()
    ensures var g := Group(Capturing, NUMBER_BODY); WfAtom(g) && SafeAtom(g, true) && NestingOfAtom(g) == 1
  {
    hide WfConcat, SafeConcat, NestingOfConcat;
    DigitsWf();
    NothingWf();
    PieceWf(DIGITS, INDEX, Empty, true);
    assert WfAlt(NUMBER_BODY) && Safe(NUMBER_BODY, true) && Nesting(NUMBER_BODY) == 0;
  }

  lemma TailWf()
    ensures WfConcat(TAIL) && SafeConcat(TAIL, true) && NestingOfConcat(TAIL) <= 1
  {
    hide WfAtom, SafeAtom, NestingOfAtom, WfConcat, SafeConcat, NestingOfConcat, WfQuant;
    NothingWf();
    JointWf();
    LitWf(GREATER);
    NumberWf();
    var last := Cons(Lit([GREATER]), Once, Empty);
    PieceWf(Lit([GREATER]), Once, Empty, true);
    PieceWf(GAP, DRIFT, last, true);
    PieceWf(Group(Capturing, NUMBER_BODY), Once, Cons(GAP, DRIFT, last), true);
  }

  lemma FlagsWf()
    ensures WfAtom(SetFlags([LETTER_I])) && SafeAtom(SetFlags([LETTER_I]), false) && AtomFold(SetFlags([LETTER_I]), false) && NestingOfAtom(SetFlags([LETTER_I])) == 1
  {
    assert WfFlags([LETTER_I]);
    assert [LETTER_I][1..] == [];
  }

  lemma TreeIsSafe(name: bytes)
    requires IsPlainName(name)
    ensures WfAlt(Tree(name)) && Safe(Tree(name), false) && Nesting(Tree(name)) <= 1
  {
    hide IsPlainName, TokensConcat, Tokens, WfAtom, SafeAtom, NestingOfAtom, WfConcat, SafeConcat, NestingOfConcat, WfQuant;
    TokensFit(name);
    TailWf();
    JointWf();
    NothingWf();
    LitWf(LESS);
    FlagsWf();
    var tokens := TokensConcat(Tokens(name), TAIL);
    TokensWf(Tokens(name), TAIL);
    PieceWf(GAP, DRIFT, tokens, true);
    PieceWf(Lit([LESS]), Once, Cons(GAP, DRIFT, tokens), true);
    PieceWf(SetFlags([LETTER_I]), Once, Cons(Lit([LESS]), Once, Cons(GAP, DRIFT, tokens)), false);
  }

  // ---- The bound of the tree ----

  lemma {:induction false} TokenBounded(t: bytes, rest: Concat, total: nat) returns (after: nat)
    requires IsPlainName(t) && total <= SIZE_MAX
    ensures after <= SIZE_MAX && after <= total + 3 * |t|
    ensures ConcatBound(TokenConcat(t, rest), true, total) == ConcatBound(rest, true, after)
    decreases |t|
  {
    if t == [] {
      after := total;
    } else {
      assert t[0] in t && forall b <- t[1..] :: b in t;
      var n := RuneWidth([t[0]], true);
      assert AtomBound(CharAtom(t[0]), true) == Some((n, true));
      after := TokenBounded(t[1..], rest, SatAdd(total, n));
    }
  }

  lemma DriftBound(n: nat)
    requires n == 1
    ensures QuantBound(n, DRIFT) == 3 && QuantBound(n, INDEX) == 9
  {
    assert [0x33][..0] == [] && [0x39][..0] == [];
    assert RepeatCount([]) == 0;
    assert RepeatCount([0x33]) == SatAdd(SatMul(RepeatCount([]), 10), 3);
    assert RepeatCount([0x39]) == SatAdd(SatMul(RepeatCount([]), 10), 9);
  }

  lemma JointBound()
    ensures AtomBound(JOINT, true) == Some((1, true)) && AtomBound(GAP, true) == Some((1, true))
  {
    var items := JOINT.items;
    assert items[2..] == [Single(RuneMem([MINUS]))] && items[2..][1..] == [];
    assert ItemsBound(items[2..], true) == Some(1);
    assert items[1..][1..] == items[2..];
    assert ItemsBound(items[1..], true) == Some(1);
    assert ItemsBound(items, true) == Some(1);
  }

  lemma {:induction false} TokensBounded(tokens: seq<bytes>, rest: Concat, total: nat) returns (after: nat)
    requires (forall t <- tokens :: IsPlainName(t)) && total <= SIZE_MAX
    ensures after <= SIZE_MAX && after <= total + 3 * TotalLength(tokens) + 3 * |tokens|
    ensures ConcatBound(TokensConcat(tokens, rest), true, total) == ConcatBound(rest, true, after)
    decreases |tokens|
  {
    hide IsPlainName, TokenConcat, AtomBound, QuantBound;
    if tokens == [] {
      after := total;
    } else {
      assert tokens[0] in tokens && forall t <- tokens[1..] :: t in tokens;
      var joint := Cons(JOINT, DRIFT, TokensConcat(tokens[1..], rest));
      var one := TokenBounded(tokens[0], joint, total);
      JointBound();
      DriftBound(1);
      after := TokensBounded(tokens[1..], rest, SatAdd(one, 3));
    }
  }

  lemma TailBounded(total: nat)
    requires total <= SIZE_MAX
    ensures ConcatBound(TAIL, true, total).Some? && ConcatBound(TAIL, true, total).value.0 <= total + 13
  {
    assert DIGITS.items[1..] == [];
    assert ItemsBound(DIGITS.items, true) == Some(1);
    assert AtomBound(DIGITS, true) == Some((1, true));
    DriftBound(1);
    assert ConcatBound(Cons(DIGITS, INDEX, Empty), true, 0) == Some((9, true));
    assert AltBound(NUMBER_BODY, true) == Some((9, true));
    assert AtomBound(Group(Capturing, NUMBER_BODY), true) == Some((9, true));
    JointBound();
    assert AtomBound(Lit([GREATER]), true) == Some((1, true));
    var a := SatAdd(total, 9);
    var b := SatAdd(a, 3);
    var last := Cons(Lit([GREATER]), Once, Empty);
    assert ConcatBound(last, true, b) == Some((SatAdd(b, 1), true));
    assert ConcatBound(Cons(GAP, DRIFT, last), true, a) == ConcatBound(last, true, b);
  }

  /** The bound is known and linear in the name. */
  lemma TreeBounded(name: bytes)
    requires IsPlainName(name)
    ensures AltBound(Tree(name), false).Some? && AltBound(Tree(name), false).value.0 <= 6 * |name| + 20
  {
    hide IsPlainName, TokensConcat, Tokens, QuantBound;
    TokensFit(name);
    var tokens := TokensConcat(Tokens(name), TAIL);
    var gap := Cons(GAP, DRIFT, tokens);
    var less := Cons(Lit([LESS]), Once, gap);
    JointBound();
    DriftBound(1);
    assert AtomBound(SetFlags([LETTER_I]), false) == Some((0, true));
    assert AtomBound(Lit([LESS]), true) == Some((1, true));
    assert QuantBound(0, Once) == 0 && QuantBound(1, Once) == 1 by { OnceBound(); }
    assert ConcatBound(gap, true, 1) == ConcatBound(tokens, true, 4);
    assert ConcatBound(less, true, 0) == ConcatBound(gap, true, 1);
    var after := TokensBounded(Tokens(name), TAIL, 4);
    TailBounded(after);
  }

  lemma OnceBound()
    ensures forall n: nat | n <= SIZE_MAX :: QuantBound(n, Once) == n
  {
  }

  // ---- The results ----

  /** No string a recogniser matches is longer than its recorded bound, for any plain name. */
  lemma TemplateBoundIsSound(eq: Fold, name: bytes, w: bytes)
    requires GoodFold(eq) && IsPlainName(name) && Matches(eq, Tree(name), w) && Built(name).Ok?
    ensures Built(name).value.pattern == PrintAlt(Tree(name)) && |w| <= Built(name).value.maxLen
  {
    hide GoodFold, IsPlainName, AltMatches, Tree, Pattern, RegexMaxLen, WfAlt, Safe, PrintAlt;
    PatternIsPrinted(name);
    TreeIsSafe(name);
    LengthBoundIsSound(eq, Tree(name), w);
  }

  /** A recogniser is always bounded: the error is unreachable for plain names that fit in memory. */
  lemma TemplateIsBounded(name: bytes)
    requires IsPlainName(name) && 6 * |name| + 20 < SIZE_MAX
    ensures Built(name).Ok? && Built(name).value.maxLen <= 6 * |name| + 20
  {
    hide IsPlainName, Tree, Pattern, WfAlt, Safe, PrintAlt, Parse, AltBound, Nesting;
    PatternIsPrinted(name);
    TreeIsSafe(name);
    PrintedIsParsed(Tree(name));
    TreeBounded(name);
  }
}
