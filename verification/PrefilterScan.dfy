/**
 From the prover to the scanner: rules made eligible by regex_guarantees_keyword may be
 dropped when none of their keywords stands in the lowered text.
 */
module PrefilterScan {
  import opened Bytes
  import opened Rules
  import opened Runes
  import opened RegexSyntax
  import opened RegexLang
  import opened Prefilter
  import opened PrefilterSound
  import Scanner

  /** How compile_rule fills a rule: the lowered keywords, and whether the prover vouches for them. */
  ghost predicate CompiledFrom(low: bytes -> bytes, r: Rule, a: Alt, keywords: seq<bytes>) {
    WfAlt(a) && r.keywords == LowerAll(low, keywords) && r.eligible == RegexGuarantees(low, PrintAlt(a), keywords)
  }

  /** The engine's first match of a rule lies between rune boundaries and belongs to the rule's pattern. */
  ghost predicate MatchesLanguage(re: Scanner.Matcher, eq: Fold, text: bytes, r: Rule, a: Alt) {
    match re(text, r, 0)
    case None => true
    case Some(g) =>
      && Scanner.GroupsIn(text, 0, g)
      && WellFormed(text[..g[0].value.start])
      && Matches(eq, a, text[g[0].value.start..g[0].value.end])
  }

  /** A rule that matches has a keyword in the lowered text. */
  lemma MatchHasKeyword(re: Scanner.Matcher, low: bytes -> bytes, eq: Fold, text: bytes, r: Rule, a: Alt, keywords: seq<bytes>)
    requires GoodLower(low) && GoodFold(eq) && CompiledFrom(low, r, a, keywords) && MatchesLanguage(re, eq, text, r, a)
    requires r.eligible && re(text, r, 0).Some?
    ensures Scanner.HasKeyword(Lower(low, text), r.keywords)
  {
    hide GoodLower, GoodFold, WfAlt, AltMatches, RegexGuarantees, WellFormed, Lower, Scanner.HasKeyword, LowerAll;
    var g := re(text, r, 0).value[0].value;
    var w := text[g.start..g.end];
    PrefilterIsSound(low, eq, a, keywords, w);
    AltIsWellFormed(eq, false, a, w);
    KeywordInLowered(low, text[..g.start], w, text[g.end..], r.keywords);
    assert text[..g.start] + w + text[g.end..] == text;
  }

  /** Every rule was compiled from some pattern of the subset, and the engine matches it as its language says. */
  ghost predicate CompiledRules(re: Scanner.Matcher, low: bytes -> bytes, eq: Fold, text: bytes, rules: seq<Option<Rule>>) {
    forall r <- rules | r.Some? ::
      exists a, keywords :: CompiledFrom(low, r.value, a, keywords) && MatchesLanguage(re, eq, text, r.value, a)
  }

  lemma RulesGuaranteeKeywords(re: Scanner.Matcher, low: bytes -> bytes, eq: Fold, text: bytes, rules: seq<Option<Rule>>)
    requires GoodLower(low) && GoodFold(eq) && CompiledRules(re, low, eq, text, rules)
    ensures Scanner.KeywordsGuaranteed(re, Lower(low, text), text, rules)
  {
    hide GoodLower, GoodFold, CompiledFrom, MatchesLanguage, Lower, Scanner.HasKeyword;
    forall r <- rules | r.Some? && r.value.eligible && re(text, r.value, 0).Some?
      ensures Scanner.HasKeyword(Lower(low, text), r.value.keywords)
    {
      var a, keywords :| CompiledFrom(low, r.value, a, keywords) && MatchesLanguage(re, eq, text, r.value, a);
      MatchHasKeyword(re, low, eq, text, r.value, a, keywords);
    }
  }

  /** The prefilter and the number of workers leave the result of a scan as it is, for all compiled rules with distinct ids. */
  lemma PrefilterChangesNothing(re: Scanner.Matcher, ok: Scanner.Validators, low: bytes -> bytes, eq: Fold, text: bytes, rules: seq<Option<Rule>>,
                                o1: Scanner.Options, h1: nat, o2: Scanner.Options, h2: nat)
    requires GoodLower(low) && GoodFold(eq) && Scanner.MatcherOk(re, text)
    requires Scanner.AllCompiled(rules) && Scanner.DistinctIds(rules) && CompiledRules(re, low, eq, text, rules)
    ensures var lower := (s: bytes) => Lower(low, s);
      Scanner.Scan(re, ok, lower, text, rules, o1, h1) == Scanner.Scan(re, ok, lower, text, rules, o2, h2)
  {
    hide GoodLower, GoodFold, Scanner.MatcherOk, Scanner.AllCompiled, Scanner.DistinctIds, CompiledRules, Scanner.KeywordsGuaranteed, Scanner.Scan, Lower;
    RulesGuaranteeKeywords(re, low, eq, text, rules);
    var lower := (s: bytes) => Lower(low, s);
    assert lower(text) == Lower(low, text);
    Scanner.OptionsDoNotMatter(re, ok, lower, text, rules, o1, h1, o2, h2);
  }
}
