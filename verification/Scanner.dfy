/**
 scan_rules of Scanner.hpp. The regex engine is a parameter that gives the leftmost match
 from an offset on, with its groups; validators and lower-casing are parameters too. The
 keyword filter and the fan-out over workers do not change the answer.
 */
module Scanner {
  import opened Bytes
  import opened Rules
  import opened Conflicts
  import Runes

  datatype ScanError = NullRule | NullRegex(id: bytes) | WorkerFailed(cause: ScanError)

  datatype Group = Group(start: nat, end: nat)

  /** Group 0 is the whole match; a group that took no part is None. */
  type Groups = seq<Option<Group>>

  type Matcher = (bytes, Rule, nat) -> Option<Groups>

  type Validators = (bytes, Rule) -> bool

  datatype Options = Options(prefilter: bool, maxWorkers: nat)

  predicate GroupsIn(text: bytes, pos: nat, g: Groups) {
    && |g| > 0 && g[0].Some? && pos <= g[0].value.start && g[0].value.end <= |text|
    && forall i | 0 <= i < |g| && g[i].Some? :: g[0].value.start <= g[i].value.start <= g[i].value.end <= g[0].value.end
  }

  /** Matches lie in the text, from the offset asked for on, and groups within their match. */
  ghost predicate MatcherOk(re: Matcher, text: bytes) {
    forall rule, pos: nat | pos <= |text| && re(text, rule, pos).Some? :: GroupsIn(text, pos, re(text, rule, pos).value)
  }

  // ---- One rule ----

  /** The first configured group that took part and is not empty. */
  function FirstGroup(g: Groups, wanted: seq<int>): Option<Group> {
    if wanted == [] then None
    else if 0 <= wanted[0] < |g| && g[wanted[0]].Some? && g[wanted[0]].value.start < g[wanted[0]].value.end then g[wanted[0]]
    else FirstGroup(g, wanted[1..])
  }

  function SensitiveSpan(g: Groups, rule: Rule): Option<Group>
    requires |g| > 0 && g[0].Some?
  {
    if rule.captureGroups == [] then (if g[0].value.start < g[0].value.end then g[0] else None)
    else FirstGroup(g, rule.captureGroups)
  }

  lemma {:induction false} FirstGroupIsGroup(text: bytes, pos: nat, g: Groups, wanted: seq<int>)
    requires GroupsIn(text, pos, g)
    ensures FirstGroup(g, wanted).Some? ==>
      var s := FirstGroup(g, wanted).value; s.start < s.end <= |text| && Some(s) in g
    decreases |wanted|
  {
    if wanted != [] {
      FirstGroupIsGroup(text, pos, g, wanted[1..]);
    }
  }

  /** The match one regex match contributes, if it survives. */
  function Accepted(text: bytes, ok: Validators, rule: Rule, g: Groups): seq<ScanMatch>
    requires |g| > 0 && g[0].Some?
  {
    match SensitiveSpan(g, rule)
    case None => []
    case Some(s) =>
      if !(s.start < s.end <= |text|) then []
      else if rule.minLength > 0 && s.end - s.start < rule.minLength then []
      else if !ok(text[s.start..s.end], rule) then []
      else [ScanMatch(s.start, s.end, Some(rule))]
  }

  /** Where the next search starts: past the match, or one rune past an empty one. */
  function NextPos(text: bytes, g: Group): nat {
    if g.end > g.start then g.end
    else if g.start < |text| then g.start + Width(text, g.start)
    else |text| + 1
  }

  /** The bytes of the rune at `i`; one for a broken sequence. */
  function Width(text: bytes, i: nat): nat
    requires i < |text|
  {
    if Runes.RuneLength(text[i..]) == 0 then 1 else Runes.RuneLength(text[i..])
  }

  function ScanFrom(re: Matcher, ok: Validators, text: bytes, rule: Rule, pos: nat, previous: Option<nat>): seq<ScanMatch>
    requires MatcherOk(re, text)
    decreases |text| + 1 - pos
  {
    if pos > |text| || re(text, rule, pos).None? then []
    else
      var g := re(text, rule, pos).value;
      var whole := g[0].value;
      (if whole.start == whole.end && previous == Some(whole.start) then [] else Accepted(text, ok, rule, g))
      + ScanFrom(re, ok, text, rule, NextPos(text, whole), Some(whole.end))
  }

  function ScanOne(re: Matcher, ok: Validators, text: bytes, rule: Option<Rule>): Result<seq<ScanMatch>, ScanError>
    requires MatcherOk(re, text)
  {
    match rule
    case None => Err(NullRule)
    case Some(r) =>
      if !r.compiled then Err(NullRegex(r.id))
      else if text == [] then Ok([])
      else Ok(ScanFrom(re, ok, text, r, 0, None))
  }

  method ScanOneRule(re: Matcher, ok: Validators, text: bytes, rule: Option<Rule>) returns (r: Result<seq<ScanMatch>, ScanError>)
    requires MatcherOk(re, text)
    ensures r == ScanOne(re, ok, text, rule)
  {
    hide MatcherOk, ScanFrom, Accepted, GroupsIn;
    if rule.None? {
      return Err(NullRule);
    }
    var cr := rule.value;
    if !cr.compiled {
      return Err(NullRegex(cr.id));
    }
    if text == [] {
      return Ok([]);
    }
    var out: seq<ScanMatch> := [];
    var pos: nat := 0;
    var previous: Option<nat> := None;
    while pos <= |text|
      invariant out + ScanFrom(re, ok, text, cr, pos, previous) == ScanFrom(re, ok, text, cr, 0, None)
      decreases |text| + 1 - pos
    {
      var m := re(text, cr, pos);
      if m.None? {
        break;
      }
      ghost var before, was, from := out, previous, pos;
      MatcherHere(re, text, cr, pos);
      GroupZero(text, pos, m.value);
      SpanIn(text, cr, m.value, pos);
      var g := m.value;
      var whole := g[0].value;
      var accept := true;
      if whole.start == whole.end {
        if previous == Some(whole.start) {
          accept := false;
        }
        pos := if whole.start < |text| then whole.start + Width(text, whole.start) else |text| + 1;
      } else {
        pos := whole.end;
      }
      previous := Some(whole.end);
      ghost var one := if accept then Accepted(text, ok, cr, g) else [];
      ScanStep(re, ok, text, cr, from, was);
      Join3(before, one, ScanFrom(re, ok, text, cr, pos, previous));
      if !accept {
        assert before + one == before;
        continue;
      }
      out := Accept(text, ok, cr, g, out);
    }
    ScanEnds(re, ok, text, cr, pos, previous);
    assert out + [] == out;
    return Ok(out);
  }

  /** The checks on one match: a sensitive span, long enough, that the validators pass. */
  method Accept(text: bytes, ok: Validators, cr: Rule, g: Groups, out: seq<ScanMatch>) returns (r: seq<ScanMatch>)
    requires |g| > 0 && g[0].Some?
    requires SensitiveSpan(g, cr).Some? ==> SensitiveSpan(g, cr).value.end <= |text|
    ensures r == out + Accepted(text, ok, cr, g)
  {
    FirstGroupNonEmpty(g, cr.captureGroups);
    var span := SensitiveSpan(g, cr);
    if span.None? {
      return out;
    }
    var s := span.value;
    if cr.minLength > 0 && s.end - s.start < cr.minLength {
      return out;
    }
    if !ok(text[s.start..s.end], cr) {
      return out;
    }
    return out + [ScanMatch(s.start, s.end, Some(cr))];
  }

  lemma FirstGroupNonEmpty(g: Groups, wanted: seq<int>)
    ensures FirstGroup(g, wanted).Some? ==> FirstGroup(g, wanted).value.start < FirstGroup(g, wanted).value.end
  {
  }

  lemma MatcherHere(re: Matcher, text: bytes, rule: Rule, pos: nat)
    requires MatcherOk(re, text) && pos <= |text| && re(text, rule, pos).Some?
    ensures var g := re(text, rule, pos).value;
      GroupsIn(text, pos, g) && NextPos(text, g[0].value) > pos
  {
  }

  lemma GroupZero(text: bytes, pos: nat, g: Groups)
    requires GroupsIn(text, pos, g)
    ensures |g| > 0 && g[0].Some? && pos <= g[0].value.start <= g[0].value.end <= |text|
  {
  }

  lemma SpanIn(text: bytes, rule: Rule, g: Groups, pos: nat)
    requires GroupsIn(text, pos, g)
    ensures SensitiveSpan(g, rule).Some? ==> SensitiveSpan(g, rule).value.start < SensitiveSpan(g, rule).value.end <= |text|
  {
    FirstGroupIsGroup(text, pos, g, rule.captureGroups);
  }

  /** One step of ScanFrom. */
  lemma ScanStep(re: Matcher, ok: Validators, text: bytes, rule: Rule, pos: nat, previous: Option<nat>)
    requires MatcherOk(re, text) && pos <= |text| && re(text, rule, pos).Some?
    ensures var g := re(text, rule, pos).value;
      && |g| > 0 && g[0].Some?
      && ScanFrom(re, ok, text, rule, pos, previous)
         == (if g[0].value.start == g[0].value.end && previous == Some(g[0].value.start) then [] else Accepted(text, ok, rule, g))
            + ScanFrom(re, ok, text, rule, NextPos(text, g[0].value), Some(g[0].value.end))
  {
    MatcherHere(re, text, rule, pos);
  }

  // ---- All rules, in order ----

  function Serial(re: Matcher, ok: Validators, text: bytes, rules: seq<Option<Rule>>): Result<seq<ScanMatch>, ScanError>
    requires MatcherOk(re, text)
    decreases |rules|
  {
    if rules == [] then Ok([])
    else
      var n := |rules| - 1;
      match Serial(re, ok, text, rules[..n])
      case Err(e) => Err(e)
      case Ok(before) =>
        match ScanOne(re, ok, text, rules[n])
        case Err(e) => Err(e)
        case Ok(these) => Ok(before + these)
  }

  method ScanSerial(re: Matcher, ok: Validators, text: bytes, rules: seq<Option<Rule>>) returns (r: Result<seq<ScanMatch>, ScanError>)
    requires MatcherOk(re, text)
    ensures r == Serial(re, ok, text, rules)
  {
    hide MatcherOk, ScanOne;
    var all: seq<ScanMatch> := [];
    for i := 0 to |rules|
      invariant Serial(re, ok, text, rules[..i]) == Ok(all)
    {
      assert rules[..i + 1][..i] == rules[..i];
      var one := ScanOneRule(re, ok, text, rules[i]);
      if one.Err? {
        ErrorStays(re, ok, text, rules, i + 1);
        return Err(one.error);
      }
      all := all + one.value;
    }
    assert rules[..|rules|] == rules;
    return Ok(all);
  }

  lemma {:induction false} ErrorStays(re: Matcher, ok: Validators, text: bytes, rules: seq<Option<Rule>>, k: nat)
    requires MatcherOk(re, text) && k <= |rules| && Serial(re, ok, text, rules[..k]).Err?
    ensures Serial(re, ok, text, rules) == Serial(re, ok, text, rules[..k])
    decreases |rules|
  {
    hide MatcherOk, ScanOne;
    if k == |rules| {
      assert rules[..k] == rules;
    } else {
      var init := rules[..|rules| - 1];
      assert init[..k] == rules[..k];
      ErrorStays(re, ok, text, init, k);
    }
  }

  // ---- Fan-out ----

  function WorkerCount(rules: nat, maxWorkers: nat, hardware: nat): nat {
    var hw := if maxWorkers != 0 then maxWorkers else hardware;
    var workers := if hw == 0 then 1 else hw;
    if rules < workers then rules else workers
  }

  /** The rules of one bucket: every rule whose index is `b` modulo `n`. */
  function Bucket(rules: seq<Option<Rule>>, n: nat, b: nat): seq<Option<Rule>>
    requires n > 0
  {
    if rules == [] then []
    else
      var k := |rules| - 1;
      Bucket(rules[..k], n, b) + if k % n == b then [rules[k]] else []
  }

  /** The results of the buckets from `b` on: the first failure, or all matches in bucket order. */
  function Collected(re: Matcher, ok: Validators, text: bytes, rules: seq<Option<Rule>>, n: nat, b: nat): Result<seq<ScanMatch>, ScanError>
    requires MatcherOk(re, text) && n > 0 && b <= n
    decreases n - b
  {
    if b == n then Ok([])
    else
      match Serial(re, ok, text, Bucket(rules, n, b))
      case Err(e) => Err(WorkerFailed(e))
      case Ok(these) =>
        match Collected(re, ok, text, rules, n, b + 1)
        case Err(e) => Err(e)
        case Ok(others) => Ok(these + others)
  }

  function Parallel(re: Matcher, ok: Validators, text: bytes, rules: seq<Option<Rule>>, workers: nat): Result<seq<ScanMatch>, ScanError>
    requires MatcherOk(re, text)
  {
    if workers == 0 then Ok([]) else Collected(re, ok, text, rules, workers, 0)
  }

  method FillBuckets(rules: seq<Option<Rule>>, n: nat) returns (buckets: seq<seq<Option<Rule>>>)
    requires n > 0
    ensures |buckets| == n && forall b | 0 <= b < n :: buckets[b] == Bucket(rules, n, b)
  {
    hide Bucket;
    NoBuckets(n);
    buckets := seq(n, _ => []);
    assert rules[..0] == [];
    for i := 0 to |rules|
      invariant |buckets| == n && forall b | 0 <= b < n :: buckets[b] == Bucket(rules[..i], n, b)
    {
      forall b: nat | b < n ensures Bucket(rules[..i + 1], n, b) == Bucket(rules[..i], n, b) + if i % n == b then [rules[i]] else [] {
        BucketStep(rules, i, n, b);
      }
      buckets := buckets[i % n := buckets[i % n] + [rules[i]]];
    }
    assert rules[..|rules|] == rules;
  }

  lemma NoBuckets(n: nat)
    requires n > 0
    ensures forall b: nat :: Bucket([], n, b) == []
  {
  }

  lemma BucketStep(rules: seq<Option<Rule>>, i: nat, n: nat, b: nat)
    requires i < |rules| && n > 0
    ensures Bucket(rules[..i + 1], n, b) == Bucket(rules[..i], n, b) + if i % n == b then [rules[i]] else []
  {
    assert rules[..i + 1][..i] == rules[..i];
  }

  /** Every bucket is scanned, whatever fails; then the first failure by bucket index is reported. */
  method ScanParallel(re: Matcher, ok: Validators, text: bytes, rules: seq<Option<Rule>>, workers: nat) returns (r: Result<seq<ScanMatch>, ScanError>)
    requires MatcherOk(re, text)
    ensures r == Parallel(re, ok, text, rules, workers)
  {
    hide MatcherOk, Bucket, Serial;
    if workers == 0 {
      return Ok([]);
    }
    var buckets := FillBuckets(rules, workers);
    var results: seq<Result<seq<ScanMatch>, ScanError>> := [];
    for b := 0 to workers
      invariant |results| == b && forall i | 0 <= i < b :: results[i] == Serial(re, ok, text, Bucket(rules, workers, i))
    {
      var one := ScanSerial(re, ok, text, buckets[b]);
      results := results + [one];
    }
    var all: seq<ScanMatch> := [];
    AfterNothing(Collected(re, ok, text, rules, workers, 0));
    for b := 0 to workers
      invariant Collected(re, ok, text, rules, workers, 0) == After(all, Collected(re, ok, text, rules, workers, b))
    {
      if results[b].Err? {
        return Err(WorkerFailed(results[b].error));
      }
      var rest := Collected(re, ok, text, rules, workers, b + 1);
      if rest.Ok? {
        Join3(all, results[b].value, rest.value);
      }
      all := all + results[b].value;
    }
    assert all + [] == all;
    return Ok(all);
  }

  function After(all: seq<ScanMatch>, rest: Result<seq<ScanMatch>, ScanError>): Result<seq<ScanMatch>, ScanError> {
    match rest
    case Err(e) => Err(e)
    case Ok(others) => Ok(all + others)
  }

  lemma AfterNothing(rest: Result<seq<ScanMatch>, ScanError>)
    ensures After([], rest) == rest
  {
    if rest.Ok? {
      assert [] + rest.value == rest.value;
    }
  }

  // ---- The keyword filter ----

  predicate Contains(s: bytes, part: bytes) {
    exists i | 0 <= i <= |s| :: At(s, i, part)
  }

  /** Some non-empty keyword stands in the lowered text. */
  predicate HasKeyword(lowered: bytes, keywords: seq<bytes>) {
    exists kw <- keywords :: kw != [] && Contains(lowered, kw)
  }

  predicate Kept(lowered: bytes, rule: Option<Rule>) {
    rule.None? || !rule.value.eligible || HasKeyword(lowered, rule.value.keywords)
  }

  function Filtered(lowered: bytes, rules: seq<Option<Rule>>): seq<Option<Rule>> {
    if rules == [] then []
    else
      var n := |rules| - 1;
      Filtered(lowered, rules[..n]) + if Kept(lowered, rules[n]) then [rules[n]] else []
  }

  method FilterByKeywords(lower: bytes -> bytes, text: bytes, rules: seq<Option<Rule>>) returns (out: seq<Option<Rule>>)
    ensures out == Filtered(lower(text), rules)
  {
    hide Contains;
    var lowered: Option<bytes> := None;
    out := [];
    for i := 0 to |rules|
      invariant lowered.Some? ==> lowered.value == lower(text)
      invariant out == Filtered(lower(text), rules[..i])
    {
      assert rules[..i + 1][..i] == rules[..i];
      if rules[i].None? || !rules[i].value.eligible {
        out := out + [rules[i]];
        continue;
      }
      if lowered.None? {
        lowered := Some(lower(text));
      }
      var keywords := rules[i].value.keywords;
      var hit := false;
      var k := 0;
      while k < |keywords| && !hit
        invariant 0 <= k <= |keywords|
        invariant hit <==> HasKeyword(lower(text), keywords[..k])
      {
        assert keywords[..k + 1] == keywords[..k] + [keywords[k]];
        if keywords[k] != [] && Contains(lowered.value, keywords[k]) {
          hit := true;
        }
        k := k + 1;
      }
      MoreKeywords(lower(text), keywords, k);
      if hit {
        out := out + [rules[i]];
      }
    }
    assert rules[..|rules|] == rules;
  }

  lemma MoreKeywords(lowered: bytes, keywords: seq<bytes>, k: nat)
    requires k <= |keywords|
    ensures HasKeyword(lowered, keywords[..k]) ==> HasKeyword(lowered, keywords)
    ensures k == |keywords| ==> keywords[..k] == keywords
  {
    hide Contains;
    assert forall kw <- keywords[..k] :: kw in keywords;
  }

  // ---- The whole scan ----

  const TEXT_THRESHOLD: nat := 4096
  const RULE_THRESHOLD: nat := 4

  function Active(lower: bytes -> bytes, text: bytes, rules: seq<Option<Rule>>, opts: Options): seq<Option<Rule>> {
    if opts.prefilter then Filtered(lower(text), rules) else rules
  }

  function Candidates(re: Matcher, ok: Validators, text: bytes, rules: seq<Option<Rule>>, workers: nat): Result<seq<ScanMatch>, ScanError>
    requires MatcherOk(re, text)
  {
    if |text| < TEXT_THRESHOLD || |rules| <= RULE_THRESHOLD then Serial(re, ok, text, rules)
    else Parallel(re, ok, text, rules, workers)
  }

  function Scan(re: Matcher, ok: Validators, lower: bytes -> bytes, text: bytes, rules: seq<Option<Rule>>, opts: Options, hardware: nat): Result<seq<ScanMatch>, ScanError>
    requires MatcherOk(re, text)
  {
    var active := Active(lower, text, rules, opts);
    match Candidates(re, ok, text, active, WorkerCount(|active|, opts.maxWorkers, hardware))
    case Err(e) => Err(e)
    case Ok(candidates) => Ok(Resolved(candidates))
  }

  method ScanRules(re: Matcher, ok: Validators, lower: bytes -> bytes, text: bytes, rules: seq<Option<Rule>>, opts: Options, hardware: nat)
      returns (r: Result<seq<ScanMatch>, ScanError>)
    requires MatcherOk(re, text)
    ensures r == Scan(re, ok, lower, text, rules, opts, hardware)
  {
    hide MatcherOk, Collected, Resolved, Filtered;
    NothingToScan(re, ok, lower, text, rules, opts, hardware);
    if rules == [] {
      return Ok([]);
    }
    var active := rules;
    if opts.prefilter {
      active := FilterByKeywords(lower, text, rules);
      if active == [] {
        return Ok([]);
      }
    }
    var candidates: Result<seq<ScanMatch>, ScanError>;
    if |text| < TEXT_THRESHOLD || |active| <= RULE_THRESHOLD {
      candidates := ScanSerial(re, ok, text, active);
    } else {
      candidates := ScanParallel(re, ok, text, active, WorkerCount(|active|, opts.maxWorkers, hardware));
    }
    if candidates.Err? {
      return Err(candidates.error);
    }
    var resolved := ResolveConflicts(candidates.value);
    return Ok(resolved);
  }

  lemma NothingToScan(re: Matcher, ok: Validators, lower: bytes -> bytes, text: bytes, rules: seq<Option<Rule>>, opts: Options, hardware: nat)
    requires MatcherOk(re, text)
    ensures rules == [] || Active(lower, text, rules, opts) == [] ==> Scan(re, ok, lower, text, rules, opts, hardware) == Ok([])
  {
    hide MatcherOk, Collected;
    assert Filtered(lower(text), []) == [];
    SortOfFew([]);
  }

  // ---- Neither the filter nor the workers change the answer ----

  predicate AllCompiled(rules: seq<Option<Rule>>) {
    forall r <- rules :: r.Some? && r.value.compiled
  }

  /** No two rules share an id. */
  predicate DistinctIds(rules: seq<Option<Rule>>) {
    forall a <- rules, b <- rules | a.Some? && b.Some? && a.value.id == b.value.id :: a == b
  }

  /** If an eligible rule matches anywhere in the text, one of its keywords stands in the lowered text. */
  ghost predicate KeywordsGuaranteed(re: Matcher, lowered: bytes, text: bytes, rules: seq<Option<Rule>>) {
    forall r <- rules | r.Some? && r.value.eligible && re(text, r.value, 0).Some? :: HasKeyword(lowered, r.value.keywords)
  }

  lemma CompiledScans(re: Matcher, ok: Validators, text: bytes, rule: Option<Rule>)
    requires MatcherOk(re, text)
    ensures ScanOne(re, ok, text, rule).Ok? <==> rule.Some? && rule.value.compiled
  {
  }

  lemma {:induction false} SerialSucceeds(re: Matcher, ok: Validators, text: bytes, rules: seq<Option<Rule>>)
    requires MatcherOk(re, text)
    ensures Serial(re, ok, text, rules).Ok? <==> AllCompiled(rules)
    decreases |rules|
  {
    hide MatcherOk, ScanOne;
    if rules != [] {
      var n := |rules| - 1;
      SerialSucceeds(re, ok, text, rules[..n]);
      CompiledScans(re, ok, text, rules[n]);
      assert rules == rules[..n] + [rules[n]];
    }
  }

  /** A rule the filter drops has no match. */
  lemma DroppedHasNone(re: Matcher, ok: Validators, lowered: bytes, text: bytes, rules: seq<Option<Rule>>, rule: Option<Rule>)
    requires MatcherOk(re, text) && KeywordsGuaranteed(re, lowered, text, rules) && rule in rules
    requires rule.Some? && rule.value.compiled && !Kept(lowered, rule)
    ensures ScanOne(re, ok, text, rule) == Ok([])
  {
    hide HasKeyword;
  }

  /** One more rule adds its own matches at the end. */
  lemma SerialSnoc(re: Matcher, ok: Validators, text: bytes, rules: seq<Option<Rule>>, r: Option<Rule>)
    requires MatcherOk(re, text) && Serial(re, ok, text, rules).Ok? && ScanOne(re, ok, text, r).Ok?
    ensures Serial(re, ok, text, rules + [r]) == Ok(Serial(re, ok, text, rules).value + ScanOne(re, ok, text, r).value)
  {
    hide MatcherOk, ScanOne;
    assert (rules + [r])[..|rules|] == rules;
  }

  lemma FilterStep(lowered: bytes, rules: seq<Option<Rule>>, n: nat)
    requires n + 1 == |rules|
    ensures Filtered(lowered, rules) == Filtered(lowered, rules[..n]) + (if Kept(lowered, rules[n]) then [rules[n]] else [])
    ensures rules == rules[..n] + [rules[n]]
  {
    hide Kept;
  }

  lemma {:induction false} FilterKeepsMatches(re: Matcher, ok: Validators, lowered: bytes, text: bytes, rules: seq<Option<Rule>>)
    requires MatcherOk(re, text) && KeywordsGuaranteed(re, lowered, text, rules) && AllCompiled(rules)
    ensures Serial(re, ok, text, Filtered(lowered, rules)) == Serial(re, ok, text, rules)
    ensures AllCompiled(Filtered(lowered, rules)) && forall r <- Filtered(lowered, rules) :: r in rules
    decreases |rules|
  {
    hide MatcherOk, ScanOne, Kept, HasKeyword, Serial, Filtered;
    if rules == [] {
      assert Filtered(lowered, rules) == rules by { NothingFiltered(lowered); }
    } else {
      var n := |rules| - 1;
      var init, last := rules[..n], rules[n];
      assert last in rules && forall r <- init :: r in rules;
      FilterKeepsMatches(re, ok, lowered, text, init);
      FilterStep(lowered, rules, n);
      SerialSucceeds(re, ok, text, init);
      CompiledScans(re, ok, text, last);
      SerialSnoc(re, ok, text, init, last);
      if Kept(lowered, last) {
        SerialSnoc(re, ok, text, Filtered(lowered, init), last);
      } else {
        DroppedHasNone(re, ok, lowered, text, rules, last);
        var all := Serial(re, ok, text, init).value;
        assert all + [] == all && Filtered(lowered, init) + [] == Filtered(lowered, init);
      }
    }
  }

  lemma NothingFiltered(lowered: bytes)
    ensures Filtered(lowered, []) == []
  {
  }

  // ---- Bucketing permutes ----

  function MatchesOf(re: Matcher, ok: Validators, text: bytes, rules: seq<Option<Rule>>): multiset<ScanMatch>
    requires MatcherOk(re, text)
  {
    match Serial(re, ok, text, rules)
    case Err(_) => multiset{}
    case Ok(ms) => multiset(ms)
  }

  /** The matches of the buckets below `b`. */
  function BucketMatches(re: Matcher, ok: Validators, text: bytes, rules: seq<Option<Rule>>, n: nat, b: nat): multiset<ScanMatch>
    requires MatcherOk(re, text) && n > 0
  {
    if b == 0 then multiset{}
    else BucketMatches(re, ok, text, rules, n, b - 1) + MatchesOf(re, ok, text, Bucket(rules, n, b - 1))
  }

  lemma MatchesSnoc(re: Matcher, ok: Validators, text: bytes, rules: seq<Option<Rule>>, r: Option<Rule>)
    requires MatcherOk(re, text) && AllCompiled(rules + [r])
    ensures AllCompiled(rules) && ScanOne(re, ok, text, r).Ok?
    ensures MatchesOf(re, ok, text, rules + [r]) == MatchesOf(re, ok, text, rules) + multiset(ScanOne(re, ok, text, r).value)
  {
    hide MatcherOk, ScanOne;
    assert forall x <- rules :: x in rules + [r];
    assert r in rules + [r];
    CompiledScans(re, ok, text, r);
    SerialSucceeds(re, ok, text, rules);
    assert (rules + [r])[..|rules|] == rules;
  }

  lemma {:induction false} BucketFromRules(rules: seq<Option<Rule>>, n: nat, b: nat)
    requires n > 0
    ensures forall r <- Bucket(rules, n, b) :: r in rules
    decreases |rules|
  {
    if rules != [] {
      var k := |rules| - 1;
      BucketFromRules(rules[..k], n, b);
      assert forall r <- rules[..k] :: r in rules;
    }
  }

  lemma BucketSnoc(rules: seq<Option<Rule>>, r: Option<Rule>, n: nat, b: nat)
    requires n > 0 && AllCompiled(rules + [r])
    ensures Bucket(rules + [r], n, b) == Bucket(rules, n, b) + if |rules| % n == b then [r] else []
    ensures AllCompiled(Bucket(rules, n, b) + [r])
  {
    assert (rules + [r])[..|rules|] == rules;
    BucketFromRules(rules, n, b);
    assert forall x <- Bucket(rules, n, b) + [r] :: x in rules + [r];
  }

  /** One more rule adds its matches to exactly one bucket. */
  lemma {:induction false} BucketsSnoc(re: Matcher, ok: Validators, text: bytes, rules: seq<Option<Rule>>, r: Option<Rule>, n: nat, b: nat)
    requires MatcherOk(re, text) && AllCompiled(rules + [r]) && n > 0 && b <= n && ScanOne(re, ok, text, r).Ok?
    ensures BucketMatches(re, ok, text, rules + [r], n, b)
         == BucketMatches(re, ok, text, rules, n, b)
            + if |rules| % n < b then multiset(ScanOne(re, ok, text, r).value) else multiset{}
    decreases b
  {
    hide MatcherOk, ScanOne, MatchesOf, Bucket, AllCompiled;
    if b > 0 {
      BucketsSnoc(re, ok, text, rules, r, n, b - 1);
      var here := Bucket(rules, n, b - 1);
      BucketSnoc(rules, r, n, b - 1);
      if |rules| % n == b - 1 {
        MatchesSnoc(re, ok, text, here, r);
      } else {
        assert here + [] == here;
      }
    }
  }

  /** All buckets together have the matches of all rules. */
  lemma {:induction false} BucketingPermutes(re: Matcher, ok: Validators, text: bytes, rules: seq<Option<Rule>>, n: nat)
    requires MatcherOk(re, text) && AllCompiled(rules) && n > 0
    ensures BucketMatches(re, ok, text, rules, n, n) == MatchesOf(re, ok, text, rules)
    decreases |rules|
  {
    hide MatcherOk, ScanOne, MatchesOf, BucketMatches;
    if rules == [] {
      EmptyBuckets(re, ok, text, n, n);
    } else {
      var k := |rules| - 1;
      assert rules == rules[..k] + [rules[k]];
      MatchesSnoc(re, ok, text, rules[..k], rules[k]);
      BucketingPermutes(re, ok, text, rules[..k], n);
      BucketsSnoc(re, ok, text, rules[..k], rules[k], n, n);
    }
  }

  lemma {:induction false} EmptyBuckets(re: Matcher, ok: Validators, text: bytes, n: nat, b: nat)
    requires MatcherOk(re, text) && n > 0
    ensures BucketMatches(re, ok, text, [], n, b) == MatchesOf(re, ok, text, []) == multiset{}
    decreases b
  {
    hide MatcherOk;
    if b > 0 {
      EmptyBuckets(re, ok, text, n, b - 1);
    }
  }

  lemma {:induction false} CollectedIsBuckets(re: Matcher, ok: Validators, text: bytes, rules: seq<Option<Rule>>, n: nat, b: nat)
    requires MatcherOk(re, text) && AllCompiled(rules) && n > 0 && b <= n
    ensures Collected(re, ok, text, rules, n, b).Ok?
    ensures BucketMatches(re, ok, text, rules, n, b) + multiset(Collected(re, ok, text, rules, n, b).value) == BucketMatches(re, ok, text, rules, n, n)
    decreases n - b
  {
    hide MatcherOk, Bucket, Serial;
    if b < n {
      CollectedIsBuckets(re, ok, text, rules, n, b + 1);
      BucketFromRules(rules, n, b);
      SerialSucceeds(re, ok, text, Bucket(rules, n, b));
    }
  }

  /** Any number of workers finds the matches the serial scan finds, in some order. */
  lemma ParallelPermutesSerial(re: Matcher, ok: Validators, text: bytes, rules: seq<Option<Rule>>, workers: nat)
    requires MatcherOk(re, text) && AllCompiled(rules) && workers > 0
    ensures Parallel(re, ok, text, rules, workers).Ok? && Serial(re, ok, text, rules).Ok?
    ensures multiset(Parallel(re, ok, text, rules, workers).value) == multiset(Serial(re, ok, text, rules).value)
  {
    hide MatcherOk, Bucket, Serial;
    SerialSucceeds(re, ok, text, rules);
    CollectedIsBuckets(re, ok, text, rules, workers, 0);
    BucketingPermutes(re, ok, text, rules, workers);
  }

  // ---- Unique rule ids give unique match ids ----

  predicate FromRules(ms: seq<ScanMatch>, rules: seq<Option<Rule>>) {
    forall m <- ms :: m.rule.Some? && m.rule in rules
  }

  lemma {:induction false} ScanHasRule(re: Matcher, ok: Validators, text: bytes, rule: Rule, pos: nat, previous: Option<nat>)
    requires MatcherOk(re, text)
    ensures forall m <- ScanFrom(re, ok, text, rule, pos, previous) :: m.rule == Some(rule) && m.start < m.end <= |text|
    decreases |text| + 1 - pos
  {
    hide MatcherOk, ScanFrom;
    if pos <= |text| && re(text, rule, pos).Some? {
      MatcherHere(re, text, rule, pos);
      ScanStep(re, ok, text, rule, pos, previous);
      var g := re(text, rule, pos).value;
      ScanHasRule(re, ok, text, rule, NextPos(text, g[0].value), Some(g[0].value.end));
    } else {
      ScanEnds(re, ok, text, rule, pos, previous);
    }
  }

  lemma ScanEnds(re: Matcher, ok: Validators, text: bytes, rule: Rule, pos: nat, previous: Option<nat>)
    requires MatcherOk(re, text) && (pos > |text| || re(text, rule, pos).None?)
    ensures ScanFrom(re, ok, text, rule, pos, previous) == []
  {
  }

  lemma {:induction false} SerialFromRules(re: Matcher, ok: Validators, text: bytes, rules: seq<Option<Rule>>)
    requires MatcherOk(re, text) && Serial(re, ok, text, rules).Ok?
    ensures FromRules(Serial(re, ok, text, rules).value, rules)
    ensures forall m <- Serial(re, ok, text, rules).value :: m.start < m.end <= |text|
    decreases |rules|
  {
    hide MatcherOk, ScanFrom;
    if rules != [] {
      var n := |rules| - 1;
      SerialFromRules(re, ok, text, rules[..n]);
      assert rules[n] in rules && forall r <- rules[..n] :: r in rules;
      if rules[n].Some? {
        ScanHasRule(re, ok, text, rules[n].value, 0, None);
      }
    }
  }

  lemma UniqueMatchIds(ms: seq<ScanMatch>, rules: seq<Option<Rule>>)
    requires FromRules(ms, rules) && DistinctIds(rules)
    ensures UniqueIds(ms)
  {
  }

  /** Candidates of the chosen rules, in some order, whatever the number of workers. */
  lemma CandidatesPermute(re: Matcher, ok: Validators, text: bytes, rules: seq<Option<Rule>>, workers: nat)
    requires MatcherOk(re, text) && AllCompiled(rules) && (workers > 0 || rules == [])
    ensures Candidates(re, ok, text, rules, workers).Ok? && Serial(re, ok, text, rules).Ok?
    ensures multiset(Candidates(re, ok, text, rules, workers).value) == multiset(Serial(re, ok, text, rules).value)
  {
    hide MatcherOk, Serial, Parallel;
    SerialSucceeds(re, ok, text, rules);
    if workers > 0 {
      ParallelPermutesSerial(re, ok, text, rules, workers);
    }
  }

  /** The scan of compiled rules with distinct ids is the resolved serial scan of all of them: neither the filter nor the workers change it. */
  lemma ScanIsSerialScan(re: Matcher, ok: Validators, lower: bytes -> bytes, text: bytes, rules: seq<Option<Rule>>, opts: Options, hardware: nat)
    requires MatcherOk(re, text) && AllCompiled(rules) && DistinctIds(rules) && KeywordsGuaranteed(re, lower(text), text, rules)
    ensures Serial(re, ok, text, rules).Ok?
    ensures Scan(re, ok, lower, text, rules, opts, hardware) == Ok(Resolved(Serial(re, ok, text, rules).value))
  {
    hide MatcherOk, Serial, Parallel, Resolved, KeywordsGuaranteed, DistinctIds, AllCompiled, UniqueIds, FromRules, Candidates, Filtered, Kept;
    var active := Active(lower, text, rules, opts);
    var workers := WorkerCount(|active|, opts.maxWorkers, hardware);
    FilterKeepsMatches(re, ok, lower(text), text, rules);
    SerialSucceeds(re, ok, text, rules);
    CandidatesPermute(re, ok, text, active, workers);
    SerialFromRules(re, ok, text, rules);
    var all := Serial(re, ok, text, rules).value;
    UniqueMatchIds(all, rules);
    SameResolved(all, Candidates(re, ok, text, active, workers).value);
  }

  lemma SameResolved(all: seq<ScanMatch>, found: seq<ScanMatch>)
    requires multiset(found) == multiset(all) && UniqueIds(all)
    ensures Resolved(found) == Resolved(all)
  {
    hide Merged, SortMatches, UniqueIds;
    SortMatchesSorts(found);
    ResolvedDependsOnMultiset(all, found, SortMatches(found));
  }

  /** Two scans of the same text with any two options and machines give the same result. */
  lemma OptionsDoNotMatter(re: Matcher, ok: Validators, lower: bytes -> bytes, text: bytes, rules: seq<Option<Rule>>,
                           o1: Options, h1: nat, o2: Options, h2: nat)
    requires MatcherOk(re, text) && AllCompiled(rules) && DistinctIds(rules) && KeywordsGuaranteed(re, lower(text), text, rules)
    ensures Scan(re, ok, lower, text, rules, o1, h1) == Scan(re, ok, lower, text, rules, o2, h2)
  {
    hide MatcherOk, Serial, Resolved, KeywordsGuaranteed, DistinctIds, Scan;
    ScanIsSerialScan(re, ok, lower, text, rules, o1, h1);
    ScanIsSerialScan(re, ok, lower, text, rules, o2, h2);
  }

  lemma {:induction false} CollectedSucceeds(re: Matcher, ok: Validators, text: bytes, rules: seq<Option<Rule>>, n: nat, b: nat)
    requires MatcherOk(re, text) && n > 0 && b <= n
    ensures Collected(re, ok, text, rules, n, b).Ok? <==> forall c | b <= c < n :: AllCompiled(Bucket(rules, n, c))
    decreases n - b
  {
    hide MatcherOk, Bucket, Serial, AllCompiled;
    if b < n {
      SerialSucceeds(re, ok, text, Bucket(rules, n, b));
      CollectedSucceeds(re, ok, text, rules, n, b + 1);
      assert (forall c | b <= c < n :: AllCompiled(Bucket(rules, n, c)))
             <==> AllCompiled(Bucket(rules, n, b)) && forall c | b + 1 <= c < n :: AllCompiled(Bucket(rules, n, c));
    }
  }

  lemma {:induction false} RuleInBucket(rules: seq<Option<Rule>>, n: nat, i: nat)
    requires n > 0 && i < |rules|
    ensures rules[i] in Bucket(rules, n, i % n)
    decreases |rules|
  {
    var k := |rules| - 1;
    if i < k {
      RuleInBucket(rules[..k], n, i);
    }
  }

  /** A scan succeeds exactly when every rule it runs is there and compiled; any other rule makes it fail, serially or in a worker. */
  lemma ScanSucceedsIffCompiled(re: Matcher, ok: Validators, lower: bytes -> bytes, text: bytes, rules: seq<Option<Rule>>, opts: Options, hardware: nat)
    requires MatcherOk(re, text)
    ensures Scan(re, ok, lower, text, rules, opts, hardware).Ok? <==> AllCompiled(Active(lower, text, rules, opts))
  {
    hide MatcherOk, Serial, Collected, Filtered, Resolved;
    var active := Active(lower, text, rules, opts);
    var n := WorkerCount(|active|, opts.maxWorkers, hardware);
    SerialSucceeds(re, ok, text, active);
    if n > 0 {
      CollectedSucceeds(re, ok, text, active, n, 0);
      BucketsAreAll(active, n);
    }
  }

  lemma BucketsAreAll(rules: seq<Option<Rule>>, n: nat)
    requires n > 0
    ensures (forall c | 0 <= c < n :: AllCompiled(Bucket(rules, n, c))) <==> AllCompiled(rules)
  {
    hide Bucket, AllCompiled;
    if AllCompiled(rules) {
      forall c | 0 <= c < n ensures AllCompiled(Bucket(rules, n, c)) {
        BucketFromRules(rules, n, c);
        FewerCompiled(rules, Bucket(rules, n, c));
      }
    } else {
      var i := BadRule(rules);
      RuleInBucket(rules, n, i);
      var c := i % n;
      assert 0 <= c < n;
      assert !AllCompiled(Bucket(rules, n, c)) by { BadAmong(rules, i, Bucket(rules, n, c)); }
    }
  }

  lemma FewerCompiled(rules: seq<Option<Rule>>, some: seq<Option<Rule>>)
    requires AllCompiled(rules) && forall r <- some :: r in rules
    ensures AllCompiled(some)
  {
  }

  lemma BadRule(rules: seq<Option<Rule>>) returns (i: nat)
    requires !AllCompiled(rules)
    ensures i < |rules| && !(rules[i].Some? && rules[i].value.compiled)
  {
    i :| i < |rules| && !(rules[i].Some? && rules[i].value.compiled);
  }

  lemma BadAmong(rules: seq<Option<Rule>>, i: nat, some: seq<Option<Rule>>)
    requires i < |rules| && !(rules[i].Some? && rules[i].value.compiled) && rules[i] in some
    ensures !AllCompiled(some)
  {
  }
}
