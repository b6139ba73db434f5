/**
 Which regex matches a scan reports, told from the engine's answers alone: the search
 goes from offset 0 past each match, and a match is reported exactly when its first
 configured group that took part and is not empty is long enough and passes the
 validators.
 */
module Survivors {
  import opened Bytes
  import opened Rules
  import opened Conflicts
  import opened Scanner
  import Runes

  // ---- What a match contributes ----

  /** Group `i` exists, took part in the match, and is not empty. */
  predicate Usable(g: Groups, i: int) {
    0 <= i < |g| && g[i].Some? && g[i].value.start < g[i].value.end
  }

  /** The group that holds the sensitive bytes: the first usable one of those wanted, group 0 when none is. */
  predicate IsSensitive(g: Groups, wanted: seq<int>, s: Group) {
    if wanted == [] then Usable(g, 0) && g[0].value == s
    else exists k | 0 <= k < |wanted| :: FirstUsable(g, wanted, k, s)
  }

  predicate FirstUsable(g: Groups, wanted: seq<int>, k: nat, s: Group) {
    k < |wanted| && Usable(g, wanted[k]) && g[wanted[k]].value == s && forall j | 0 <= j < k :: !Usable(g, wanted[j])
  }

  /** `m` is what a match with groups `g` is reported as. */
  predicate Reported(ok: Validators, text: bytes, rule: Rule, g: Groups, m: ScanMatch) {
    && m.rule == Some(rule) && m.end <= |text| && m.start < m.end
    && IsSensitive(g, rule.captureGroups, Group(m.start, m.end))
    && m.end - m.start >= rule.minLength && ok(text[m.start..m.end], rule)
  }

  // ---- The search ----

  /** Where the search goes on after the match `whole`: at its end, or past the rune (or stray byte) an empty one stands at. */
  predicate Follows(text: bytes, whole: Group, next: nat) {
    if whole.start < whole.end then next == whole.end
    else if whole.start >= |text| then next > |text|
    else
      var n := Runes.RuneLength(text[whole.start..]);
      next == whole.start + (if n > 0 then n else 1)
  }

  /** The engine has a match from `p` on. */
  ghost predicate MatchesAt(re: Matcher, text: bytes, rule: Rule, p: nat) {
    p <= |text| && re(text, rule, p).Some? && GroupsIn(text, p, re(text, rule, p).value)
  }

  ghost function WholeAt(re: Matcher, text: bytes, rule: Rule, p: nat): Group
    requires MatchesAt(re, text, rule, p)
  {
    re(text, rule, p).value[0].value
  }

  /** Offsets from which the engine finds a match, each where the search goes on after the one before. */
  ghost predicate SearchPath(re: Matcher, text: bytes, rule: Rule, from: nat, path: seq<nat>) {
    && path != [] && path[0] == from
    && (forall i | 0 <= i < |path| :: MatchesAt(re, text, rule, path[i]))
    && (forall i | 0 <= i < |path| - 1 :: MatchesAt(re, text, rule, path[i]) && Follows(text, WholeAt(re, text, rule, path[i]), path[i + 1]))
  }

  ghost predicate ReportedAfter(re: Matcher, ok: Validators, text: bytes, rule: Rule, from: nat, path: seq<nat>, m: ScanMatch) {
    SearchPath(re, text, rule, from, path) && Reported(ok, text, rule, re(text, rule, path[|path| - 1]).value, m)
  }

  /** The search from `from` on comes to a match that is reported as `m`. */
  ghost predicate ReportedFrom(re: Matcher, ok: Validators, text: bytes, rule: Rule, from: nat, m: ScanMatch) {
    exists path: seq<nat> :: ReportedAfter(re, ok, text, rule, from, path, m)
  }

  // ---- One match ----

  lemma {:induction false} FirstGroupIsFirst(g: Groups, wanted: seq<int>, s: Group)
    requires wanted != []
    ensures FirstGroup(g, wanted) == Some(s) <==> IsSensitive(g, wanted, s)
    decreases |wanted|
  {
    hide FirstGroup;
    var rest := wanted[1..];
    FirstGroupStep(g, wanted);
    if Usable(g, wanted[0]) {
      if g[wanted[0]].value == s {
        assert FirstUsable(g, wanted, 0, s);
      }
    } else if rest != [] {
      FirstGroupIsFirst(g, rest, s);
      SensitiveTail(g, wanted, s);
    }
  }

  lemma FirstGroupStep(g: Groups, wanted: seq<int>)
    requires wanted != []
    ensures Usable(g, wanted[0]) ==> FirstGroup(g, wanted) == g[wanted[0]]
    ensures !Usable(g, wanted[0]) ==> FirstGroup(g, wanted) == FirstGroup(g, wanted[1..])
    ensures FirstGroup(g, []) == None
  {
  }

  lemma SensitiveTail(g: Groups, wanted: seq<int>, s: Group)
    requires |wanted| > 1 && !Usable(g, wanted[0])
    ensures IsSensitive(g, wanted[1..], s) <==> IsSensitive(g, wanted, s)
  {
    var rest := wanted[1..];
    assert forall j | 0 <= j < |rest| :: rest[j] == wanted[j + 1];
    if IsSensitive(g, rest, s) {
      var k :| 0 <= k < |rest| && FirstUsable(g, rest, k, s);
      forall j | 0 <= j < k + 1 ensures !Usable(g, wanted[j]) {
        assert j > 0 ==> wanted[j] == rest[j - 1];
      }
      assert FirstUsable(g, wanted, k + 1, s);
    }
    if IsSensitive(g, wanted, s) {
      var k :| 0 <= k < |wanted| && FirstUsable(g, wanted, k, s);
      assert FirstUsable(g, rest, k - 1, s);
    }
  }

  lemma SpanIsSensitive(g: Groups, rule: Rule, s: Group)
    requires |g| > 0 && g[0].Some?
    ensures SensitiveSpan(g, rule) == Some(s) <==> IsSensitive(g, rule.captureGroups, s)
  {
    if rule.captureGroups != [] {
      FirstGroupIsFirst(g, rule.captureGroups, s);
    }
  }

  lemma AcceptedIsReported(ok: Validators, text: bytes, rule: Rule, pos: nat, g: Groups, m: ScanMatch)
    requires GroupsIn(text, pos, g)
    ensures m in Accepted(text, ok, rule, g) <==> Reported(ok, text, rule, g, m)
  {
    hide IsSensitive, FirstGroup, SensitiveSpan;
    SpanIsSensitive(g, rule, Group(m.start, m.end));
    SpanIn(text, rule, g, pos);
  }

  /** An empty match has no group that is not empty. */
  lemma EmptyMatchReportsNothing(ok: Validators, text: bytes, rule: Rule, pos: nat, g: Groups)
    requires GroupsIn(text, pos, g) && g[0].value.start == g[0].value.end
    ensures Accepted(text, ok, rule, g) == []
  {
    hide FirstGroup;
    FirstGroupIsGroup(text, pos, g, rule.captureGroups);
  }

  lemma NextFollows(text: bytes, pos: nat, g: Groups)
    requires GroupsIn(text, pos, g)
    ensures Follows(text, g[0].value, NextPos(text, g[0].value))
  {
    hide Runes.RuneLength;
  }

  /** One step of the search, whatever match came before. */
  lemma SearchStep(re: Matcher, ok: Validators, text: bytes, rule: Rule, pos: nat, previous: Option<nat>)
    requires MatcherOk(re, text) && pos <= |text| && re(text, rule, pos).Some?
    ensures MatchesAt(re, text, rule, pos)
    ensures var g := re(text, rule, pos).value;
      && NextPos(text, g[0].value) > pos && Follows(text, g[0].value, NextPos(text, g[0].value))
      && ScanFrom(re, ok, text, rule, pos, previous)
         == Accepted(text, ok, rule, g) + ScanFrom(re, ok, text, rule, NextPos(text, g[0].value), Some(g[0].value.end))
  {
    hide MatcherOk, ScanFrom, Accepted, Follows, NextPos;
    MatcherHere(re, text, rule, pos);
    var g := re(text, rule, pos).value;
    ScanStep(re, ok, text, rule, pos, previous);
    NextFollows(text, pos, g);
    if g[0].value.start == g[0].value.end {
      EmptyMatchReportsNothing(ok, text, rule, pos, g);
    }
  }

  // ---- Paths ----

  lemma PathOfOne(re: Matcher, text: bytes, rule: Rule, from: nat)
    requires MatchesAt(re, text, rule, from)
    ensures SearchPath(re, text, rule, from, [from])
  {
  }

  lemma PathGrows(re: Matcher, text: bytes, rule: Rule, from: nat, path: seq<nat>)
    requires MatchesAt(re, text, rule, from) && path != []
    requires Follows(text, WholeAt(re, text, rule, from), path[0]) && SearchPath(re, text, rule, path[0], path)
    ensures SearchPath(re, text, rule, from, [from] + path)
  {
    hide MatchesAt, Follows, WholeAt;
    var all := [from] + path;
    forall i | 0 <= i < |all| ensures MatchesAt(re, text, rule, all[i]) {
      assert i > 0 ==> all[i] == path[i - 1];
    }
    forall i | 0 <= i < |all| - 1
      ensures MatchesAt(re, text, rule, all[i]) && Follows(text, WholeAt(re, text, rule, all[i]), all[i + 1])
    {
      assert all[i + 1] == path[i];
      if i > 0 {
        assert all[i] == path[i - 1];
      }
    }
  }

  lemma PathTail(re: Matcher, text: bytes, rule: Rule, from: nat, path: seq<nat>)
    requires SearchPath(re, text, rule, from, path) && |path| > 1
    ensures MatchesAt(re, text, rule, from) && Follows(text, WholeAt(re, text, rule, from), path[1])
    ensures SearchPath(re, text, rule, path[1], path[1..])
  {
    hide MatchesAt, Follows, WholeAt;
    var rest := path[1..];
    assert forall i | 0 <= i < |rest| :: rest[i] == path[i + 1];
    assert Follows(text, WholeAt(re, text, rule, path[0]), path[0 + 1]);
  }

  lemma PathStarts(re: Matcher, text: bytes, rule: Rule, from: nat, path: seq<nat>)
    requires SearchPath(re, text, rule, from, path)
    ensures MatchesAt(re, text, rule, from) && from <= |text| && re(text, rule, from).Some?
  {
  }

  lemma FollowsOnce(text: bytes, whole: Group, a: nat, b: nat)
    requires Follows(text, whole, a) && Follows(text, whole, b)
    ensures a == b || (a > |text| && b > |text|)
  {
    hide Runes.RuneLength;
  }

  /** A match here is reported now, or it is reported by the search that goes on at `next`. */
  lemma ReportedNowOrLater(re: Matcher, ok: Validators, text: bytes, rule: Rule, from: nat, next: nat, m: ScanMatch)
    requires MatchesAt(re, text, rule, from) && Follows(text, WholeAt(re, text, rule, from), next)
    ensures ReportedFrom(re, ok, text, rule, from, m)
       <==> Reported(ok, text, rule, re(text, rule, from).value, m) || ReportedFrom(re, ok, text, rule, next, m)
  {
    hide MatchesAt, Follows, WholeAt, SearchPath, Reported;
    PathOfOne(re, text, rule, from);
    PathStarts(re, text, rule, from, [from]);
    if Reported(ok, text, rule, re(text, rule, from).value, m) {
      assert ReportedAfter(re, ok, text, rule, from, [from], m);
    }
    if ReportedFrom(re, ok, text, rule, next, m) {
      var path :| ReportedAfter(re, ok, text, rule, next, path, m);
      PathHead(re, text, rule, next, path);
      PathGrows(re, text, rule, from, path);
      assert ReportedAfter(re, ok, text, rule, from, [from] + path, m);
    }
    if ReportedFrom(re, ok, text, rule, from, m) {
      var path :| ReportedAfter(re, ok, text, rule, from, path, m);
      PathHead(re, text, rule, from, path);
      if |path| > 1 {
        PathTail(re, text, rule, from, path);
        PathStarts(re, text, rule, path[1], path[1..]);
        FollowsOnce(text, WholeAt(re, text, rule, from), next, path[1]);
        assert ReportedAfter(re, ok, text, rule, next, path[1..], m);
      }
    }
  }

  lemma PathHead(re: Matcher, text: bytes, rule: Rule, from: nat, path: seq<nat>)
    requires SearchPath(re, text, rule, from, path)
    ensures path != [] && path[0] == from
  {
  }

  // ---- One rule ----

  lemma {:induction false} ScanIsSearch(re: Matcher, ok: Validators, text: bytes, rule: Rule, pos: nat, previous: Option<nat>, m: ScanMatch)
    requires MatcherOk(re, text)
    ensures m in ScanFrom(re, ok, text, rule, pos, previous) <==> ReportedFrom(re, ok, text, rule, pos, m)
    decreases |text| + 1 - pos
  {
    hide MatcherOk, ScanFrom, Accepted, NextPos, Follows, MatchesAt, Reported, SearchPath;
    if pos <= |text| && re(text, rule, pos).Some? {
      MatcherHere(re, text, rule, pos);
      SearchStep(re, ok, text, rule, pos, previous);
      var g := re(text, rule, pos).value;
      var next := NextPos(text, g[0].value);
      ScanIsSearch(re, ok, text, rule, next, Some(g[0].value.end), m);
      AcceptedIsReported(ok, text, rule, pos, g, m);
      ReportedNowOrLater(re, ok, text, rule, pos, next, m);
    } else {
      ScanEnds(re, ok, text, rule, pos, previous);
      if ReportedFrom(re, ok, text, rule, pos, m) {
        var path :| ReportedAfter(re, ok, text, rule, pos, path, m);
        PathStarts(re, text, rule, pos, path);
      }
    }
  }

  /** Matches are reported in order, and no two share a byte. */
  lemma {:induction false} ScanInOrder(re: Matcher, ok: Validators, text: bytes, rule: Rule, pos: nat, previous: Option<nat>)
    requires MatcherOk(re, text)
    ensures Separate(ScanFrom(re, ok, text, rule, pos, previous)) && StartsFrom(ScanFrom(re, ok, text, rule, pos, previous), pos)
    decreases |text| + 1 - pos
  {
    hide MatcherOk, ScanFrom, Accepted, NextPos, Follows, MatchesAt;
    if pos <= |text| && re(text, rule, pos).Some? {
      MatcherHere(re, text, rule, pos);
      SearchStep(re, ok, text, rule, pos, previous);
      var g := re(text, rule, pos).value;
      var next := NextPos(text, g[0].value);
      var later := ScanFrom(re, ok, text, rule, next, Some(g[0].value.end));
      ScanInOrder(re, ok, text, rule, next, Some(g[0].value.end));
      AcceptedWithin(ok, text, rule, pos, g);
      var now := Accepted(text, ok, rule, g);
      if now == [] {
        assert now + later == later;
      } else {
        assert now == [now[0]];
        SeparateCons(now[0], later);
      }
    } else {
      ScanEnds(re, ok, text, rule, pos, previous);
    }
  }

  lemma AcceptedWithin(ok: Validators, text: bytes, rule: Rule, pos: nat, g: Groups)
    requires GroupsIn(text, pos, g)
    ensures |Accepted(text, ok, rule, g)| <= 1
    ensures forall m <- Accepted(text, ok, rule, g) :: pos <= m.start && m.end <= NextPos(text, g[0].value)
  {
    hide FirstGroup;
    FirstGroupIsGroup(text, pos, g, rule.captureGroups);
  }

  /**
   The scan of one compiled rule reports a match exactly when the search comes to it and
   its sensitive group is long enough and valid, once each and in order.
   */
  lemma RuleReportsSurvivors(re: Matcher, ok: Validators, text: bytes, rule: Rule)
    requires MatcherOk(re, text) && rule.compiled
    ensures ScanOne(re, ok, text, Some(rule)).Ok?
    ensures var found := ScanOne(re, ok, text, Some(rule)).value;
      Separate(found) && NonEmpty(found) && forall m :: m in found <==> ReportedFrom(re, ok, text, rule, 0, m)
  {
    hide MatcherOk, ScanFrom, ReportedFrom;
    var found := ScanOne(re, ok, text, Some(rule)).value;
    forall m ensures m in found <==> ReportedFrom(re, ok, text, rule, 0, m) {
      if text == [] {
        EmptyTextReportsNothing(re, ok, rule, m);
      } else {
        ScanIsSearch(re, ok, text, rule, 0, None, m);
      }
    }
    ScanInOrder(re, ok, text, rule, 0, None);
    ScanHasRule(re, ok, text, rule, 0, None);
  }

  lemma EmptyTextReportsNothing(re: Matcher, ok: Validators, rule: Rule, m: ScanMatch)
    ensures !ReportedFrom(re, ok, [], rule, 0, m)
  {
  }

  // ---- All rules ----

  /** Some rule reports `m`. */
  ghost predicate Survives(re: Matcher, ok: Validators, text: bytes, rules: seq<Option<Rule>>, m: ScanMatch) {
    exists r <- rules :: r.Some? && ReportedFrom(re, ok, text, r.value, 0, m)
  }

  lemma {:induction false} SerialReportsSurvivors(re: Matcher, ok: Validators, text: bytes, rules: seq<Option<Rule>>, m: ScanMatch)
    requires MatcherOk(re, text) && AllCompiled(rules)
    ensures Serial(re, ok, text, rules).Ok? && (m in Serial(re, ok, text, rules).value <==> Survives(re, ok, text, rules, m))
    decreases |rules|
  {
    hide MatcherOk, ScanOne, ReportedFrom;
    SerialSucceeds(re, ok, text, rules);
    if rules != [] {
      var n := |rules| - 1;
      assert rules == rules[..n] + [rules[n]];
      assert forall r <- rules[..n] :: r in rules;
      assert rules[n] in rules;
      SerialReportsSurvivors(re, ok, text, rules[..n], m);
      CompiledScans(re, ok, text, rules[n]);
      RuleReportsSurvivors(re, ok, text, rules[n].value);
      assert m in ScanOne(re, ok, text, rules[n]).value <==> ReportedFrom(re, ok, text, rules[n].value, 0, m);
    }
  }

  /** `out` is `ms` with overlapping matches joined: separate spans, the same bytes, nothing joined that only touches, each named by its longest match. */
  ghost predicate Joins(out: seq<ScanMatch>, ms: seq<ScanMatch>) {
    && Separate(out) && NonEmpty(out)
    && (forall x :: Covered(out, x) <==> Covered(ms, x))
    && (forall o <- out :: NamedByLongest(o, ms) && Unbroken(o, ms))
  }

  /**
   What a scan returns: the matches that survive, over all rules, with overlapping ones
   joined. Neither the keyword filter nor the workers take part in the answer.
   */
  lemma ScanJoinsSurvivors(re: Matcher, ok: Validators, lower: bytes -> bytes, text: bytes, rules: seq<Option<Rule>>, opts: Options, hardware: nat)
      returns (ms: seq<ScanMatch>)
    requires MatcherOk(re, text) && AllCompiled(rules) && DistinctIds(rules) && KeywordsGuaranteed(re, lower(text), text, rules)
    ensures forall m :: m in ms <==> Survives(re, ok, text, rules, m)
    ensures Scan(re, ok, lower, text, rules, opts, hardware).Ok? && Joins(Scan(re, ok, lower, text, rules, opts, hardware).value, ms)
  {
    hide MatcherOk, AllCompiled, DistinctIds, KeywordsGuaranteed, Serial, Scan, Survives, Covered, NamedByLongest, Unbroken, Separate, Merged, SortMatches, IsSortOf;
    ScanIsSerialScan(re, ok, lower, text, rules, opts, hardware);
    SerialFromRules(re, ok, text, rules);
    ms := Serial(re, ok, text, rules).value;
    forall m ensures m in ms <==> Survives(re, ok, text, rules, m) {
      SerialReportsSurvivors(re, ok, text, rules, m);
    }
    SortMatchesSorts(ms);
    ResolvedConservesCoverage(ms, SortMatches(ms));
  }

  // ---- Failures ----

  predicate Runnable(rule: Option<Rule>) {
    rule.Some? && rule.value.compiled
  }

  /** A rule that cannot be run, and how its scan fails. */
  predicate FailsAs(rule: Option<Rule>, e: ScanError) {
    match rule
    case None => e == NullRule
    case Some(r) => !r.compiled && e == NullRegex(r.id)
  }

  /** A serial scan fails as the first rule that cannot be run, if there is one. */
  lemma {:induction false} SerialFailsFirst(re: Matcher, ok: Validators, text: bytes, rules: seq<Option<Rule>>, k: nat)
    requires MatcherOk(re, text) && k < |rules| && !Runnable(rules[k]) && forall j | 0 <= j < k :: Runnable(rules[j])
    ensures Serial(re, ok, text, rules).Err? && FailsAs(rules[k], Serial(re, ok, text, rules).error)
    decreases |rules|
  {
    hide MatcherOk;
    var n := |rules| - 1;
    if k < n {
      SerialFailsFirst(re, ok, text, rules[..n], k);
    } else {
      SerialSucceeds(re, ok, text, rules[..n]);
    }
  }

  /** The buckets from `k` on fail as the first one with such a rule does, whatever the buckets after it do. */
  lemma {:induction false} CollectedFailsFirst(re: Matcher, ok: Validators, text: bytes, rules: seq<Option<Rule>>, n: nat, b: nat, k: nat)
    requires MatcherOk(re, text) && k <= b < n && !AllCompiled(Bucket(rules, n, b))
    requires forall c | k <= c < b :: AllCompiled(Bucket(rules, n, c))
    ensures Serial(re, ok, text, Bucket(rules, n, b)).Err?
    ensures Collected(re, ok, text, rules, n, k) == Err(WorkerFailed(Serial(re, ok, text, Bucket(rules, n, b)).error))
    decreases b - k
  {
    hide MatcherOk, Bucket, Serial, AllCompiled;
    SerialSucceeds(re, ok, text, Bucket(rules, n, k));
    if k < b {
      CollectedFailsFirst(re, ok, text, rules, n, b, k + 1);
    }
  }

  /** A parallel scan reports the failure of the first bucket that fails. */
  lemma ParallelFailsFirst(re: Matcher, ok: Validators, text: bytes, rules: seq<Option<Rule>>, n: nat, b: nat)
    requires MatcherOk(re, text) && b < n && !AllCompiled(Bucket(rules, n, b))
    requires forall c | 0 <= c < b :: AllCompiled(Bucket(rules, n, c))
    ensures Serial(re, ok, text, Bucket(rules, n, b)).Err?
    ensures Parallel(re, ok, text, rules, n) == Err(WorkerFailed(Serial(re, ok, text, Bucket(rules, n, b)).error))
  {
    hide MatcherOk, Bucket, Serial, AllCompiled, Collected;
    CollectedFailsFirst(re, ok, text, rules, n, b, 0);
  }

  // ---- The filter ----

  /** Without keywords to look for, or with one of them in the text. */
  ghost predicate MayMatch(lowered: bytes, rule: Option<Rule>) {
    rule.None? || !rule.value.eligible
    || exists kw <- rule.value.keywords, i: nat :: kw != [] && At(lowered, i, kw)
  }

  /** The filter keeps exactly the rules that may match, in order. */
  lemma {:induction false} FilterKeepsExactly(lowered: bytes, rules: seq<Option<Rule>>, more: seq<Option<Rule>>)
    ensures forall r :: r in Filtered(lowered, rules) <==> r in rules && MayMatch(lowered, r)
    ensures Filtered(lowered, rules + more) == Filtered(lowered, rules) + Filtered(lowered, more)
    decreases |rules| + |more|, |more|
  {
    hide Kept, MayMatch;
    if more != [] {
      var n := |more| - 1;
      FilterKeepsExactly(lowered, rules, more[..n]);
      assert (rules + more)[..|rules| + n] == rules + more[..n];
    } else {
      assert rules + more == rules;
      if rules != [] {
        var n := |rules| - 1;
        FilterKeepsExactly(lowered, rules[..n], []);
        assert rules == rules[..n] + [rules[n]];
        KeptMayMatch(lowered, rules[n]);
      }
    }
  }

  lemma KeptMayMatch(lowered: bytes, rule: Option<Rule>)
    ensures Kept(lowered, rule) <==> MayMatch(lowered, rule)
  {
    if rule.Some? {
      forall kw <- rule.value.keywords ensures Contains(lowered, kw) <==> exists i: nat :: At(lowered, i, kw) {
        if i: nat :| At(lowered, i, kw) {
          assert i <= |lowered|;
        }
      }
    }
  }
}
