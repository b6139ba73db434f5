/**
 Mask, then demask: minted placeholders are all different and stand in no input text, so
 the exact pass gives every text back, whatever literals of the same shape it contained.
 */
module RoundTrip {
  import opened Bytes
  import opened Rules
  import opened Placeholders
  import opened Masker
  import opened Replacer
  import opened Streaming

  // ---- What every masking state keeps ----

  /** `p` was rendered with an index the counter of its type has reached, and it is not reserved. */
  ghost predicate Minted(reserved: set<bytes>, counters: map<bytes, nat>, p: bytes) {
    p !in reserved && exists t, n: nat :: n <= Counter(counters, t) && p == Render(t, n)
  }

  predicate DistinctReplacements(reps: seq<Replacement>) {
    forall i, j | 0 <= i < j < |reps| :: reps[i].placeholder != reps[j].placeholder && reps[i].original != reps[j].original
  }

  /** The map and the list of replacements say the same. */
  ghost predicate Agree(st: State) {
    && (forall i | 0 <= i < |st.replacements| ::
          var r := st.replacements[i]; r.original in st.originals && st.originals[r.original] == r.placeholder)
    && (forall o <- st.originals :: exists i | 0 <= i < |st.replacements| :: st.replacements[i].original == o)
  }

  ghost predicate Inv(reserved: set<bytes>, st: State) {
    && Agree(st) && DistinctReplacements(st.replacements)
    && forall i | 0 <= i < |st.replacements| :: Minted(reserved, st.counters, st.replacements[i].placeholder)
  }

  lemma StillMinted(reserved: set<bytes>, counters: map<bytes, nat>, type_: bytes, n: nat, p: bytes)
    requires Minted(reserved, counters, p) && n > Counter(counters, type_)
    ensures Minted(reserved, counters[type_ := n], p) && p != Render(type_, n)
  {
    hide Render;
    var t, m: nat :| m <= Counter(counters, t) && p == Render(t, m);
    assert m <= Counter(counters[type_ := n], t);
    if p == Render(type_, n) {
      RenderInjective(t, m, type_, n);
    }
  }

  /** Minting is fresh: the new placeholder is not reserved and differs from every earlier one, whatever the types. */
  lemma AssignKeepsInv(reserved: set<bytes>, st: State, original: bytes, rule: Rule)
    requires Inv(reserved, st)
    ensures var a := Assign(reserved, st, original, rule);
      && Inv(reserved, a.1)
      && st.replacements <= a.1.replacements
      && (exists i | 0 <= i < |a.1.replacements| :: a.1.replacements[i].original == original && a.1.replacements[i].placeholder == a.0)
  {
    hide NextIndex, Render, Minted;
    if original !in st.originals {
      var type_ := rule.placeholder;
      var n := NextIndex(reserved, type_, Counter(st.counters, type_));
      AllAhead(reserved, type_, Counter(st.counters, type_));
      NextIndexIsLeast(reserved, reserved, type_, Counter(st.counters, type_));
      var now := Assign(reserved, st, original, rule).1;
      var k := |st.replacements|;
      forall i | 0 <= i < k
        ensures Minted(reserved, now.counters, now.replacements[i].placeholder)
        ensures now.replacements[i].placeholder != Render(type_, n) && now.replacements[i].original != original
      {
        StillMinted(reserved, st.counters, type_, n, st.replacements[i].placeholder);
      }
      FreshlyMinted(reserved, now.counters, type_, n);
      AgreeStep(st, now, original, now.replacements[k]);
      assert now.replacements[k].original == original;
    }
  }

  lemma FreshlyMinted(reserved: set<bytes>, counters: map<bytes, nat>, type_: bytes, n: nat)
    requires n <= Counter(counters, type_) && Render(type_, n) !in reserved
    ensures Minted(reserved, counters, Render(type_, n))
  {
  }

  lemma AgreeStep(st: State, now: State, original: bytes, r: Replacement)
    requires Agree(st) && original !in st.originals && r.original == original
    requires now.originals == st.originals[original := r.placeholder] && now.replacements == st.replacements + [r]
    ensures Agree(now)
  {
    forall o <- now.originals ensures exists i | 0 <= i < |now.replacements| :: now.replacements[i].original == o {
      if o == original {
        assert now.replacements[|st.replacements|].original == o;
      } else {
        var i :| 0 <= i < |st.replacements| && st.replacements[i].original == o;
        assert now.replacements[i].original == o;
      }
    }
  }

  lemma FreshInv(reserved: set<bytes>)
    ensures Inv(reserved, FRESH)
  {
  }

  lemma SeenKeepsInv(reserved: set<bytes>, st: State, rule: Rule)
    requires Inv(reserved, st)
    ensures Inv(reserved, Seen(st, rule)) && Seen(st, rule).replacements == st.replacements
  {
    hide Minted;
  }

  /** Masking a text keeps the invariant, and only adds replacements. */
  lemma {:induction false} WalkKeepsInv(reserved: set<bytes>, st: State, text: bytes, ms: seq<ScanMatch>, pos: nat, out: bytes)
    requires Inv(reserved, st)
    ensures var now := Walk(reserved, st, text, ms, pos, out).1; Inv(reserved, now) && st.replacements <= now.replacements
    decreases |ms|
  {
    hide Inv, Assign, Seen, Taken;
    if ms != [] && ms[0].rule.Some? {
      var m, rule := ms[0], ms[0].rule.value;
      if m.start < pos || (m.start <= |text| && (Taken(text, m) == [] || rule.placeholder == [])) {
        WalkKeepsInv(reserved, st, text, ms[1..], pos, out);
      } else if m.start <= |text| {
        var a := Assign(reserved, st, Taken(text, m), rule);
        AssignKeepsInv(reserved, st, Taken(text, m), rule);
        SeenKeepsInv(reserved, a.1, rule);
        WalkKeepsInv(reserved, Seen(a.1, rule), text, ms[1..], m.end, out + text[pos..m.start] + a.0);
      }
    }
  }

  lemma {:induction false} TextsKeepInv(reserved: set<bytes>, st: State, texts: seq<bytes>, matches: seq<seq<ScanMatch>>)
    requires |matches| == |texts| && Inv(reserved, st)
    ensures var now := MaskedTexts(reserved, st, texts, matches).1; Inv(reserved, now) && st.replacements <= now.replacements
    decreases |texts|
  {
    hide Inv, Walk;
    if texts != [] {
      WalkKeepsInv(reserved, st, texts[0], matches[0], 0, []);
      var first := MaskedText(reserved, st, texts[0], matches[0]);
      if first.0.Ok? {
        TextsKeepInv(reserved, first.1, texts[1..], matches[1..]);
      }
    }
  }

  // ---- Triggered rules ----

  /** Every replacement's rule and triggerable data type are noted, and only triggerable data types are. */
  predicate Noted(st: State) {
    && (forall i | 0 <= i < |st.replacements| ::
          var r := st.replacements[i];
          r.ruleId in st.seenRules && (IsTriggerable(r.dataType) ==> r.dataType in st.seenDataTypes))
    && (forall dt <- st.seenDataTypes :: IsTriggerable(dt))
  }

  lemma StepNotes(reserved: set<bytes>, st: State, original: bytes, rule: Rule)
    requires Noted(st)
    ensures Noted(Seen(Assign(reserved, st, original, rule).1, rule))
  {
    hide NextIndex, Render;
  }

  lemma {:induction false} WalkNotes(reserved: set<bytes>, st: State, text: bytes, ms: seq<ScanMatch>, pos: nat, out: bytes)
    requires Noted(st)
    ensures Noted(Walk(reserved, st, text, ms, pos, out).1)
    decreases |ms|
  {
    hide Noted, Assign, Seen, Taken;
    if ms != [] && ms[0].rule.Some? {
      var m, rule := ms[0], ms[0].rule.value;
      if m.start < pos || (m.start <= |text| && (Taken(text, m) == [] || rule.placeholder == [])) {
        WalkNotes(reserved, st, text, ms[1..], pos, out);
      } else if m.start <= |text| {
        var a := Assign(reserved, st, Taken(text, m), rule);
        StepNotes(reserved, st, Taken(text, m), rule);
        WalkNotes(reserved, Seen(a.1, rule), text, ms[1..], m.end, out + text[pos..m.start] + a.0);
      }
    }
  }

  lemma {:induction false} TextsNote(reserved: set<bytes>, st: State, texts: seq<bytes>, matches: seq<seq<ScanMatch>>)
    requires |matches| == |texts| && Noted(st)
    ensures Noted(MaskedTexts(reserved, st, texts, matches).1)
    decreases |texts|
  {
    hide Noted, Walk;
    if texts != [] {
      WalkNotes(reserved, st, texts[0], matches[0], 0, []);
      var first := MaskedText(reserved, st, texts[0], matches[0]);
      if first.0.Ok? {
        TextsNote(reserved, first.1, texts[1..], matches[1..]);
      }
    }
  }

  // ---- Types over word bytes ----

  predicate LiteralTypes(ms: seq<ScanMatch>) {
    forall m <- ms | m.rule.Some? :: Word(m.rule.value.placeholder)
  }

  ghost predicate LiteralReplacements(reps: seq<Replacement>) {
    forall i | 0 <= i < |reps| :: IsLiteral(reps[i].placeholder)
  }

  lemma AssignKeepsLiterals(reserved: set<bytes>, st: State, original: bytes, rule: Rule)
    requires LiteralReplacements(st.replacements) && IsTypeName(rule.placeholder)
    ensures LiteralReplacements(Assign(reserved, st, original, rule).1.replacements)
  {
    hide IsLiteral, Render, NextIndex;
    if original !in st.originals {
      RenderedIsLiteral(rule.placeholder, NextIndex(reserved, rule.placeholder, Counter(st.counters, rule.placeholder)));
    }
  }

  lemma {:induction false} WalkKeepsLiterals(reserved: set<bytes>, st: State, text: bytes, ms: seq<ScanMatch>, pos: nat, out: bytes)
    requires LiteralReplacements(st.replacements) && LiteralTypes(ms)
    ensures LiteralReplacements(Walk(reserved, st, text, ms, pos, out).1.replacements)
    decreases |ms|
  {
    hide LiteralReplacements, Assign, Taken, Word;
    if ms != [] && ms[0].rule.Some? {
      var m, rule := ms[0], ms[0].rule.value;
      assert m in ms;
      assert forall x <- ms[1..] :: x in ms;
      if m.start < pos || (m.start <= |text| && (Taken(text, m) == [] || rule.placeholder == [])) {
        WalkKeepsLiterals(reserved, st, text, ms[1..], pos, out);
      } else if m.start <= |text| {
        var a := Assign(reserved, st, Taken(text, m), rule);
        AssignKeepsLiterals(reserved, st, Taken(text, m), rule);
        WalkKeepsLiterals(reserved, Seen(a.1, rule), text, ms[1..], m.end, out + text[pos..m.start] + a.0);
      }
    }
  }

  lemma {:induction false} TextsKeepLiterals(reserved: set<bytes>, st: State, texts: seq<bytes>, matches: seq<seq<ScanMatch>>)
    requires |matches| == |texts| && LiteralReplacements(st.replacements) && forall ms <- matches :: LiteralTypes(ms)
    ensures LiteralReplacements(MaskedTexts(reserved, st, texts, matches).1.replacements)
    decreases |texts|
  {
    hide LiteralReplacements, Walk, LiteralTypes;
    if texts != [] {
      WalkKeepsLiterals(reserved, st, texts[0], matches[0], 0, []);
      var first := MaskedText(reserved, st, texts[0], matches[0]);
      assert forall ms <- matches[1..] :: ms in matches;
      if first.0.Ok? {
        TextsKeepLiterals(reserved, first.1, texts[1..], matches[1..]);
      }
    }
  }

  // ---- Demasking one masked text ----

  /** The placeholder stands nowhere in the text. */
  ghost predicate Absent(p: bytes, text: bytes) {
    forall i: nat :: !At(text, i, p)
  }

  ghost predicate Restorable(es: seq<Entry>, text: bytes) {
    Canonical(es) && forall k | 0 <= k < |es| :: Absent(es[k].placeholder, text)
  }

  /** No placeholder starts in a piece of the text that is followed by nothing, or by another placeholder. */
  lemma NoHitInPiece(es: seq<Entry>, text: bytes, a: nat, b: nat, rest: bytes)
    requires Restorable(es, text) && a < b <= |text| && (rest == [] || rest[0] == LESS)
    ensures Hit(es, text[a..b] + rest) == None
  {
    var w := text[a..b] + rest;
    forall k | 0 <= k < |es| ensures !(es[k].placeholder <= w) {
      var p := es[k].placeholder;
      TokenBytes(p);
      assert !At(text, a, p);
      assert forall i | 0 <= i < b - a :: w[i] == text[a + i];
      if |p| <= b - a {
        assert text[a..a + |p|] == w[..|p|];
      } else if rest != [] {
        assert w[b - a] == LESS;
      }
    }
  }

  lemma {:induction false} PiecePasses(es: seq<Entry>, text: bytes, a: nat, b: nat, rest: bytes)
    requires Restorable(es, text) && NonBlank(es) && a <= b <= |text| && (rest == [] || rest[0] == LESS)
    ensures Restore(es, false, text[a..b] + rest) == text[a..b] + Restore(es, false, rest)
    decreases b - a
  {
    hide Restorable, Restore, Hit, NonBlank;
    if a == b {
      assert text[a..b] + rest == rest;
    } else {
      NoHitInPiece(es, text, a, b, rest);
      var w := text[a..b] + rest;
      RestoreUnfolds(es, false, w);
      SliceHead(text, a, b);
      assert w[1..] == text[a + 1..b] + rest;
      PiecePasses(es, text, a + 1, b, rest);
      Join3([text[a]], text[a + 1..b], Restore(es, false, rest));
    }
  }

  /** The entries know every replacement. */
  predicate Knows(es: seq<Entry>, original: bytes, p: bytes) {
    exists k | 0 <= k < |es| :: es[k].placeholder == p && es[k].original == original
  }

  ghost predicate KnowsAll(es: seq<Entry>, reps: seq<Replacement>) {
    forall i | 0 <= i < |reps| :: Knows(es, reps[i].original, reps[i].placeholder)
  }

  lemma KnownPlaceholder(es: seq<Entry>, original: bytes, p: bytes, rest: bytes)
    requires Canonical(es) && NonBlank(es) && Knows(es, original, p)
    ensures p != [] && p[0] == LESS
    ensures Restore(es, false, p + rest) == original + Restore(es, false, rest)
  {
    hide Restore, Hit;
    var k :| 0 <= k < |es| && es[k].placeholder == p && es[k].original == original;
    HitIsUnique(es, p + rest, k);
    RestoreUnfolds(es, false, p + rest);
    assert (p + rest)[|p|..] == rest;
  }

  /** The spans lie in the text the right way round and have rules; they may overlap or be out of order. */
  predicate InText(text: bytes, ms: seq<ScanMatch>) {
    forall m <- ms :: m.start <= m.end <= |text| && m.rule.Some?
  }

  /** What the walk writes after the cursor restores to the text after the cursor. */
  lemma {:induction false} WalkRestores(reserved: set<bytes>, st: State, text: bytes, ms: seq<ScanMatch>, pos: nat, out: bytes, es: seq<Entry>, final: State)
    requires Inv(reserved, st) && InText(text, ms) && pos <= |text|
    requires Restorable(es, text) && NonBlank(es) && KnowsAll(es, final.replacements)
    requires Walk(reserved, st, text, ms, pos, out).1.replacements <= final.replacements
    ensures var r := Walk(reserved, st, text, ms, pos, out).0;
      r.Ok? && exists w :: r.value == out + w && Restore(es, false, w) == text[pos..]
    decreases |ms|
  {
    hide Inv, Restore, Restorable, NonBlank, KnowsAll, Assign, Seen;
    if ms == [] {
      PiecePasses(es, text, pos, |text|, []);
      RestoreNothing(es, false);
      assert text[pos..|text|] + [] == text[pos..];
    } else {
      var m := ms[0];
      assert m in ms;
      assert forall x <- ms[1..] :: x in ms;
      var rule := m.rule.value;
      if m.start < pos || Taken(text, m) == [] || rule.placeholder == [] {
        WalkRestores(reserved, st, text, ms[1..], pos, out, es, final);
      } else {
        var original := Taken(text, m);
        var a := Assign(reserved, st, original, rule);
        AssignKeepsInv(reserved, st, original, rule);
        SeenKeepsInv(reserved, a.1, rule);
        var now := Seen(a.1, rule);
        var wrote := out + text[pos..m.start] + a.0;
        WalkKeepsInv(reserved, now, text, ms[1..], m.end, wrote);
        WalkRestores(reserved, now, text, ms[1..], m.end, wrote, es, final);
        var w :| Walk(reserved, now, text, ms[1..], m.end, wrote).0.value == wrote + w && Restore(es, false, w) == text[m.end..];
        AssignedIsKnown(reserved, st, original, rule, es, final);
        KnownPlaceholder(es, original, a.0, w) by { CanonicalOf(es, text); }
        PiecePasses(es, text, pos, m.start, a.0 + w);
        Pieces(text, pos, m.start, m.end, out, a.0, w);
        assert Restore(es, false, text[pos..m.start] + (a.0 + w)) == text[pos..];
      }
    }
  }

  lemma CanonicalOf(es: seq<Entry>, text: bytes)
    requires Restorable(es, text)
    ensures Canonical(es)
  {
  }

  lemma Pieces(text: bytes, a: nat, b: nat, c: nat, out: bytes, p: bytes, w: bytes)
    requires a <= b <= c <= |text|
    ensures out + text[a..b] + p + w == out + (text[a..b] + (p + w))
    ensures text[a..b] + (text[b..c] + text[c..]) == text[a..]
  {
  }

  lemma AssignedIsKnown(reserved: set<bytes>, st: State, original: bytes, rule: Rule, es: seq<Entry>, final: State)
    requires Inv(reserved, st) && KnowsAll(es, final.replacements)
    requires Assign(reserved, st, original, rule).1.replacements <= final.replacements
    ensures Knows(es, original, Assign(reserved, st, original, rule).0)
  {
    hide Inv, Assign, Knows;
    AssignKeepsInv(reserved, st, original, rule);
    var a := Assign(reserved, st, original, rule);
    var i :| 0 <= i < |a.1.replacements| && a.1.replacements[i].original == original && a.1.replacements[i].placeholder == a.0;
    assert final.replacements[i] == a.1.replacements[i];
  }

  // ---- All the texts ----

  predicate AllInText(texts: seq<bytes>, matches: seq<seq<ScanMatch>>) {
    |matches| == |texts| && forall k | 0 <= k < |texts| :: InText(texts[k], matches[k])
  }

  ghost predicate RestoresTo(es: seq<Entry>, masked: seq<bytes>, texts: seq<bytes>)
    requires NonBlank(es)
  {
    |masked| == |texts| && forall k | 0 <= k < |texts| :: Restore(es, false, masked[k]) == texts[k]
  }

  lemma {:induction false} TextsRestore(reserved: set<bytes>, st: State, texts: seq<bytes>, matches: seq<seq<ScanMatch>>, es: seq<Entry>, final: State)
    requires Inv(reserved, st) && AllInText(texts, matches)
    requires NonBlank(es) && (forall k | 0 <= k < |texts| :: Restorable(es, texts[k])) && KnowsAll(es, final.replacements)
    requires MaskedTexts(reserved, st, texts, matches).1.replacements <= final.replacements
    ensures var r := MaskedTexts(reserved, st, texts, matches).0; r.Ok? && RestoresTo(es, r.value, texts)
    decreases |texts|
  {
    hide Inv, Walk, Restorable, Restore, NonBlank, InText, KnowsAll;
    if texts != [] {
      var first := MaskedText(reserved, st, texts[0], matches[0]);
      WalkKeepsInv(reserved, st, texts[0], matches[0], 0, []);
      TextsKeepInv(reserved, first.1, texts[1..], matches[1..]);
      FirstReplacements(reserved, st, texts, matches, final);
      WalkRestores(reserved, st, texts[0], matches[0], 0, [], es, final);
      var w :| first.0.value == [] + w && Restore(es, false, w) == texts[0][0..];
      assert [] + w == w && texts[0][0..] == texts[0];
      TextsRestore(reserved, first.1, texts[1..], matches[1..], es, final);
      var others := MaskedTexts(reserved, first.1, texts[1..], matches[1..]).0.value;
      forall k | 0 <= k < |texts| ensures Restore(es, false, ([first.0.value] + others)[k]) == texts[k] {
        if k > 0 {
          assert ([first.0.value] + others)[k] == others[k - 1] && texts[1..][k - 1] == texts[k];
        }
      }
    }
  }

  /** What is recorded after one text is still recorded at the end. */
  lemma FirstReplacements(reserved: set<bytes>, st: State, texts: seq<bytes>, matches: seq<seq<ScanMatch>>, final: State)
    requires |matches| == |texts| > 0 && Inv(reserved, st)
    requires MaskedTexts(reserved, st, texts, matches).1.replacements <= final.replacements
    ensures var first := MaskedText(reserved, st, texts[0], matches[0]);
      first.1.replacements <= final.replacements
      && (first.0.Ok? ==> MaskedTexts(reserved, first.1, texts[1..], matches[1..]).1.replacements <= final.replacements)
  {
    hide Inv, Walk;
    var first := MaskedText(reserved, st, texts[0], matches[0]);
    WalkKeepsInv(reserved, st, texts[0], matches[0], 0, []);
    if first.0.Ok? {
      TextsKeepInv(reserved, first.1, texts[1..], matches[1..]);
    }
  }

  // ---- The entries of a masking state ----

  lemma EntriesKnowAll(reps: seq<Replacement>)
    requires DistinctReplacements(reps) && LiteralReplacements(reps)
    ensures NonBlank(EntriesOf(reps)) && Canonical(EntriesOf(reps)) && KnowsAll(EntriesOf(reps), reps)
    ensures forall k | 0 <= k < |EntriesOf(reps)| :: exists i | 0 <= i < |reps| :: reps[i].placeholder == EntriesOf(reps)[k].placeholder
  {
    hide IsLiteral, Token;
    EntriesAreFirsts(reps);
    var es := EntriesOf(reps);
    forall k | 0 <= k < |es| ensures exists i | 0 <= i < |reps| :: EntryOf(reps[i]) == es[k] {
      EntryHasSource(reps, es, k);
    }
    forall k | 0 <= k < |es| ensures Token(es[k].placeholder) {
      var i :| 0 <= i < |reps| && EntryOf(reps[i]) == es[k];
      LiteralIsToken(reps[i].placeholder);
    }
    forall i | 0 <= i < |reps| ensures Knows(es, reps[i].original, reps[i].placeholder) {
      NotEmptyLiteral(reps[i].placeholder);
      var k :| 0 <= k < |es| && es[k].placeholder == reps[i].placeholder;
      var j :| 0 <= j < |reps| && EntryOf(reps[j]) == es[k];
      assert j == i;
    }
  }

  lemma NotEmptyLiteral(p: bytes)
    requires IsLiteral(p)
    ensures p != []
  {
  }

  lemma EntryHasSource(reps: seq<Replacement>, es: seq<Entry>, k: nat)
    requires k < |es| && forall e <- es :: ComesFromFirst(reps, e)
    ensures exists i | 0 <= i < |reps| :: EntryOf(reps[i]) == es[k]
  {
    hide EntryOf;
    assert es[k] in es;
    var i :| 0 <= i < |reps| && IsFirst(reps, es[k], i);
  }

  // ---- The results ----

  /** The state and the texts after masking, and the entries the demasker is given. */
  function FinalState(texts: seq<bytes>, matches: seq<seq<ScanMatch>>): State
    requires |matches| == |texts|
  {
    MaskedTexts(Reserved(texts), FRESH, texts, matches).1
  }

  predicate WordTypes(matches: seq<seq<ScanMatch>>) {
    forall ms <- matches :: LiteralTypes(ms)
  }

  /** Minting over any call: placeholders of different originals differ, across all types; over word types none stands in any text. */
  lemma MintingIsFresh(texts: seq<bytes>, matches: seq<seq<ScanMatch>>)
    requires |matches| == |texts|
    ensures var reps := FinalState(texts, matches).replacements;
      && DistinctReplacements(reps)
      && (forall i | 0 <= i < |reps| :: reps[i].placeholder !in Reserved(texts))
      && (WordTypes(matches) ==>
            forall i, k | 0 <= i < |reps| && 0 <= k < |texts| :: IsLiteral(reps[i].placeholder) && Absent(reps[i].placeholder, texts[k]))
  {
    hide Reserved, MaskedTexts, LiteralTypes, IsLiteral;
    var reserved := Reserved(texts);
    var reps := FinalState(texts, matches).replacements;
    FreshInv(reserved);
    TextsKeepInv(reserved, FRESH, texts, matches);
    forall i | 0 <= i < |reps| ensures reps[i].placeholder !in reserved {
      assert Minted(reserved, FinalState(texts, matches).counters, reps[i].placeholder);
    }
    if WordTypes(matches) {
      TextsKeepLiterals(reserved, FRESH, texts, matches);
      forall i, k | 0 <= i < |reps| && 0 <= k < |texts| ensures IsLiteral(reps[i].placeholder) && Absent(reps[i].placeholder, texts[k]) {
        forall at: nat ensures !At(texts[k], at, reps[i].placeholder) {
          UnreservedIsAbsent(texts, reps[i].placeholder, k, at);
        }
      }
    }
  }

  /** Whatever is masked, the rules and triggerable data types of all replacements are reported as triggered. */
  lemma TriggeredCoverReplacements(texts: seq<bytes>, matches: seq<seq<ScanMatch>>)
    requires |matches| == |texts|
    ensures Noted(FinalState(texts, matches))
  {
    hide Reserved, MaskedTexts;
    TextsNote(Reserved(texts), FRESH, texts, matches);
  }

  /** Masking succeeds, and demasking every masked text gives the text back. */
  ghost predicate RoundTrips(texts: seq<bytes>, matches: seq<seq<ScanMatch>>) {
    |matches| == |texts| &&
    var r := MaskedTexts(Reserved(texts), FRESH, texts, matches);
    var es := EntriesOf(r.1.replacements);
    NonBlank(es) && r.0.Ok? && RestoresTo(es, r.0.value, texts)
  }

  /** Mask then demask is the identity, for any spans in the texts and any types over word bytes. */
  lemma MaskThenDemask(texts: seq<bytes>, matches: seq<seq<ScanMatch>>)
    requires AllInText(texts, matches) && WordTypes(matches)
    ensures RoundTrips(texts, matches)
  {
    hide Reserved, MaskedTexts, InText, LiteralTypes, IsLiteral, Absent, Canonical;
    var reserved := Reserved(texts);
    var final := FinalState(texts, matches);
    var es := EntriesOf(final.replacements);
    FreshInv(reserved);
    MintingIsFresh(texts, matches);
    TextsKeepLiterals(reserved, FRESH, texts, matches);
    EntriesKnowAll(final.replacements);
    forall k | 0 <= k < |texts| ensures Restorable(es, texts[k]) {
      forall j | 0 <= j < |es| ensures Absent(es[j].placeholder, texts[k]) {
        var i :| 0 <= i < |final.replacements| && final.replacements[i].placeholder == es[j].placeholder;
      }
    }
    TextsRestore(reserved, FRESH, texts, matches, es, final);
  }

  // ---- A type outside the word bytes breaks it ----

  function OneMatch(text: bytes, at: nat, type_: bytes): seq<seq<ScanMatch>> {
    [[ScanMatch(at, at + 1, Some(Rule([], 0, type_, [], 0, true, false, [])))]]
  }

  lemma RenderedInner(type_: bytes, n: nat)
    requires IsLiteral(Render(type_, n))
    ensures Word(type_)
  {
    LiteralIsToken(Render(type_, n));
    TokenBytes(Render(type_, n));
    assert forall i | 0 <= i < |type_| :: type_[i] == Render(type_, n)[i + 1];
  }

  /** Every reserved literal has the literal shape. */
  lemma ReservedAreLiterals(texts: seq<bytes>, p: bytes)
    requires p in Reserved(texts)
    ensures IsLiteral(p)
  {
    var text :| text in texts && p in LiteralsIn(text);
    var i :| 0 <= i < |text| && LiteralEnd(text, i).Some? && p == Slice(text, i, LiteralEnd(text, i).value);
    LiteralEndFinds(text, i);
  }

  /** A text that already holds what will be minted: it is demasked to something shorter. */
  lemma OddTypeBreaksRoundTrip(type_: bytes) returns (texts: seq<bytes>, matches: seq<seq<ScanMatch>>)
    requires type_ != [] && !Word(type_)
    ensures AllInText(texts, matches) && (forall ms <- matches, m <- ms :: m.rule.Some? && m.rule.value.placeholder == type_)
    ensures !RoundTrips(texts, matches)
  {
    hide Render, Reserved;
    var p := Render(type_, 1);
    RenderStarts(type_, 1);
    var text := p + [ZERO];
    texts, matches := [text], OneMatch(text, |p|, type_);
    var reserved := Reserved(texts);
    if p in reserved {
      ReservedAreLiterals(texts, p);
      RenderedInner(type_, 1);
    }
    assert NextIndex(reserved, type_, 0) == 1;
    MaskedOnce(reserved, text, type_, p);
    var reps := [Replacement([], 0, [ZERO], p)];
    var es := EntriesOf(reps);
    assert reps[..0] == [];
    assert EntriesOf([]) == [];
    assert es == [EntryOf(reps[0])];
    RestoreBoth(es, p);
  }

  lemma MaskedOnce(reserved: set<bytes>, text: bytes, type_: bytes, p: bytes)
    requires p == Render(type_, 1) && p !in reserved && type_ != [] && text == p + [ZERO]
    ensures var r := MaskedTexts(reserved, FRESH, [text], OneMatch(text, |p|, type_));
      r.0 == Ok([p + p]) && r.1.replacements == [Replacement([], 0, [ZERO], p)]
  {
    hide Render;
    var ms := OneMatch(text, |p|, type_)[0];
    assert ms[1..] == [] && [text][1..] == [] && OneMatch(text, |p|, type_)[1..] == [];
    assert Taken(text, ms[0]) == [ZERO];
    assert NextIndex(reserved, type_, Counter(FRESH.counters, type_)) == 1;
    assert text[0..|p|] == p && text[|p| + 1..] == [];
    var out := [] + text[0..|p|] + p;
    assert out == p + p && out + [] == p + p;
    assert FRESH.replacements + [Replacement([], 0, [ZERO], p)] == [Replacement([], 0, [ZERO], p)];
    var rule := ms[0].rule.value;
    var now := Seen(Assign(reserved, FRESH, [ZERO], rule).1, rule);
    assert Walk(reserved, now, text, [], |p| + 1, out) == (Ok(out), now);
    assert Walk(reserved, FRESH, text, ms, 0, []) == (Ok(out), now);
    var rest := MaskedTexts(reserved, now, [], []);
    assert rest == (Ok([]), now);
    assert [out] + [] == [out];
  }

  lemma RestoreBoth(es: seq<Entry>, p: bytes)
    requires |p| >= 4 && es == [EntryOf(Replacement([], 0, [ZERO], p))]
    ensures NonBlank(es) && |Restore(es, false, p + p)| == 2
  {
    hide Restore;
    var w := p + p;
    assert es[0].placeholder <= w && Hit(es, w) == Some(0);
    RestoreUnfolds(es, false, w);
    assert w[|p|..] == p;
    assert Hit(es, p) == Some(0);
    RestoreUnfolds(es, false, p);
    assert p[|p|..] == [];
    RestoreNothing(es, false);
  }

  /** Every match's rule has a type of the set. */
  predicate TypesFrom(matches: seq<seq<ScanMatch>>, types: set<bytes>) {
    forall ms <- matches, m <- ms | m.rule.Some? :: m.rule.value.placeholder in types
  }

  /** Masking with these types can always be undone if and only if the types are made of word bytes. */
  lemma RoundTripsIffWordTypes(types: set<bytes>)
    ensures (forall texts, matches | AllInText(texts, matches) && TypesFrom(matches, types) :: RoundTrips(texts, matches))
            <==> forall t <- types :: Word(t)
  {
    hide AllInText, Word;
    if forall t <- types :: Word(t) {
      forall texts, matches | AllInText(texts, matches) && TypesFrom(matches, types) ensures RoundTrips(texts, matches) {
        assert WordTypes(matches);
        MaskThenDemask(texts, matches);
      }
    } else {
      var t :| t in types && !Word(t);
      EmptyIsWord();
      var texts, matches := OddTypeBreaksRoundTrip(t);
      assert AllInText(texts, matches) && TypesFrom(matches, types) && !RoundTrips(texts, matches);
    }
  }

  lemma EmptyIsWord()
    ensures Word([])
  {
  }
}
