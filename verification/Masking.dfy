/**
 That masking masks: which spans are replaced, what the text looks like afterwards, and
 where every recorded replacement comes from. Told over the spans and the replacements.
 */
module Masking {
  import opened Bytes
  import opened Rules
  import opened Conflicts
  import opened Placeholders
  import opened Masker
  import opened RoundTrip

  // ---- Which spans are masked ----

  /** Has bytes to hide and a type to name them by. */
  predicate Maskable(m: ScanMatch) {
    m.start < m.end && m.rule.Some? && m.rule.value.placeholder != []
  }

  /** The masked spans, by index: in order, sharing no byte, none before `pos`. */
  predicate Picks(ms: seq<ScanMatch>, pos: nat, ks: seq<nat>) {
    && (forall i | 0 <= i < |ks| :: ks[i] < |ms| && Maskable(ms[ks[i]]) && pos <= ms[ks[i]].start)
    && (forall i, j | 0 <= i < j < |ks| :: ks[i] < ks[j] < |ms| && ms[ks[i]].end <= ms[ks[j]].start)
  }

  /** Span `k` begins before `pos`, or before the end of a masked span that comes earlier in the list. */
  predicate Overtaken(ms: seq<ScanMatch>, pos: nat, ks: seq<nat>, k: nat)
    requires k < |ms|
  {
    ms[k].start < pos || exists i | 0 <= i < |ks| :: ks[i] < k && ms[k].start < ms[ks[i]].end
  }

  /** The masked spans, and no span that could be masked is left out unless an earlier one overtook it. */
  predicate Selects(ms: seq<ScanMatch>, pos: nat, ks: seq<nat>) {
    Picks(ms, pos, ks) && forall k | 0 <= k < |ms| && Maskable(ms[k]) && k !in ks :: Overtaken(ms, pos, ks, k)
  }

  function Picked(ms: seq<ScanMatch>, ks: seq<nat>): (r: seq<ScanMatch>)
    requires forall i | 0 <= i < |ks| :: ks[i] < |ms|
    ensures |r| == |ks| && forall i | 0 <= i < |r| :: r[i] == ms[ks[i]]
  {
    seq(|ks|, i requires 0 <= i < |ks| => ms[ks[i]])
  }

  function Shifted(ks: seq<nat>): (r: seq<nat>)
    ensures |r| == |ks| && forall i | 0 <= i < |r| :: r[i] == ks[i] + 1
  {
    seq(|ks|, i requires 0 <= i < |ks| => ks[i] + 1)
  }

  // ---- What the masked text is ----

  /** The spans lie in the text from `pos` on, in order, and share no byte. */
  predicate InOrder(text: bytes, spans: seq<ScanMatch>, pos: nat) {
    if spans == [] then pos <= |text|
    else pos <= spans[0].start <= spans[0].end <= |text| && InOrder(text, spans[1..], spans[0].end)
  }

  /** The text from `pos` on with a placeholder in place of each span. */
  function Pieces(text: bytes, spans: seq<ScanMatch>, ps: seq<bytes>, pos: nat): bytes
    requires InOrder(text, spans, pos) && |ps| == |spans|
  {
    if spans == [] then text[pos..]
    else text[pos..spans[0].start] + ps[0] + Pieces(text, spans[1..], ps[1..], spans[0].end)
  }

  /** Some replacement has these bytes as its original and `p` as its placeholder. */
  predicate Recorded(reps: seq<Replacement>, original: bytes, p: bytes) {
    exists r <- reps :: r.original == original && r.placeholder == p
  }

  predicate AllRecorded(reps: seq<Replacement>, text: bytes, spans: seq<ScanMatch>, ps: seq<bytes>) {
    && |ps| == |spans|
    && forall i | 0 <= i < |ps| ::
      spans[i].start <= spans[i].end <= |text| && Recorded(reps, text[spans[i].start..spans[i].end], ps[i])
  }

  /** The rules of the spans. */
  predicate HasRuleId(spans: seq<ScanMatch>, id: bytes) {
    exists m <- spans :: m.rule.Some? && m.rule.value.id == id
  }

  /** The spans have a rule with this data type, and it is one of the six that are reported. */
  predicate HasDataType(spans: seq<ScanMatch>, dt: int) {
    1 <= dt <= 6 && exists m <- spans :: m.rule.Some? && m.rule.value.dataType == dt
  }

  ghost predicate Notes(before: State, after: State, spans: seq<ScanMatch>) {
    && (forall id :: id in after.seenRules <==> id in before.seenRules || HasRuleId(spans, id))
    && (forall dt :: dt in after.seenDataTypes <==> dt in before.seenDataTypes || HasDataType(spans, dt))
  }

  // ---- Where replacements come from ----

  predicate Used(reps: seq<Replacement>, p: bytes) {
    exists r <- reps :: r.placeholder == p
  }

  /** `n` is the least index whose rendering is neither reserved nor used by the replacements before. */
  predicate LeastFree(reserved: set<bytes>, before: seq<Replacement>, type_: bytes, n: nat) {
    && n >= 1 && Render(type_, n) !in reserved
    && forall m | 1 <= m < n :: Render(type_, m) in reserved || Used(before, Render(type_, m))
  }

  /** Replacement `i` was made for span `s`, the first of the spans with its bytes, and numbered with the least free index. */
  ghost predicate MadeFor(reserved: set<bytes>, text: bytes, spans: seq<ScanMatch>, reps: seq<Replacement>, i: nat, s: nat) {
    && i < |reps| && s < |spans| && Maskable(spans[s]) && spans[s].end <= |text|
    && (var rule := spans[s].rule.value;
        exists n :: LeastFree(reserved, reps[..i], rule.placeholder, n)
          && reps[i] == Replacement(rule.id, rule.dataType, text[spans[s].start..spans[s].end], Render(rule.placeholder, n)))
    && forall e | 0 <= e < s :: !HasBytes(text, spans[e], reps[i].original)
  }

  predicate HasBytes(text: bytes, m: ScanMatch, original: bytes) {
    m.start <= m.end <= |text| && text[m.start..m.end] == original
  }

  ghost predicate MadeForOne(reserved: set<bytes>, text: bytes, spans: seq<ScanMatch>, reps: seq<Replacement>, i: nat) {
    exists s: nat :: MadeFor(reserved, text, spans, reps, i, s)
  }

  /** Every replacement from `from` on was made for one of the spans. */
  ghost predicate Sourced(reserved: set<bytes>, text: bytes, spans: seq<ScanMatch>, from: nat, reps: seq<Replacement>) {
    forall i | from <= i < |reps| :: MadeForOne(reserved, text, spans, reps, i)
  }

  /** Every index that a counter has passed is reserved or used. */
  ghost predicate Filled(reserved: set<bytes>, st: State) {
    forall t, m | 1 <= m <= Counter(st.counters, t) :: Render(t, m) in reserved || Used(st.replacements, Render(t, m))
  }

  /** `masked` is the text with exactly the selected spans replaced, each by the placeholder recorded for its bytes. */
  predicate IsMasking(text: bytes, ms: seq<ScanMatch>, masked: bytes, reps: seq<Replacement>, ks: seq<nat>, ps: seq<bytes>) {
    && Selects(ms, 0, ks) && |ps| == |ks|
    && InOrder(text, Picked(ms, ks), 0)
    && masked == Pieces(text, Picked(ms, ks), ps, 0)
    && AllRecorded(reps, text, Picked(ms, ks), ps)
  }

  // ---- One step ----

  lemma SkipSelects(ms: seq<ScanMatch>, pos: nat, ks: seq<nat>)
    requires ms != [] && Selects(ms[1..], pos, ks) && (Maskable(ms[0]) ==> ms[0].start < pos)
    ensures Selects(ms, pos, Shifted(ks)) && Picked(ms, Shifted(ks)) == Picked(ms[1..], ks)
  {
    hide Maskable;
    var all := Shifted(ks);
    ShiftPicks(ms, pos, ks);
    forall k | 0 <= k < |ms| && Maskable(ms[k]) && k !in all ensures Overtaken(ms, pos, all, k) {
      if k > 0 {
        ShiftOvertaken(ms, pos, ks, k);
      }
    }
  }

  lemma ShiftPicks(ms: seq<ScanMatch>, pos: nat, ks: seq<nat>)
    requires ms != [] && Picks(ms[1..], pos, ks)
    ensures Picks(ms, pos, Shifted(ks))
    ensures Picked(ms, Shifted(ks)) == Picked(ms[1..], ks)
  {
    hide Maskable;
    assert forall i | 0 <= i < |ks| :: ms[1..][ks[i]] == ms[ks[i] + 1];
  }

  lemma ShiftOvertaken(ms: seq<ScanMatch>, pos: nat, ks: seq<nat>, k: nat)
    requires 0 < k < |ms| && Selects(ms[1..], pos, ks) && Maskable(ms[k]) && k !in Shifted(ks)
    ensures Overtaken(ms, pos, Shifted(ks), k)
  {
    hide Maskable, Picks, Overtaken;
    var all := Shifted(ks);
    assert ms[1..][k - 1] == ms[k];
    forall i | 0 <= i < |ks| ensures ks[i] != k - 1 {
      assert all[i] in all;
    }
    assert Overtaken(ms[1..], pos, ks, k - 1);
    OvertakenShifts(ms, pos, ks, k);
  }

  lemma OvertakenShifts(ms: seq<ScanMatch>, pos: nat, ks: seq<nat>, k: nat)
    requires 0 < k < |ms| && Overtaken(ms[1..], pos, ks, k - 1)
    ensures Overtaken(ms, pos, Shifted(ks), k)
  {
    var all := Shifted(ks);
    if ms[k].start >= pos {
      var i :| 0 <= i < |ks| && ks[i] < k - 1 && ms[1..][k - 1].start < ms[1..][ks[i]].end;
      assert all[i] < k && ms[all[i]] == ms[1..][ks[i]];
    }
  }

  lemma TakePicks(ms: seq<ScanMatch>, pos: nat, ks: seq<nat>)
    requires ms != [] && Maskable(ms[0]) && pos <= ms[0].start <= ms[0].end && Picks(ms[1..], ms[0].end, ks)
    ensures Picks(ms, pos, [0] + Shifted(ks)) && Picked(ms, [0] + Shifted(ks)) == [ms[0]] + Picked(ms[1..], ks)
  {
    hide Maskable;
    var rest := Shifted(ks);
    var all := [0] + rest;
    ShiftPicks(ms, ms[0].end, ks);
    assert all[0] == 0 && forall i | 0 < i < |all| :: all[i] == rest[i - 1];
    forall i, j | 0 <= i < j < |all| ensures all[i] < all[j] < |ms| && ms[all[i]].end <= ms[all[j]].start {
      if i > 0 {
        assert rest[i - 1] < rest[j - 1];
      } else {
        assert ms[0].end <= ms[rest[j - 1]].start;
      }
    }
  }

  lemma TakeSelects(ms: seq<ScanMatch>, pos: nat, ks: seq<nat>)
    requires ms != [] && Maskable(ms[0]) && pos <= ms[0].start <= ms[0].end && Selects(ms[1..], ms[0].end, ks)
    ensures Selects(ms, pos, [0] + Shifted(ks)) && Picked(ms, [0] + Shifted(ks)) == [ms[0]] + Picked(ms[1..], ks)
  {
    hide Maskable, Picks, Overtaken;
    var all := [0] + Shifted(ks);
    TakePicks(ms, pos, ks);
    forall k | 0 <= k < |ms| && Maskable(ms[k]) && k !in all ensures Overtaken(ms, pos, all, k) {
      assert all[0] in all;
      assert k !in Shifted(ks);
      ShiftOvertaken(ms, ms[0].end, ks, k);
      TakeOvertaken(ms, pos, Shifted(ks), k);
    }
  }

  lemma TakeOvertaken(ms: seq<ScanMatch>, pos: nat, rest: seq<nat>, k: nat)
    requires 0 < k < |ms| && Overtaken(ms, ms[0].end, rest, k)
    ensures Overtaken(ms, pos, [0] + rest, k)
  {
    var all := [0] + rest;
    if ms[k].start >= ms[0].end {
      var i :| 0 <= i < |rest| && rest[i] < k && ms[k].start < ms[rest[i]].end;
      assert all[i + 1] == rest[i];
    } else {
      assert all[0] < k;
    }
  }

  lemma NothingSelected(ms: seq<ScanMatch>, pos: nat)
    requires ms == []
    ensures Selects(ms, pos, []) && Picked(ms, []) == []
  {
  }

  /** One step of the walk over spans in the text: past a span, or over it with its placeholder. */
  lemma WalkStep(reserved: set<bytes>, st: State, text: bytes, ms: seq<ScanMatch>, pos: nat, out: bytes)
    requires InText(text, ms) && ms != [] && pos <= |text|
    ensures InText(text, ms[1..]) && ms[0].rule.Some? && ms[0].start <= ms[0].end <= |text|
    ensures Maskable(ms[0]) ==> Taken(text, ms[0]) == text[ms[0].start..ms[0].end]
    ensures !Maskable(ms[0]) || ms[0].start < pos ==> Walk(reserved, st, text, ms, pos, out) == Walk(reserved, st, text, ms[1..], pos, out)
    ensures Maskable(ms[0]) && pos <= ms[0].start ==>
      var a := Assign(reserved, st, Taken(text, ms[0]), ms[0].rule.value);
      Walk(reserved, st, text, ms, pos, out)
      == Walk(reserved, Seen(a.1, ms[0].rule.value), text, ms[1..], ms[0].end, out + text[pos..ms[0].start] + a.0)
  {
    hide Assign, Seen;
    assert ms[0] in ms;
    assert forall m <- ms[1..] :: m in ms;
  }

  lemma RecordedStays(reps: seq<Replacement>, more: seq<Replacement>, original: bytes, p: bytes)
    requires Recorded(reps, original, p) && reps <= more
    ensures Recorded(more, original, p)
  {
    var r :| r in reps && r.original == original && r.placeholder == p;
    var i :| 0 <= i < |reps| && reps[i] == r;
    assert more[i] == r;
  }

  lemma AllRecordedStay(reps: seq<Replacement>, more: seq<Replacement>, text: bytes, spans: seq<ScanMatch>, ps: seq<bytes>)
    requires AllRecorded(reps, text, spans, ps) && reps <= more
    ensures AllRecorded(more, text, spans, ps)
  {
    hide Recorded;
    forall i | 0 <= i < |ps| ensures Recorded(more, text[spans[i].start..spans[i].end], ps[i]) {
      RecordedStays(reps, more, text[spans[i].start..spans[i].end], ps[i]);
    }
  }

  lemma AssignRecords(reserved: set<bytes>, st: State, original: bytes, rule: Rule)
    requires Inv(reserved, st)
    ensures var a := Assign(reserved, st, original, rule); Recorded(a.1.replacements, original, a.0)
  {
    hide Inv, Assign;
    AssignKeepsInv(reserved, st, original, rule);
    var a := Assign(reserved, st, original, rule);
    var i :| 0 <= i < |a.1.replacements| && a.1.replacements[i].original == original && a.1.replacements[i].placeholder == a.0;
    assert a.1.replacements[i] in a.1.replacements;
  }

  /** Minting numbers with the least free index. */
  lemma AssignNumbers(reserved: set<bytes>, st: State, original: bytes, rule: Rule)
    requires Filled(reserved, st)
    ensures var a := Assign(reserved, st, original, rule);
      && Filled(reserved, a.1)
      && (a.1.replacements == st.replacements
          || exists n :: LeastFree(reserved, st.replacements, rule.placeholder, n)
               && a.1.replacements == st.replacements + [Replacement(rule.id, rule.dataType, original, Render(rule.placeholder, n))])
  {
    hide NextIndex, Render, Filled, Counter;
    if original !in st.originals {
      var t := rule.placeholder;
      var c := Counter(st.counters, t);
      var n := NextIndex(reserved, t, c);
      AllAhead(reserved, t, c);
      NextIndexIsLeast(reserved, reserved, t, c);
      FilledUpTo(reserved, st, t, n);
      FilledAfter(reserved, st, t, n, Assign(reserved, st, original, rule).1);
    }
  }

  lemma FilledUpTo(reserved: set<bytes>, st: State, t: bytes, n: nat)
    requires Filled(reserved, st) && n > Counter(st.counters, t) && Render(t, n) !in reserved
    requires forall m | Counter(st.counters, t) < m < n :: Render(t, m) in reserved
    ensures LeastFree(reserved, st.replacements, t, n)
  {
    hide Render, Used;
  }

  lemma FilledAfter(reserved: set<bytes>, st: State, t: bytes, n: nat, now: State)
    requires Filled(reserved, st) && LeastFree(reserved, st.replacements, t, n)
    requires now.counters == st.counters[t := n]
    requires st.replacements < now.replacements && now.replacements[|st.replacements|].placeholder == Render(t, n)
    ensures Filled(reserved, now)
  {
    hide Render, Used;
    forall u, m | 1 <= m <= Counter(now.counters, u) ensures Render(u, m) in reserved || Used(now.replacements, Render(u, m)) {
      if u == t && m == n {
        StillUsed([], now.replacements, Render(t, n), |st.replacements|);
      } else {
        assert Render(u, m) in reserved || Used(st.replacements, Render(u, m));
        StillUsed(st.replacements, now.replacements, Render(u, m), |st.replacements|);
      }
    }
  }

  lemma StillUsed(reps: seq<Replacement>, now: seq<Replacement>, p: bytes, k: nat)
    requires reps <= now && k < |now|
    ensures Used(reps, p) || now[k].placeholder == p ==> Used(now, p)
  {
    if Used(reps, p) {
      var r :| r in reps && r.placeholder == p;
      var i :| 0 <= i < |reps| && reps[i] == r;
      assert now[i] in now;
    }
    assert now[k] in now;
  }

  /** A span in front of the others: it made the replacement that its bytes did not have, and no other later. */
  lemma SourcedStep(reserved: set<bytes>, st: State, text: bytes, m: ScanMatch, spans: seq<ScanMatch>, now: State, final: seq<Replacement>)
    requires Maskable(m) && m.end <= |text|
    requires var original := text[m.start..m.end];
      && Recorded(now.replacements, original, Assign(reserved, st, original, m.rule.value).0)
      && now.replacements == Assign(reserved, st, original, m.rule.value).1.replacements
    requires Filled(reserved, st) && DistinctReplacements(final) && now.replacements <= final
    requires Sourced(reserved, text, spans, |now.replacements|, final)
    ensures Sourced(reserved, text, [m] + spans, |st.replacements|, final)
  {
    hide MadeFor, Assign, Filled, LeastFree, Render;
    var original, rule := text[m.start..m.end], m.rule.value;
    AssignNumbers(reserved, st, original, rule);
    var k := |st.replacements|;
    forall i | k <= i < |final| ensures MadeForOne(reserved, text, [m] + spans, final, i) {
      if i < |now.replacements| {
        NewSource(reserved, text, m, spans, st.replacements, now.replacements, final);
      } else {
        assert MadeForOne(reserved, text, spans, final, i);
        var s: nat :| MadeFor(reserved, text, spans, final, i, s);
        LaterSource(reserved, text, m, spans, final, i, s, now.replacements);
        assert MadeFor(reserved, text, [m] + spans, final, i, s + 1);
      }
    }
  }

  lemma NewSource(reserved: set<bytes>, text: bytes, m: ScanMatch, spans: seq<ScanMatch>, before: seq<Replacement>, now: seq<Replacement>, final: seq<Replacement>)
    requires Maskable(m) && m.end <= |text| && now <= final
    requires (exists n :: (LeastFree(reserved, before, m.rule.value.placeholder, n)
      && now == before + [Replacement(m.rule.value.id, m.rule.value.dataType, text[m.start..m.end], Render(m.rule.value.placeholder, n))]))
    ensures MadeFor(reserved, text, [m] + spans, final, |before|, 0)
    ensures MadeForOne(reserved, text, [m] + spans, final, |before|)
  {
    hide LeastFree, Render;
    assert final[..|before|] == before;
    assert final[|before|] == now[|before|];
  }

  lemma LaterSource(reserved: set<bytes>, text: bytes, m: ScanMatch, spans: seq<ScanMatch>, final: seq<Replacement>, i: nat, s: nat, reps: seq<Replacement>)
    requires MadeFor(reserved, text, spans, final, i, s) && |reps| <= i && reps <= final && DistinctReplacements(final)
    requires m.start <= m.end <= |text| && exists p :: Recorded(reps, text[m.start..m.end], p)
    ensures MadeFor(reserved, text, [m] + spans, final, i, s + 1)
  {
    hide Maskable, LeastFree, Render;
    var all := [m] + spans;
    var p :| Recorded(reps, text[m.start..m.end], p);
    var r :| r in reps && r.original == text[m.start..m.end] && r.placeholder == p;
    var j :| 0 <= j < |reps| && reps[j] == r;
    assert final[j] == r && final[j].original != final[i].original;
    assert all[s + 1] == spans[s];
    forall e | 0 <= e < s + 1 ensures !HasBytes(text, all[e], final[i].original) {
      assert e > 0 ==> all[e] == spans[e - 1];
    }
  }

  lemma StepNotesRule(reserved: set<bytes>, st: State, original: bytes, m: ScanMatch, spans: seq<ScanMatch>, after: State)
    requires m.rule.Some?
    requires Notes(Seen(Assign(reserved, st, original, m.rule.value).1, m.rule.value), after, spans)
    ensures Notes(st, after, [m] + spans)
  {
    hide NextIndex;
    var all := [m] + spans;
    forall id ensures HasRuleId(all, id) <==> m.rule.value.id == id || HasRuleId(spans, id) {
      assert m in all && forall x <- spans :: x in all;
    }
    forall dt ensures HasDataType(all, dt) <==> (1 <= dt <= 6 && m.rule.value.dataType == dt) || HasDataType(spans, dt) {
      assert m in all && forall x <- spans :: x in all;
    }
  }

  /** What the walk writes from the cursor on, and what it records. */
  lemma {:induction false} WalkMasks(reserved: set<bytes>, st: State, text: bytes, ms: seq<ScanMatch>, pos: nat, out: bytes)
      returns (ks: seq<nat>, ps: seq<bytes>)
    requires Inv(reserved, st) && Filled(reserved, st) && InText(text, ms) && pos <= |text|
    ensures Selects(ms, pos, ks) && |ps| == |ks| && (forall i | 0 <= i < |ks| :: ks[i] < |ms|) && InOrder(text, Picked(ms, ks), pos)
    ensures var r := Walk(reserved, st, text, ms, pos, out);
      && r.0 == Ok(out + Pieces(text, Picked(ms, ks), ps, pos))
      && AllRecorded(r.1.replacements, text, Picked(ms, ks), ps) && Notes(st, r.1, Picked(ms, ks))
      && Filled(reserved, r.1) && Sourced(reserved, text, Picked(ms, ks), |st.replacements|, r.1.replacements)
    decreases |ms|
  {
    hide Filled, Sourced, Inv, Assign, Seen, Selects, AllRecorded, Notes, InText, Maskable, Taken, Walk;
    if ms == [] {
      ks, ps := [], [];
      WalkEnds(reserved, st, text, pos, out);
      NothingSelected(ms, pos);
      NothingSourced(reserved, text, st.replacements);
    } else {
      var m := ms[0];
      WalkStep(reserved, st, text, ms, pos, out);
      if !Maskable(m) || m.start < pos {
        ks, ps := WalkMasks(reserved, st, text, ms[1..], pos, out);
        SkipSelects(ms, pos, ks);
        ks := Shifted(ks);
      } else {
        var rule, original := m.rule.value, Taken(text, m);
        var a := Assign(reserved, st, original, rule);
        AssignKeepsInv(reserved, st, original, rule);
        SeenKeepsInv(reserved, a.1, rule);
        AssignNumbers(reserved, st, original, rule);
        SeenKeepsFilled(reserved, a.1, rule);
        var wrote := out + text[pos..m.start] + a.0;
        var later, others := WalkMasks(reserved, Seen(a.1, rule), text, ms[1..], m.end, wrote);
        TakeSelects(ms, pos, later);
        ks, ps := [0] + Shifted(later), [a.0] + others;
        AssignRecords(reserved, st, original, rule);
        WalkKeepsInv(reserved, Seen(a.1, rule), text, ms[1..], m.end, wrote);
        var r := Walk(reserved, st, text, ms, pos, out);
        RecordedStays(a.1.replacements, r.1.replacements, original, a.0);
        OneMoreSpan(text, m, Picked(ms[1..], later), a.0, others, pos, out, r.1.replacements);
        StepNotesRule(reserved, st, original, m, Picked(ms[1..], later), r.1);
        DistinctInInv(reserved, r.1);
        MaskableSpan(m);
        SourcedStep(reserved, st, text, m, Picked(ms[1..], later), a.1, r.1.replacements);
      }
    }
  }

  lemma NothingSourced(reserved: set<bytes>, text: bytes, reps: seq<Replacement>)
    ensures Sourced(reserved, text, [], |reps|, reps)
  {
  }

  lemma SeenKeepsFilled(reserved: set<bytes>, st: State, rule: Rule)
    requires Filled(reserved, st)
    ensures Filled(reserved, Seen(st, rule))
  {
    hide Render;
  }

  lemma DistinctInInv(reserved: set<bytes>, st: State)
    requires Inv(reserved, st)
    ensures DistinctReplacements(st.replacements)
  {
    hide Minted, Agree, DistinctReplacements;
  }

  lemma MaskableSpan(m: ScanMatch)
    requires Maskable(m)
    ensures m.start < m.end && m.rule.Some?
  {
  }

  lemma WalkEnds(reserved: set<bytes>, st: State, text: bytes, pos: nat, out: bytes)
    requires pos <= |text|
    ensures Walk(reserved, st, text, [], pos, out) == (Ok(out + text[pos..]), st)
    ensures AllRecorded(st.replacements, text, [], []) && Notes(st, st, [])
  {
  }

  lemma OneMoreSpan(text: bytes, m: ScanMatch, spans: seq<ScanMatch>, p: bytes, ps: seq<bytes>, pos: nat, out: bytes, reps: seq<Replacement>)
    requires pos <= m.start <= m.end <= |text| && InOrder(text, spans, m.end) && |ps| == |spans|
    requires Recorded(reps, text[m.start..m.end], p) && AllRecorded(reps, text, spans, ps)
    ensures InOrder(text, [m] + spans, pos) && AllRecorded(reps, text, [m] + spans, [p] + ps)
    ensures out + Pieces(text, [m] + spans, [p] + ps, pos) == out + text[pos..m.start] + p + Pieces(text, spans, ps, m.end)
  {
    hide Recorded;
    var all, allPs := [m] + spans, [p] + ps;
    assert all[1..] == spans && allPs[1..] == ps;
    forall i | 0 <= i < |all|
      ensures all[i].start <= all[i].end <= |text| && Recorded(reps, text[all[i].start..all[i].end], allPs[i])
    {
      assert i > 0 ==> all[i] == spans[i - 1] && allPs[i] == ps[i - 1];
    }
    var piece, rest := text[pos..m.start], Pieces(text, spans, ps, m.end);
    Join3(out, piece, p);
    Join3(out, piece + p, rest);
  }

  // ---- Failures ----

  /** The walk fails at the first span without a rule, or that begins past the end of the text, when all spans before lie in the text. */
  lemma {:induction false} WalkFailsAt(reserved: set<bytes>, st: State, text: bytes, ms: seq<ScanMatch>, pos: nat, out: bytes, k: nat)
    requires k < |ms| && InText(text, ms[..k]) && pos <= |text|
    requires ms[k].rule.None? || ms[k].start > |text|
    ensures Walk(reserved, st, text, ms, pos, out).0 == Err(if ms[k].rule.None? then NullRule else OutOfRange)
    decreases k
  {
    hide Assign, Seen, Taken;
    if k > 0 {
      var m, rest := ms[0], ms[1..];
      assert m == ms[..k][0] && m in ms[..k];
      assert rest[..k - 1] == ms[..k][1..] && rest[k - 1] == ms[k];
      assert forall x <- rest[..k - 1] :: x in ms[..k];
      if m.start < pos || Taken(text, m) == [] || m.rule.value.placeholder == [] {
        WalkFailsAt(reserved, st, text, rest, pos, out, k - 1);
      } else {
        var a := Assign(reserved, st, Taken(text, m), m.rule.value);
        WalkFailsAt(reserved, Seen(a.1, m.rule.value), text, rest, m.end, out + text[pos..m.start] + a.0, k - 1);
      }
    }
  }

  // ---- All texts ----

  /** Every text is masked as its spans say, by the replacements recorded at the end. */
  ghost predicate AllMasked(texts: seq<bytes>, matches: seq<seq<ScanMatch>>, masked: seq<bytes>, reps: seq<Replacement>, kss: seq<seq<nat>>, pss: seq<seq<bytes>>) {
    && |matches| == |texts| && |masked| == |texts| && |kss| == |texts| && |pss| == |texts|
    && forall k | 0 <= k < |texts| :: IsMasking(texts[k], matches[k], masked[k], reps, kss[k], pss[k])
  }

  /** Replacement `i` was made for a masked span of this text. */
  ghost predicate MadeIn(reserved: set<bytes>, text: bytes, ms: seq<ScanMatch>, ks: seq<nat>, reps: seq<Replacement>, i: nat) {
    (forall j | 0 <= j < |ks| :: ks[j] < |ms|) && MadeForOne(reserved, text, Picked(ms, ks), reps, i)
  }

  ghost predicate MadeSomewhere(reserved: set<bytes>, texts: seq<bytes>, matches: seq<seq<ScanMatch>>, kss: seq<seq<nat>>, reps: seq<Replacement>, i: nat)
    requires |matches| == |texts| && |kss| == |texts|
  {
    exists k | 0 <= k < |texts| :: MadeIn(reserved, texts[k], matches[k], kss[k], reps, i)
  }

  /** Every replacement from `from` on was made for a masked span. */
  ghost predicate AllSourced(reserved: set<bytes>, texts: seq<bytes>, matches: seq<seq<ScanMatch>>, kss: seq<seq<nat>>, from: nat, reps: seq<Replacement>) {
    && |matches| == |texts| && |kss| == |texts|
    && forall i | from <= i < |reps| :: MadeSomewhere(reserved, texts, matches, kss, reps, i)
  }

  predicate MaskedRuleId(ms: seq<ScanMatch>, ks: seq<nat>, id: bytes) {
    (forall j | 0 <= j < |ks| :: ks[j] < |ms|) && HasRuleId(Picked(ms, ks), id)
  }

  predicate MaskedDataType(ms: seq<ScanMatch>, ks: seq<nat>, dt: int) {
    (forall j | 0 <= j < |ks| :: ks[j] < |ms|) && HasDataType(Picked(ms, ks), dt)
  }

  /** The rules and data types noted are those of the masked spans. */
  ghost predicate AllNoted(before: State, after: State, matches: seq<seq<ScanMatch>>, kss: seq<seq<nat>>) {
    && |kss| == |matches|
    && (forall id :: id in after.seenRules
          <==> id in before.seenRules || exists k | 0 <= k < |kss| :: MaskedRuleId(matches[k], kss[k], id))
    && (forall dt :: dt in after.seenDataTypes
          <==> dt in before.seenDataTypes || exists k | 0 <= k < |kss| :: MaskedDataType(matches[k], kss[k], dt))
  }

  lemma NotedStep(before: State, mid: State, after: State, ms: seq<ScanMatch>, ks: seq<nat>, matches: seq<seq<ScanMatch>>, kss: seq<seq<nat>>)
    requires (forall j | 0 <= j < |ks| :: ks[j] < |ms|) && Notes(before, mid, Picked(ms, ks)) && AllNoted(mid, after, matches, kss)
    ensures AllNoted(before, after, [ms] + matches, [ks] + kss)
  {
    hide HasRuleId, HasDataType;
    var mss, all := [ms] + matches, [ks] + kss;
    assert forall k | 0 < k < |all| :: mss[k] == matches[k - 1] && all[k] == kss[k - 1];
    forall id
      ensures (exists k | 0 <= k < |all| :: MaskedRuleId(mss[k], all[k], id))
         <==> HasRuleId(Picked(ms, ks), id) || exists k | 0 <= k < |kss| :: MaskedRuleId(matches[k], kss[k], id)
    {
      assert MaskedRuleId(mss[0], all[0], id) <==> HasRuleId(Picked(ms, ks), id);
      if k :| 0 <= k < |kss| && MaskedRuleId(matches[k], kss[k], id) {
        assert MaskedRuleId(mss[k + 1], all[k + 1], id);
      }
    }
    forall dt
      ensures (exists k | 0 <= k < |all| :: MaskedDataType(mss[k], all[k], dt))
         <==> HasDataType(Picked(ms, ks), dt) || exists k | 0 <= k < |kss| :: MaskedDataType(matches[k], kss[k], dt)
    {
      assert MaskedDataType(mss[0], all[0], dt) <==> HasDataType(Picked(ms, ks), dt);
      if k :| 0 <= k < |kss| && MaskedDataType(matches[k], kss[k], dt) {
        assert MaskedDataType(mss[k + 1], all[k + 1], dt);
      }
    }
  }

  lemma SourceStays(reserved: set<bytes>, text: bytes, spans: seq<ScanMatch>, reps: seq<Replacement>, more: seq<Replacement>, i: nat)
    requires MadeForOne(reserved, text, spans, reps, i) && reps <= more
    ensures MadeForOne(reserved, text, spans, more, i)
  {
    hide LeastFree, Render, Maskable;
    var s: nat :| MadeFor(reserved, text, spans, reps, i, s);
    assert more[..i] == reps[..i];
    assert MadeFor(reserved, text, spans, more, i, s);
  }

  lemma SourcedAll(reserved: set<bytes>, text: bytes, texts: seq<bytes>, ms: seq<ScanMatch>, matches: seq<seq<ScanMatch>>,
                   ks: seq<nat>, kss: seq<seq<nat>>, from: nat, mid: seq<Replacement>, final: seq<Replacement>)
    requires forall j | 0 <= j < |ks| :: ks[j] < |ms|
    requires Sourced(reserved, text, Picked(ms, ks), from, mid) && mid <= final
    requires AllSourced(reserved, texts, matches, kss, |mid|, final)
    ensures AllSourced(reserved, [text] + texts, [ms] + matches, [ks] + kss, from, final)
  {
    hide MadeForOne;
    var all, mss, allKs := [text] + texts, [ms] + matches, [ks] + kss;
    forall i | from <= i < |final| ensures MadeSomewhere(reserved, all, mss, allKs, final, i) {
      if i < |mid| {
        SourceStays(reserved, text, Picked(ms, ks), mid, final, i);
        assert MadeIn(reserved, all[0], mss[0], allKs[0], final, i);
      } else {
        assert MadeSomewhere(reserved, texts, matches, kss, final, i);
        var k :| 0 <= k < |texts| && MadeIn(reserved, texts[k], matches[k], kss[k], final, i);
        assert MadeIn(reserved, all[k + 1], mss[k + 1], allKs[k + 1], final, i);
      }
    }
  }

  lemma MaskingStays(text: bytes, ms: seq<ScanMatch>, masked: bytes, reps: seq<Replacement>, more: seq<Replacement>, ks: seq<nat>, ps: seq<bytes>)
    requires IsMasking(text, ms, masked, reps, ks, ps) && reps <= more
    ensures IsMasking(text, ms, masked, more, ks, ps)
  {
    hide Overtaken, AllRecorded, Pieces;
    AllRecordedStay(reps, more, text, Picked(ms, ks), ps);
  }

  lemma {:induction false} TextsMask(reserved: set<bytes>, st: State, texts: seq<bytes>, matches: seq<seq<ScanMatch>>)
      returns (kss: seq<seq<nat>>, pss: seq<seq<bytes>>)
    requires AllInText(texts, matches) && Inv(reserved, st) && Filled(reserved, st)
    ensures var r := MaskedTexts(reserved, st, texts, matches);
      && r.0.Ok? && AllMasked(texts, matches, r.0.value, r.1.replacements, kss, pss)
      && AllSourced(reserved, texts, matches, kss, |st.replacements|, r.1.replacements) && AllNoted(st, r.1, matches, kss)
    decreases |texts|
  {
    hide Inv, Filled, Walk, IsMasking, Selects, AllRecorded, Notes, Sourced, MadeSomewhere, MaskedRuleId, MaskedDataType;
    if texts == [] {
      kss, pss := [], [];
    } else {
      var ks, ps := WalkMasks(reserved, st, texts[0], matches[0], 0, []);
      var first := MaskedText(reserved, st, texts[0], matches[0]);
      WalkKeepsInv(reserved, st, texts[0], matches[0], 0, []);
      TextsKeepInv(reserved, first.1, texts[1..], matches[1..]);
      var moreKs, morePs := TextsMask(reserved, first.1, texts[1..], matches[1..]);
      kss, pss := [ks] + moreKs, [ps] + morePs;
      var rest := MaskedTexts(reserved, first.1, texts[1..], matches[1..]);
      FirstMasked(texts[0], matches[0], first.0.value, first.1.replacements, ks, ps);
      MaskingStays(texts[0], matches[0], first.0.value, first.1.replacements, rest.1.replacements, ks, ps);
      assert texts == [texts[0]] + texts[1..] && matches == [matches[0]] + matches[1..];
      SourcedAll(reserved, texts[0], texts[1..], matches[0], matches[1..], ks, moreKs, |st.replacements|, first.1.replacements, rest.1.replacements);
      NotedStep(st, first.1, rest.1, matches[0], ks, matches[1..], moreKs);
      forall k | 0 <= k < |texts|
        ensures IsMasking(texts[k], matches[k], ([first.0.value] + rest.0.value)[k], rest.1.replacements, kss[k], pss[k])
      {
        if k > 0 {
          assert texts[1..][k - 1] == texts[k] && matches[1..][k - 1] == matches[k];
          assert kss[k] == moreKs[k - 1] && pss[k] == morePs[k - 1];
        }
      }
    }
  }

  lemma FirstMasked(text: bytes, ms: seq<ScanMatch>, masked: bytes, reps: seq<Replacement>, ks: seq<nat>, ps: seq<bytes>)
    requires Selects(ms, 0, ks) && |ps| == |ks| && InOrder(text, Picked(ms, ks), 0)
    requires masked == [] + Pieces(text, Picked(ms, ks), ps, 0) && AllRecorded(reps, text, Picked(ms, ks), ps)
    ensures IsMasking(text, ms, masked, reps, ks, ps)
  {
    hide AllRecorded, Pieces;
    assert [] + Pieces(text, Picked(ms, ks), ps, 0) == Pieces(text, Picked(ms, ks), ps, 0);
  }

  lemma FreshFilled(reserved: set<bytes>)
    ensures Filled(reserved, FRESH)
  {
  }

  /**
   Masking masks, for any spans in the texts: each masked text is the text with the
   placeholder recorded for its bytes in place of every span that can be masked and is not
   overtaken by an earlier one; every replacement was made for such a span, the first of
   its text with those bytes, under the least free number; and the rules and data types
   reported are those of the masked spans.
   */
  lemma MaskingMasks(texts: seq<bytes>, matches: seq<seq<ScanMatch>>) returns (kss: seq<seq<nat>>, pss: seq<seq<bytes>>)
    requires AllInText(texts, matches)
    ensures var r := MaskedTexts(Reserved(texts), FRESH, texts, matches);
      && r.0.Ok? && AllMasked(texts, matches, r.0.value, r.1.replacements, kss, pss)
      && AllSourced(Reserved(texts), texts, matches, kss, 0, r.1.replacements)
      && AllNoted(FRESH, r.1, matches, kss)
  {
    hide Reserved, MaskedTexts, Inv, Filled, AllMasked, AllSourced, AllNoted, AllInText;
    FreshInv(Reserved(texts));
    FreshFilled(Reserved(texts));
    kss, pss := TextsMask(Reserved(texts), FRESH, texts, matches);
    NoReplacementsYet();
  }

  lemma NoReplacementsYet()
    ensures FRESH.replacements == []
  {
  }

  // ---- Spans as the scanner gives them ----

  /** In order, without overlap, all maskable: what the scanner returns for rules with a type. */
  predicate Clean(ms: seq<ScanMatch>) {
    Separate(ms) && forall m <- ms :: Maskable(m)
  }

  lemma CleanIsPicked(ms: seq<ScanMatch>, ks: seq<nat>, k: nat)
    requires Selects(ms, 0, ks) && Clean(ms) && k < |ms|
    ensures k in ks
  {
    hide Maskable;
    assert ms[k] in ms;
    forall e | 0 <= e < |ks| && ks[e] < k ensures ms[ks[e]].end <= ms[k].start {
    }
  }

  lemma {:induction false} IndexAtLeast(ms: seq<ScanMatch>, ks: seq<nat>, i: nat)
    requires Picks(ms, 0, ks) && i < |ks|
    ensures i <= ks[i] < |ms|
    decreases i
  {
    hide Maskable;
    if i > 0 {
      IndexAtLeast(ms, ks, i - 1);
      assert ks[i - 1] < ks[i];
    }
  }

  lemma {:induction false} PicksEvery(ms: seq<ScanMatch>, ks: seq<nat>, i: nat)
    requires Picks(ms, 0, ks) && (forall k | 0 <= k < |ms| :: k in ks) && i <= |ms|
    ensures |ks| >= i && forall j | 0 <= j < i :: ks[j] == j
    decreases i
  {
    hide Maskable;
    if i > 0 {
      var k := i - 1;
      PicksEvery(ms, ks, k);
      assert k in ks;
      var e :| 0 <= e < |ks| && ks[e] == k;
      assert e >= k;
      assert k > 0 ==> ks[k - 1] < ks[k];
    }
  }

  /** Spans without overlap are all masked. */
  lemma CleanPicksAll(ms: seq<ScanMatch>, ks: seq<nat>)
    requires Selects(ms, 0, ks) && Clean(ms)
    ensures (forall i | 0 <= i < |ks| :: ks[i] < |ms|) && Picked(ms, ks) == ms
  {
    hide Overtaken, Maskable;
    var n := |ms|;
    forall k | 0 <= k < n ensures k in ks {
      CleanIsPicked(ms, ks, k);
    }
    PicksEvery(ms, ks, n);
    if ks != [] {
      IndexAtLeast(ms, ks, |ks| - 1);
    }
    assert |ks| == n;
  }

  /** Masked spans in the texts, in order and apart: every one is replaced by the placeholder recorded for its bytes. */
  lemma EverySpanIsMasked(texts: seq<bytes>, matches: seq<seq<ScanMatch>>) returns (pss: seq<seq<bytes>>)
    requires AllInText(texts, matches) && forall ms <- matches :: Clean(ms)
    ensures |pss| == |texts|
    ensures var r := MaskedTexts(Reserved(texts), FRESH, texts, matches);
      && r.0.Ok? && |r.0.value| == |texts|
      && forall k | 0 <= k < |texts| ::
        InOrder(texts[k], matches[k], 0) && AllRecorded(r.1.replacements, texts[k], matches[k], pss[k])
        && r.0.value[k] == Pieces(texts[k], matches[k], pss[k], 0)
  {
    hide Reserved, MaskedTexts, AllSourced, AllNoted, InText, Clean, Selects, AllRecorded, InOrder, Pieces;
    var kss;
    kss, pss := MaskingMasks(texts, matches);
    forall k | 0 <= k < |texts|
      ensures Selects(matches[k], 0, kss[k]) && (forall i | 0 <= i < |kss[k]| :: kss[k][i] < |matches[k]|) && Picked(matches[k], kss[k]) == matches[k]
    {
      assert matches[k] in matches;
      CleanPicksAll(matches[k], kss[k]);
    }
  }
}
