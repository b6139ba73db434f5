/**
 Phase B of Masker.hpp: every text is masked in turn through one shared state that mints
 placeholders and remembers which original each one stands for.
 */
module Masker {
  import opened Bytes
  import opened Rules
  import opened Placeholders

  /** What mask_text throws: a null rule, or a span that starts past the end of the text. */
  datatype MaskError = NullRule | OutOfRange

  datatype State = State(
    originals: map<bytes, bytes>,
    counters: map<bytes, nat>,
    seenRules: set<bytes>,
    seenDataTypes: set<int>,
    replacements: seq<Replacement>)

  const FRESH := State(map[], map[], {}, {}, [])

  // ---- Literals already in the texts ----

  /** Every literal that stands anywhere in the text. */
  function LiteralsIn(text: bytes): set<bytes> {
    set i | 0 <= i < |text| && LiteralEnd(text, i).Some? :: Slice(text, i, LiteralEnd(text, i).value)
  }

  function Slice(text: bytes, a: nat, b: nat): bytes {
    if a <= b <= |text| then text[a..b] else []
  }

  function Reserved(texts: seq<bytes>): set<bytes> {
    set text, p | text in texts && p in LiteralsIn(text) :: p
  }

  /** The leftmost literal from `pos` on: one FindAndConsume. */
  method FindLiteral(text: bytes, pos: nat) returns (r: Option<nat>)
    requires pos <= |text|
    ensures r.Some? ==> pos <= r.value < |text| && LiteralEnd(text, r.value).Some?
    ensures forall i | pos <= i < (if r.Some? then r.value else |text|) :: LiteralEnd(text, i).None?
  {
    for i := pos to |text|
      invariant forall j | pos <= j < i :: LiteralEnd(text, j).None?
    {
      if LiteralEnd(text, i).Some? {
        return Some(i);
      }
    }
    return None;
  }

  /** Inside a literal no other begins. */
  lemma NoLiteralInside(text: bytes, i: nat, j: nat)
    requires i < j <= |text| && LiteralEnd(text, i).Some? && j < LiteralEnd(text, i).value
    ensures LiteralEnd(text, j).None?
  {
    LiteralEndFinds(text, i);
    var e := LiteralEnd(text, i).value;
    LiteralIsToken(text[i..e]);
    TokenBytes(text[i..e]);
    assert text[i..e][j - i] == text[j];
  }

  /** Consuming one match after the other finds every literal, overlapping places included. */
  method ScanLiterals(text: bytes) returns (found: set<bytes>)
    ensures found == LiteralsIn(text)
  {
    hide LiteralEnd;
    found := {};
    var pos := 0;
    while pos < |text|
      invariant 0 <= pos <= |text|
      invariant found == set i | 0 <= i < pos && LiteralEnd(text, i).Some? :: Slice(text, i, LiteralEnd(text, i).value)
      decreases |text| - pos
    {
      var next := FindLiteral(text, pos);
      if next.None? {
        return;
      }
      var i := next.value;
      LiteralEndFinds(text, i);
      var e := LiteralEnd(text, i).value;
      forall j | i < j < e ensures LiteralEnd(text, j).None? {
        NoLiteralInside(text, i, j);
      }
      found := found + {text[i..e]};
      pos := e;
    }
  }

  method ReservedPlaceholders(texts: seq<bytes>) returns (reserved: set<bytes>)
    ensures reserved == Reserved(texts)
  {
    hide LiteralsIn;
    reserved := {};
    for i := 0 to |texts|
      invariant reserved == Reserved(texts[..i])
    {
      assert texts[..i + 1] == texts[..i] + [texts[i]];
      var found := ScanLiterals(texts[i]);
      reserved := reserved + found;
    }
    assert texts[..|texts|] == texts;
  }

  lemma LiteralsAreReserved(texts: seq<bytes>, k: nat, i: nat)
    requires k < |texts| && i < |texts[k]|
    ensures LiteralEnd(texts[k], i).Some? ==> Slice(texts[k], i, LiteralEnd(texts[k], i).value) in Reserved(texts)
  {
    hide LiteralEnd;
    assert LiteralEnd(texts[k], i).Some? ==> Slice(texts[k], i, LiteralEnd(texts[k], i).value) in LiteralsIn(texts[k]);
  }

  /** What is reserved: the literals that stand somewhere in some text, and nothing else. */
  lemma ReservedIff(texts: seq<bytes>, p: bytes)
    ensures p in Reserved(texts) <==> IsLiteral(p) && exists text <- texts, i: nat :: At(text, i, p)
  {
    hide LiteralEnd, IsLiteral;
    if p in Reserved(texts) {
      var text :| text in texts && p in LiteralsIn(text);
      var i: nat :| i < |text| && LiteralEnd(text, i).Some? && p == Slice(text, i, LiteralEnd(text, i).value);
      LiteralEndFinds(text, i);
      assert At(text, i, p);
    }
    if IsLiteral(p) {
      if text, i: nat :| text in texts && At(text, i, p) {
        LiteralStands(text, i, p);
        assert p in LiteralsIn(text);
      }
    }
  }

  lemma LiteralStands(text: bytes, i: nat, p: bytes)
    requires At(text, i, p) && IsLiteral(p)
    ensures i < |text| && LiteralEnd(text, i).Some? && p == Slice(text, i, LiteralEnd(text, i).value)
  {
    LiteralIsFound(text, i, p);
  }

  /** A literal that is not reserved stands in none of the texts. */
  lemma UnreservedIsAbsent(texts: seq<bytes>, p: bytes, k: nat, i: nat)
    requires IsLiteral(p) && p !in Reserved(texts) && k < |texts|
    ensures !At(texts[k], i, p)
  {
    var text := texts[k];
    if i < |text| {
      LiteralsAreReserved(texts, k, i);
    }
    if At(text, i, p) {
      LiteralIsFound(text, i, p);
    }
  }

  // ---- Minting ----

  function Counter(counters: map<bytes, nat>, type_: bytes): nat {
    if type_ in counters then counters[type_] else 0
  }

  /** The index of the next placeholder of a type; `left` are the reserved renderings still ahead. */
  function NextIndex(left: set<bytes>, type_: bytes, counter: nat): nat
    decreases |left|
  {
    var p := Render(type_, counter + 1);
    if p in left then NextIndex(left - {p}, type_, counter + 1) else counter + 1
  }

  /** `left` holds every reserved rendering above the counter. */
  ghost predicate Ahead(left: set<bytes>, reserved: set<bytes>, type_: bytes, counter: nat) {
    left <= reserved && forall n | n > counter && Render(type_, n) in reserved :: Render(type_, n) in left
  }

  lemma AheadStep(left: set<bytes>, reserved: set<bytes>, type_: bytes, counter: nat)
    requires Ahead(left, reserved, type_, counter)
    ensures Ahead(left - {Render(type_, counter + 1)}, reserved, type_, counter + 1)
  {
    hide Render;
    forall n | n > counter + 1 && Render(type_, n) in reserved ensures Render(type_, n) in left - {Render(type_, counter + 1)} {
      if Render(type_, n) == Render(type_, counter + 1) {
        RenderInjective(type_, n, type_, counter + 1);
      }
    }
  }

  /** The next index is the first one above the counter whose rendering is not reserved. */
  lemma {:induction false} NextIndexIsLeast(left: set<bytes>, reserved: set<bytes>, type_: bytes, counter: nat)
    requires Ahead(left, reserved, type_, counter)
    ensures var n := NextIndex(left, type_, counter);
      && n > counter && Render(type_, n) !in reserved
      && forall m | counter < m < n :: Render(type_, m) in reserved
    decreases |left|
  {
    hide Render, Ahead;
    var p := Render(type_, counter + 1);
    AheadHere(left, reserved, type_, counter);
    if p in left {
      AheadStep(left, reserved, type_, counter);
      NextIndexIsLeast(left - {p}, reserved, type_, counter + 1);
    }
  }

  lemma AheadHere(left: set<bytes>, reserved: set<bytes>, type_: bytes, counter: nat)
    requires Ahead(left, reserved, type_, counter)
    ensures Render(type_, counter + 1) in left <==> Render(type_, counter + 1) in reserved
  {
    hide Render;
  }

  /** The placeholder for an original, and the state after it. */
  function Assign(reserved: set<bytes>, st: State, original: bytes, rule: Rule): (bytes, State) {
    if original in st.originals then (st.originals[original], st)
    else
      var n := NextIndex(reserved, rule.placeholder, Counter(st.counters, rule.placeholder));
      var p := Render(rule.placeholder, n);
      (p, st.(originals := st.originals[original := p],
              counters := st.counters[rule.placeholder := n],
              replacements := st.replacements + [Replacement(rule.id, rule.dataType, original, p)]))
  }

  predicate IsTriggerable(dataType: int) {
    1 <= dataType <= 6
  }

  function Seen(st: State, rule: Rule): State {
    st.(seenRules := st.seenRules + {rule.id},
        seenDataTypes := if IsTriggerable(rule.dataType) then st.seenDataTypes + {rule.dataType} else st.seenDataTypes)
  }

  // ---- Masking one text ----

  /** The bytes of a match; an end before the start wraps around to the end of the text. */
  function Taken(text: bytes, m: ScanMatch): bytes
    requires m.start <= |text|
  {
    if m.start <= m.end <= |text| then text[m.start..m.end] else text[m.start..]
  }

  /** The walk of mask_text from the cursor `pos` on, with what it has written. */
  function Walk(reserved: set<bytes>, st: State, text: bytes, ms: seq<ScanMatch>, pos: nat, out: bytes): (Result<bytes, MaskError>, State)
    decreases |ms|
  {
    if ms == [] then
      if pos > |text| then (Err(OutOfRange), st) else (Ok(out + text[pos..]), st)
    else
      var m := ms[0];
      match m.rule
      case None => (Err(NullRule), st)
      case Some(rule) =>
        if m.start < pos then Walk(reserved, st, text, ms[1..], pos, out)
        else if m.start > |text| then (Err(OutOfRange), st)
        else if Taken(text, m) == [] || rule.placeholder == [] then Walk(reserved, st, text, ms[1..], pos, out)
        else
          var a := Assign(reserved, st, Taken(text, m), rule);
          Walk(reserved, Seen(a.1, rule), text, ms[1..], m.end, out + text[pos..m.start] + a.0)
  }

  function MaskedText(reserved: set<bytes>, st: State, text: bytes, ms: seq<ScanMatch>): (Result<bytes, MaskError>, State) {
    Walk(reserved, st, text, ms, 0, [])
  }

  /** The texts masked in order; an error ends the whole call. */
  function MaskedTexts(reserved: set<bytes>, st: State, texts: seq<bytes>, matches: seq<seq<ScanMatch>>): (Result<seq<bytes>, MaskError>, State)
    requires |matches| == |texts|
    decreases |texts|
  {
    if texts == [] then (Ok([]), st)
    else
      var first := MaskedText(reserved, st, texts[0], matches[0]);
      match first.0
      case Err(e) => (Err(e), first.1)
      case Ok(masked) =>
        var rest := MaskedTexts(reserved, first.1, texts[1..], matches[1..]);
        match rest.0
        case Err(e) => rest
        case Ok(others) => (Ok([masked] + others), rest.1)
  }

  class MaskerState {
    const reserved: set<bytes>
    var originals: map<bytes, bytes>
    var counters: map<bytes, nat>
    var seenRules: set<bytes>
    var seenDataTypes: set<int>
    var replacements: seq<Replacement>

    ghost function View(): State
      reads this
    {
      State(originals, counters, seenRules, seenDataTypes, replacements)
    }

    constructor (reserved: set<bytes>)
      ensures this.reserved == reserved && View() == FRESH
    {
      this.reserved := reserved;
      originals, counters, seenRules, seenDataTypes, replacements := map[], map[], {}, {}, [];
    }

    method NextPlaceholder(type_: bytes) returns (p: bytes)
      modifies this`counters
      ensures var n := NextIndex(reserved, type_, Counter(old(counters), type_));
        p == Render(type_, n) && counters == old(counters)[type_ := n]
    {
      hide Render, Ahead;
      ghost var left := reserved;
      AllAhead(reserved, type_, Counter(counters, type_));
      while true
        invariant left <= reserved
        invariant Ahead(left, reserved, type_, Counter(counters, type_))
        invariant NextIndex(left, type_, Counter(counters, type_)) == NextIndex(reserved, type_, Counter(old(counters), type_))
        invariant forall t | t != type_ :: t in counters <==> t in old(counters)
        invariant forall t | t != type_ && t in counters :: counters[t] == old(counters)[t]
        decreases |left|
      {
        ghost var before := Counter(counters, type_);
        AheadHere(left, reserved, type_, before);
        AheadStep(left, reserved, type_, before);
        var counter := Counter(counters, type_) + 1;
        counters := counters[type_ := counter];
        p := Render(type_, counter);
        if p !in reserved {
          return;
        }
        left := left - {p};
      }
    }

    method PlaceholderForOriginal(original: bytes, rule: Rule) returns (p: bytes, created: bool)
      modifies this`counters, this`originals
      ensures var a := Assign(reserved, old(View()), original, rule);
        && p == a.0 && originals == a.1.originals && counters == a.1.counters
        && created == (original !in old(originals))
        && a.1.replacements == replacements + if created then [Replacement(rule.id, rule.dataType, original, p)] else []
    {
      hide NextIndex;
      if original in originals {
        return originals[original], false;
      }
      p := NextPlaceholder(rule.placeholder);
      originals := originals[original := p];
      created := true;
    }

    method MaskText(text: bytes, ms: seq<ScanMatch>) returns (r: Result<bytes, MaskError>)
      modifies this
      ensures (r, View()) == MaskedText(reserved, old(View()), text, ms)
    {
      hide Assign, Seen, Taken;
      var out: bytes := [];
      var pos := 0;
      for i := 0 to |ms|
        invariant 0 <= pos
        invariant Walk(reserved, View(), text, ms[i..], pos, out) == MaskedText(reserved, old(View()), text, ms)
      {
        var m := ms[i];
        assert ms[i..][1..] == ms[i + 1..] && ms[i..][0] == m;
        if m.rule.None? {
          return Err(NullRule);
        }
        if m.start < pos {
          continue;
        }
        if m.start > |text| {
          return Err(OutOfRange);
        }
        var original := Taken(text, m);
        var rule := m.rule.value;
        if original == [] || rule.placeholder == [] {
          continue;
        }
        ghost var st := View();
        var p, created := PlaceholderForOriginal(original, rule);
        if created {
          replacements := replacements + [Replacement(rule.id, rule.dataType, original, p)];
        }
        seenRules := seenRules + {rule.id};
        if IsTriggerable(rule.dataType) {
          seenDataTypes := seenDataTypes + {rule.dataType};
        }
        AssignSeen(reserved, st, original, rule, View());
        out := out + text[pos..m.start] + p;
        pos := m.end;
      }
      if pos > |text| {
        return Err(OutOfRange);
      }
      return Ok(out + text[pos..]);
    }
  }

  lemma AllAhead(reserved: set<bytes>, type_: bytes, counter: nat)
    ensures Ahead(reserved, reserved, type_, counter)
  {
  }

  /** A state with the fields that assigning and noting the rule give is that state. */
  lemma AssignSeen(reserved: set<bytes>, st: State, original: bytes, rule: Rule, now: State)
    requires var a := Assign(reserved, st, original, rule).1;
      && now.originals == a.originals && now.counters == a.counters && now.replacements == a.replacements
      && now.seenRules == st.seenRules + {rule.id}
      && now.seenDataTypes == if IsTriggerable(rule.dataType) then st.seenDataTypes + {rule.dataType} else st.seenDataTypes
    ensures now == Seen(Assign(reserved, st, original, rule).1, rule)
  {
    hide NextIndex;
  }

  /** Phase B of mask_texts, after every text has been scanned. */
  method MaskTexts(texts: seq<bytes>, matches: seq<seq<ScanMatch>>) returns (r: Result<seq<bytes>, MaskError>, replacements: seq<Replacement>)
    requires |matches| == |texts|
    ensures var spec := MaskedTexts(Reserved(texts), FRESH, texts, matches);
      r == spec.0 && replacements == spec.1.replacements
  {
    hide Walk, Reserved, LiteralsIn;
    var reserved := ReservedPlaceholders(texts);
    var masker := new MaskerState(reserved);
    var masked: seq<bytes> := [];
    assert texts[0..] == texts && matches[0..] == matches;
    PrependNothing(MaskedTexts(reserved, FRESH, texts, matches).0);
    for i := 0 to |texts|
      invariant |masked| == i
      invariant masker.reserved == reserved
      invariant var rest := MaskedTexts(reserved, masker.View(), texts[i..], matches[i..]);
        MaskedTexts(reserved, FRESH, texts, matches) == (Prepended(masked, rest.0), rest.1)
    {
      assert texts[i..][1..] == texts[i + 1..] && matches[i..][1..] == matches[i + 1..];
      ghost var before := masked;
      if matches[i] == [] {
        NothingToMask(reserved, masker.View(), texts[i]);
        masked := masked + [texts[i]];
      } else {
        var one := masker.MaskText(texts[i], matches[i]);
        if one.Err? {
          return Err(one.error), masker.replacements;
        }
        masked := masked + [one.value];
      }
      ghost var rest := MaskedTexts(reserved, masker.View(), texts[i + 1..], matches[i + 1..]);
      if rest.0.Ok? {
        Join3(before, [masked[i]], rest.0.value);
      }
    }
    assert masked + [] == masked;
    return Ok(masked), masker.replacements;
  }

  function Prepended(masked: seq<bytes>, rest: Result<seq<bytes>, MaskError>): Result<seq<bytes>, MaskError> {
    match rest
    case Err(e) => Err(e)
    case Ok(others) => Ok(masked + others)
  }

  lemma PrependNothing(rest: Result<seq<bytes>, MaskError>)
    ensures Prepended([], rest) == rest
  {
    if rest.Ok? {
      assert [] + rest.value == rest.value;
    }
  }

  lemma NothingToMask(reserved: set<bytes>, st: State, text: bytes)
    ensures MaskedText(reserved, st, text, []) == (Ok(text), st)
  {
    assert [] + text[0..] == text;
  }
}
