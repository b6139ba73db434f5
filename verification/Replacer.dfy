/**
 The exact pass of demask/Demasker.hpp: the tables that make_config fills, and the
 replacer that reads them. At every position the entry with the lowest index wins among
 all whose placeholder stands there; inserted originals are not scanned again.
 */
module Replacer {
  import opened Bytes
  import opened Rules
  import JsonStrings

  /** One placeholder and its original, verbatim and JSON-escaped. */
  datatype Entry = Entry(placeholder: bytes, original: bytes, jsonOriginal: bytes)

  datatype Config = Config(
    entries: seq<Entry>,
    index: map<bytes, nat>,
    lengths: seq<nat>,
    firstByte: seq<bool>,
    maxPending: nat)

  // ---- What the exact pass computes ----

  /** The first entry whose placeholder stands at the front of `text`. */
  function Hit(es: seq<Entry>, text: bytes): (r: Option<nat>)
    ensures r.Some? ==> r.value < |es| && es[r.value].placeholder <= text
    ensures r.Some? ==> forall k | 0 <= k < r.value :: !(es[k].placeholder <= text)
    ensures r.None? ==> forall k | 0 <= k < |es| :: !(es[k].placeholder <= text)
  {
    HitFrom(es, text, 0)
  }

  function HitFrom(es: seq<Entry>, text: bytes, i: nat): (r: Option<nat>)
    requires i <= |es| && forall k | 0 <= k < i :: !(es[k].placeholder <= text)
    ensures r.Some? ==> r.value < |es| && es[r.value].placeholder <= text
    ensures r.Some? ==> forall k | 0 <= k < r.value :: !(es[k].placeholder <= text)
    ensures r.None? ==> forall k | 0 <= k < |es| :: !(es[k].placeholder <= text)
    decreases |es| - i
  {
    if i == |es| then None
    else if es[i].placeholder <= text then Some(i)
    else HitFrom(es, text, i + 1)
  }

  predicate NonBlank(es: seq<Entry>) {
    forall k | 0 <= k < |es| :: es[k].placeholder != []
  }

  function Inserted(e: Entry, json: bool): bytes {
    if json then e.jsonOriginal else e.original
  }

  /** `text` with placeholders replaced by originals, in one pass from left to right. */
  function Restore(es: seq<Entry>, json: bool, text: bytes): bytes
    requires NonBlank(es)
    decreases |text|
  {
    if text == [] then []
    else
      match Hit(es, text)
      case None => [text[0]] + Restore(es, json, text[1..])
      case Some(k) =>
        Inserted(es[k], json) + Restore(es, json, text[|es[k].placeholder|..])
  }

  /** One step of Restore. */
  lemma RestoreUnfolds(es: seq<Entry>, json: bool, text: bytes)
    requires NonBlank(es) && text != []
    ensures match Hit(es, text)
      case None => Restore(es, json, text) == [text[0]] + Restore(es, json, text[1..])
      case Some(k) =>
        es[k].placeholder != []
        && Restore(es, json, text) == Inserted(es[k], json) + Restore(es, json, text[|es[k].placeholder|..])
  {
  }

  // ---- The tables ----

  predicate HasPlaceholder(es: seq<Entry>, p: bytes) {
    exists k :: 0 <= k < |es| && es[k].placeholder == p
  }

  function EntryOf(r: Replacement): Entry {
    Entry(r.placeholder, r.original, JsonStrings.Encode(r.original, false))
  }

  /** Blank placeholders are skipped, and a repeated placeholder keeps its first original. */
  function EntriesOf(reps: seq<Replacement>): seq<Entry> {
    if reps == [] then []
    else
      var n := |reps| - 1;
      var es := EntriesOf(reps[..n]);
      if reps[n].placeholder == [] || HasPlaceholder(es, reps[n].placeholder) then es else es + [EntryOf(reps[n])]
  }

  predicate DistinctPlaceholders(es: seq<Entry>) {
    forall i, j | 0 <= i < j < |es| :: es[i].placeholder != es[j].placeholder
  }

  /** `e` comes from replacement `i`, the first one with its placeholder. */
  predicate IsFirst(reps: seq<Replacement>, e: Entry, i: nat) {
    i < |reps| && e == EntryOf(reps[i]) && forall j | 0 <= j < i :: reps[j].placeholder != e.placeholder
  }

  predicate ComesFromFirst(reps: seq<Replacement>, e: Entry) {
    exists i | 0 <= i < |reps| :: IsFirst(reps, e, i)
  }

  /** Every replacement's placeholder has one entry, with the original of the first replacement that has it. */
  lemma {:induction false} EntriesAreFirsts(reps: seq<Replacement>)
    ensures NonBlank(EntriesOf(reps)) && DistinctPlaceholders(EntriesOf(reps))
    ensures forall e <- EntriesOf(reps) :: ComesFromFirst(reps, e)
    ensures forall i | 0 <= i < |reps| && reps[i].placeholder != [] :: HasPlaceholder(EntriesOf(reps), reps[i].placeholder)
    decreases |reps|
  {
    hide EntryOf, ComesFromFirst, HasPlaceholder;
    if reps != [] {
      var n := |reps| - 1;
      var es, all := EntriesOf(reps[..n]), EntriesOf(reps);
      EntriesAreFirsts(reps[..n]);
      LastEntry(reps, n);
      forall e <- all ensures ComesFromFirst(reps, e) {
        if e in es {
          StillFirst(reps, n, e);
        }
      }
      forall i | 0 <= i < |reps| && reps[i].placeholder != [] ensures HasPlaceholder(all, reps[i].placeholder) {
        if i < n {
          assert reps[..n][i] == reps[i];
          HasMore(es, EntryOf(reps[n]), reps[i].placeholder);
        }
      }
    }
  }

  lemma StillFirst(reps: seq<Replacement>, n: nat, e: Entry)
    requires n < |reps| && ComesFromFirst(reps[..n], e)
    ensures ComesFromFirst(reps, e)
  {
    hide EntryOf;
    var i :| 0 <= i < n && IsFirst(reps[..n], e, i);
    assert reps[..n][i] == reps[i];
    assert forall j | 0 <= j < i :: reps[j] == reps[..n][j];
    assert IsFirst(reps, e, i);
  }

  lemma HasMore(es: seq<Entry>, e: Entry, p: bytes)
    requires HasPlaceholder(es, p)
    ensures HasPlaceholder(es + [e], p)
  {
    var k :| 0 <= k < |es| && es[k].placeholder == p;
    assert (es + [e])[k].placeholder == p;
  }

  /** What the last replacement adds. */
  lemma LastEntry(reps: seq<Replacement>, n: nat)
    requires n + 1 == |reps|
    requires forall i | 0 <= i < n && reps[..n][i].placeholder != [] :: HasPlaceholder(EntriesOf(reps[..n]), reps[..n][i].placeholder)
    requires NonBlank(EntriesOf(reps[..n])) && DistinctPlaceholders(EntriesOf(reps[..n]))
    ensures var es, all := EntriesOf(reps[..n]), EntriesOf(reps);
      && (all == es || (all == es + [EntryOf(reps[n])] && ComesFromFirst(reps, EntryOf(reps[n]))))
      && NonBlank(all) && DistinctPlaceholders(all)
      && (reps[n].placeholder != [] ==> HasPlaceholder(all, reps[n].placeholder))
  {
    hide JsonStrings.Encode;
    var es, all, last := EntriesOf(reps[..n]), EntriesOf(reps), reps[n];
    if last.placeholder != [] && !HasPlaceholder(es, last.placeholder) {
      assert all[|es|].placeholder == last.placeholder;
      forall j | 0 <= j < n ensures reps[j].placeholder != last.placeholder {
        assert reps[..n][j] == reps[j];
      }
      assert IsFirst(reps, EntryOf(last), n);
    }
  }

  function MaxLength(es: seq<Entry>): nat {
    if es == [] then 0
    else
      var n := |es| - 1;
      if |es[n].placeholder| > MaxLength(es[..n]) then |es[n].placeholder| else MaxLength(es[..n])
  }

  function MaxOf(s: seq<nat>): nat {
    if s == [] then 0
    else
      var n := |s| - 1;
      if s[n] > MaxOf(s[..n]) then s[n] else MaxOf(s[..n])
  }

  lemma {:induction false} MaxLengthBounds(es: seq<Entry>)
    ensures forall k | 0 <= k < |es| :: |es[k].placeholder| <= MaxLength(es)
    decreases |es|
  {
    if es != [] {
      var n := |es| - 1;
      MaxLengthBounds(es[..n]);
      assert forall k | 0 <= k < n :: es[..n][k] == es[k];
    }
  }

  /** The hold-back is a maximum: no placeholder and no bound is longer, and one of them is that long. */
  lemma {:induction false} MaximaAreMaxima(es: seq<Entry>, s: seq<nat>)
    ensures forall k | 0 <= k < |es| :: |es[k].placeholder| <= MaxLength(es)
    ensures forall k | 0 <= k < |s| :: s[k] <= MaxOf(s)
    ensures MaxLength(es) == 0 || exists k | 0 <= k < |es| :: |es[k].placeholder| == MaxLength(es)
    ensures MaxOf(s) == 0 || MaxOf(s) in s
    decreases |es| + |s|
  {
    MaxLengthBounds(es);
    if es != [] {
      var n := |es| - 1;
      MaximaAreMaxima(es[..n], s);
      assert forall k | 0 <= k < n :: es[..n][k] == es[k];
    } else if s != [] {
      var n := |s| - 1;
      MaximaAreMaxima([], s[..n]);
      assert forall k | 0 <= k < n :: s[..n][k] == s[k];
      assert s == s[..n] + [s[n]];
    }
  }

  predicate IndexOk(es: seq<Entry>, index: map<bytes, nat>) {
    && (forall k | 0 <= k < |es| :: es[k].placeholder in index && index[es[k].placeholder] == k)
    && (forall p <- index :: index[p] < |es| && es[index[p]].placeholder == p)
  }

  predicate FirstBytesOk(es: seq<Entry>, firstByte: seq<bool>) {
    && |firstByte| == 256
    && (forall k | 0 <= k < |es| :: es[k].placeholder != [] && firstByte[es[k].placeholder[0]])
    && (forall b: byte | firstByte[b] :: exists k | 0 <= k < |es| :: es[k].placeholder != [] && es[k].placeholder[0] == b)
  }

  predicate LengthsOk(es: seq<Entry>, lengths: seq<nat>) {
    && Ascending(lengths)
    && (forall k | 0 <= k < |es| :: |es[k].placeholder| in lengths)
    && (forall l <- lengths :: exists k | 0 <= k < |es| :: |es[k].placeholder| == l)
  }

  predicate Ascending(lengths: seq<nat>) {
    forall i, j | 0 <= i < j < |lengths| :: lengths[i] < lengths[j]
  }

  ghost predicate Consistent(cfg: Config) {
    && NonBlank(cfg.entries) && DistinctPlaceholders(cfg.entries)
    && IndexOk(cfg.entries, cfg.index)
    && FirstBytesOk(cfg.entries, cfg.firstByte)
    && LengthsOk(cfg.entries, cfg.lengths)
  }

  function InsertLength(l: nat, s: seq<nat>): seq<nat> {
    if s == [] || l < s[0] then [l] + s
    else if l == s[0] then s
    else [s[0]] + InsertLength(l, s[1..])
  }

  lemma {:induction false} InsertLengthKeeps(l: nat, s: seq<nat>)
    requires Ascending(s)
    ensures Ascending(InsertLength(l, s))
    ensures forall x :: x in InsertLength(l, s) <==> x == l || x in s
    decreases |s|
  {
    if s != [] && l > s[0] {
      InsertLengthKeeps(l, s[1..]);
      assert s == [s[0]] + s[1..];
      AscendingCons(s[0], InsertLength(l, s[1..]));
    } else if s == [] || l < s[0] {
      AscendingCons(l, s);
    }
  }

  lemma AscendingCons(l: nat, s: seq<nat>)
    requires Ascending(s) && forall x <- s :: l < x
    ensures Ascending([l] + s)
  {
    var r := [l] + s;
    forall i, j | 0 <= i < j < |r| ensures r[i] < r[j] {
      assert s[j - 1] in s;
      if i > 0 {
        assert r[i] == s[i - 1] && r[j] == s[j - 1];
      }
    }
  }

  /** Stands in for the library's sort and unique. */
  method SortedLengths(es: seq<Entry>) returns (lengths: seq<nat>)
    ensures LengthsOk(es, lengths)
  {
    lengths := [];
    for i := 0 to |es|
      invariant Ascending(lengths)
      invariant forall k | 0 <= k < i :: |es[k].placeholder| in lengths
      invariant forall l <- lengths :: exists k | 0 <= k < |es| :: |es[k].placeholder| == l
    {
      InsertLengthKeeps(|es[i].placeholder|, lengths);
      lengths := InsertLength(|es[i].placeholder|, lengths);
    }
  }

  /** The tables of make_config; `ruleLengths` are the bounds of the triggered rules, none for a null snapshot. */
  method MakeConfig(reps: seq<Replacement>, ruleLengths: seq<nat>) returns (cfg: Config)
    ensures cfg.entries == EntriesOf(reps)
    ensures Consistent(cfg)
    ensures cfg.maxPending == if MaxOf(ruleLengths) > MaxLength(cfg.entries) then MaxOf(ruleLengths) else MaxLength(cfg.entries)
  {
    hide EntryOf, LengthsOk, MaxLength, MaxOf;
    var entries: seq<Entry> := [];
    var index: map<bytes, nat> := map[];
    var firstByte := seq(256, _ => false);
    var maxPending := 0;
    NoMax();
    for i := 0 to |reps|
      invariant entries == EntriesOf(reps[..i]) && NonBlank(entries)
      invariant IndexOk(entries, index) && FirstBytesOk(entries, firstByte)
      invariant maxPending == MaxLength(entries)
    {
      var rep := reps[i];
      assert reps[..i + 1][..i] == reps[..i];
      KeyIffEntry(entries, index, rep.placeholder);
      if rep.placeholder == [] || rep.placeholder in index {
        continue;
      }
      var json := JsonStrings.EncodeString(rep.original, false);
      EntryFields(rep);
      AddToTables(entries, index, firstByte, EntryOf(rep));
      MaxSnoc(entries, EntryOf(rep));
      index := index[rep.placeholder := |entries|];
      entries := entries + [Entry(rep.placeholder, rep.original, json)];
      firstByte := firstByte[rep.placeholder[0] := true];
      if |rep.placeholder| > maxPending {
        maxPending := |rep.placeholder|;
      }
    }
    assert reps[..|reps|] == reps;
    EntriesAreFirsts(reps);
    var lengths := SortedLengths(entries);
    var ruleMax := 0;
    for i := 0 to |ruleLengths|
      invariant ruleMax == MaxOf(ruleLengths[..i])
    {
      MaxOfSnoc(ruleLengths, i);
      if ruleLengths[i] > ruleMax {
        ruleMax := ruleLengths[i];
      }
    }
    assert ruleLengths[..|ruleLengths|] == ruleLengths;
    if ruleMax > maxPending {
      maxPending := ruleMax;
    }
    cfg := Config(entries, index, lengths, firstByte, maxPending);
  }

  lemma EntryFields(r: Replacement)
    ensures EntryOf(r) == Entry(r.placeholder, r.original, JsonStrings.Encode(r.original, false))
  {
  }

  lemma NoMax()
    ensures MaxLength([]) == 0 && MaxOf([]) == 0
  {
  }

  lemma MaxSnoc(es: seq<Entry>, e: Entry)
    ensures MaxLength(es + [e]) == if |e.placeholder| > MaxLength(es) then |e.placeholder| else MaxLength(es)
  {
    assert (es + [e])[..|es|] == es;
  }

  lemma MaxOfSnoc(s: seq<nat>, i: nat)
    requires i < |s|
    ensures MaxOf(s[..i + 1]) == if s[i] > MaxOf(s[..i]) then s[i] else MaxOf(s[..i])
  {
    assert s[..i + 1][..i] == s[..i];
  }

  lemma KeyIffEntry(es: seq<Entry>, index: map<bytes, nat>, p: bytes)
    requires IndexOk(es, index)
    ensures p in index <==> HasPlaceholder(es, p)
  {
    if p in index {
      assert es[index[p]].placeholder == p;
    }
  }

  lemma AddToTables(es: seq<Entry>, index: map<bytes, nat>, firstByte: seq<bool>, e: Entry)
    requires IndexOk(es, index) && FirstBytesOk(es, firstByte) && NonBlank(es) && e.placeholder != [] && e.placeholder !in index
    ensures NonBlank(es + [e])
    ensures IndexOk(es + [e], index[e.placeholder := |es|])
    ensures FirstBytesOk(es + [e], firstByte[e.placeholder[0] := true])
  {
    var all := es + [e];
    var now := firstByte[e.placeholder[0] := true];
    forall b: byte | now[b] ensures exists k | 0 <= k < |all| :: all[k].placeholder != [] && all[k].placeholder[0] == b {
      if b == e.placeholder[0] {
        assert all[|es|] == e;
      } else {
        var k :| 0 <= k < |es| && es[k].placeholder != [] && es[k].placeholder[0] == b;
        assert all[k] == es[k];
      }
    }
  }

  // ---- The exact pass ----

  /** The lowest entry standing at the front of `rest`, among those whose length is one of the first `k`. */
  predicate BestOf(cfg: Config, rest: bytes, k: nat, best: Option<nat>)
    requires k <= |cfg.lengths|
  {
    var es := cfg.entries;
    && (best.Some? ==> best.value < |es| && es[best.value].placeholder <= rest)
    && (forall e | 0 <= e < |es| && es[e].placeholder <= rest && |es[e].placeholder| in cfg.lengths[..k] ::
          best.Some? && best.value <= e)
  }

  /** One probe: the slice of one length is looked up in the index. */
  function Probed(cfg: Config, probe: bytes, best: Option<nat>): Option<nat> {
    if probe in cfg.index && (best.None? || cfg.index[probe] < best.value) then Some(cfg.index[probe]) else best
  }

  lemma ProbeStep(cfg: Config, rest: bytes, k: nat, best: Option<nat>)
    requires IndexOk(cfg.entries, cfg.index) && k < |cfg.lengths| && cfg.lengths[k] <= |rest|
    requires BestOf(cfg, rest, k, best)
    ensures BestOf(cfg, rest, k + 1, Probed(cfg, rest[..cfg.lengths[k]], best))
  {
    var es, len := cfg.entries, cfg.lengths[k];
    var now := Probed(cfg, rest[..len], best);
    forall e | 0 <= e < |es| && es[e].placeholder <= rest && |es[e].placeholder| in cfg.lengths[..k + 1]
      ensures now.Some? && now.value <= e
    {
      if |es[e].placeholder| == len {
        assert es[e].placeholder == rest[..len];
      } else {
        assert |es[e].placeholder| in cfg.lengths[..k];
      }
    }
  }

  /** Once no longer length fits, the best entry so far is the hit. */
  lemma ProbesEnd(cfg: Config, rest: bytes, k: nat, best: Option<nat>)
    requires LengthsOk(cfg.entries, cfg.lengths) && k <= |cfg.lengths| && BestOf(cfg, rest, k, best)
    requires k < |cfg.lengths| ==> cfg.lengths[k] > |rest|
    ensures best == Hit(cfg.entries, rest)
  {
    var es := cfg.entries;
    forall e | 0 <= e < |es| && es[e].placeholder <= rest ensures best.Some? && best.value <= e {
      assert |es[e].placeholder| in cfg.lengths;
      var j :| 0 <= j < |cfg.lengths| && cfg.lengths[j] == |es[e].placeholder|;
      assert cfg.lengths[..k][j] == cfg.lengths[j];
    }
  }

  /** The probes at one position: every length that fits, in ascending order. */
  method BestEntry(cfg: Config, text: bytes, i: nat) returns (best: Option<nat>)
    requires Consistent(cfg) && i < |text|
    ensures best == Hit(cfg.entries, text[i..])
  {
    hide FirstBytesOk, NonBlank, IndexOk, LengthsOk, Hit;
    best := None;
    ghost var rest := text[i..];
    var k := 0;
    while k < |cfg.lengths|
      invariant 0 <= k <= |cfg.lengths|
      invariant BestOf(cfg, rest, k, best)
    {
      var len := cfg.lengths[k];
      if i + len > |text| {
        break;
      }
      ProbeStep(cfg, rest, k, best);
      var probe := text[i..i + len];
      assert probe == rest[..len];
      if probe in cfg.index && (best.None? || cfg.index[probe] < best.value) {
        best := Some(cfg.index[probe]);
      }
      k := k + 1;
    }
    ProbesEnd(cfg, rest, k, best);
  }

  method ApplyExact(cfg: Config, json: bool, text: bytes) returns (out: bytes)
    requires Consistent(cfg)
    ensures out == Restore(cfg.entries, json, text)
  {
    hide Restore, Hit, Consistent;
    ConsistentParts(cfg);
    if cfg.lengths == [] {
      NoEntries(cfg, json, text);
      return text;
    }
    out := [];
    var i := 0;
    while i < |text|
      invariant 0 <= i <= |text|
      invariant out + Restore(cfg.entries, json, text[i..]) == Restore(cfg.entries, json, text)
    {
      var rest := text[i..];
      RestoreUnfolds(cfg.entries, json, rest);
      ghost var before := out;
      assert rest[1..] == text[i + 1..];
      if !cfg.firstByte[text[i]] {
        FirstByteMiss(cfg, rest);
        out := out + [text[i]];
        i := i + 1;
        continue;
      }
      var best := BestEntry(cfg, text, i);
      if best.None? {
        out := out + [text[i]];
        i := i + 1;
        continue;
      }
      var e := cfg.entries[best.value];
      assert rest[|e.placeholder|..] == text[i + |e.placeholder|..];
      Join3(before, Inserted(e, json), Restore(cfg.entries, json, rest[|e.placeholder|..]));
      out := out + Inserted(e, json);
      i := i + |e.placeholder|;
    }
    RestoreNothing(cfg.entries, json);
    assert text[i..] == [] && out + [] == out;
  }

  lemma RestoreNothing(es: seq<Entry>, json: bool)
    requires NonBlank(es)
    ensures Restore(es, json, []) == []
  {
  }

  lemma ConsistentParts(cfg: Config)
    requires Consistent(cfg)
    ensures NonBlank(cfg.entries) && |cfg.firstByte| == 256
  {
  }

  lemma FirstByteMiss(cfg: Config, text: bytes)
    requires Consistent(cfg) && text != [] && !cfg.firstByte[text[0]]
    ensures Hit(cfg.entries, text) == None
  {
  }

  lemma NoEntries(cfg: Config, json: bool, text: bytes)
    requires Consistent(cfg) && cfg.lengths == []
    ensures Restore(cfg.entries, json, text) == text
  {
    assert forall k | 0 <= k < |cfg.entries| :: |cfg.entries[k].placeholder| in cfg.lengths;
    RestoreWithoutEntries(json, text);
  }

  lemma {:induction false} RestoreWithoutEntries(json: bool, text: bytes)
    ensures Restore([], json, text) == text
    decreases |text|
  {
    if text != [] {
      RestoreWithoutEntries(json, text[1..]);
      assert text == [text[0]] + text[1..];
    }
  }
}
