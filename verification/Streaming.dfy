/**
 Streaming equals one-shot, or not: for placeholders of the shape `<...>` and any
 originals, every way to cut a response into chunks restores the same bytes exactly when
 no original, laid over a placeholder that restoring changes, agrees with it within the
 bytes that are held back.
 */
module Streaming {
  import opened Bytes
  import opened Replacer
  import opened Demasker
  import opened Placeholders
  import Runes

  // ---- What the tables must look like ----

  predicate Canonical(es: seq<Entry>) {
    (forall k | 0 <= k < |es| :: Token(es[k].placeholder)) && DistinctPlaceholders(es)
  }

  lemma CanonicalNonBlank(es: seq<Entry>)
    requires Canonical(es)
    ensures NonBlank(es)
  {
  }

  /** The hold-back is at least as long as every placeholder. */
  predicate HoldsPlaceholders(cfg: Config) {
    forall k | 0 <= k < |cfg.entries| :: |cfg.entries[k].placeholder| <= cfg.maxPending
  }

  /** The tables that make_config fills hold back enough. */
  lemma MadeConfigHolds(cfg: Config)
    requires cfg.maxPending >= MaxLength(cfg.entries)
    ensures HoldsPlaceholders(cfg)
  {
    MaxLengthBounds(cfg.entries);
  }

  /** Restoring the entry's placeholder changes something. */
  predicate Alters(e: Entry, json: bool) {
    Inserted(e, json) != e.placeholder
  }

  /** `o` laid over `p` so that it ends `n` bytes after `p` starts: wherever both have a byte, it is the same. */
  predicate Agree(o: bytes, p: bytes, n: nat) {
    forall x | 0 <= x < |o| && 0 <= x + n - |o| < |p| :: o[x] == p[x + n - |o|]
  }

  /** They share a place, or `o` is empty and lies inside `p`; and from the start of `p` to the end of `o` all is held back. */
  predicate OverlapAt(o: bytes, p: bytes, n: nat, held: nat) {
    1 <= n <= held && n < |o| + |p| && Agree(o, p, n)
  }

  /** An original that can be part of a placeholder, or hold all of one, when it is scanned again. */
  predicate Overlaps(o: bytes, p: bytes, held: nat) {
    exists n | 1 <= n < |o| + |p| :: OverlapAt(o, p, n, held)
  }

  /** No original overlaps a placeholder that restoring changes. */
  predicate NoOverlap(cfg: Config, json: bool) {
    forall j, k | 0 <= j < |cfg.entries| && 0 <= k < |cfg.entries| && Alters(cfg.entries[k], json) ::
      !Overlaps(Inserted(cfg.entries[j], json), cfg.entries[k].placeholder, cfg.maxPending)
  }

  predicate Streamable(cfg: Config, json: bool) {
    Canonical(cfg.entries) && HoldsPlaceholders(cfg) && NoOverlap(cfg, json)
  }

  lemma NoOverlapAt(cfg: Config, json: bool, j: nat, k: nat, n: nat)
    requires NoOverlap(cfg, json) && j < |cfg.entries| && k < |cfg.entries| && Alters(cfg.entries[k], json)
    requires 1 <= n <= cfg.maxPending
    requires n < |Inserted(cfg.entries[j], json)| + |cfg.entries[k].placeholder|
    ensures !Agree(Inserted(cfg.entries[j], json), cfg.entries[k].placeholder, n)
  {
    hide Agree;
    assert !OverlapAt(Inserted(cfg.entries[j], json), cfg.entries[k].placeholder, n, cfg.maxPending);
  }

  /** An original without angle brackets that has a byte outside the placeholder alphabet overlaps no placeholder. */
  lemma ForeignOriginalNeverOverlaps(o: bytes, p: bytes, i: nat, held: nat)
    requires Token(p) && i < |o| && !IsWord(o[i]) && forall x | 0 <= x < |o| :: o[x] != LESS && o[x] != GREATER
    ensures !Overlaps(o, p, held)
  {
    TokenBytes(p);
    forall n | 1 <= n < |o| + |p| ensures !Agree(o, p, n) {
      if n <= |o| {
        assert p[0] == LESS && o[|o| - n] != LESS;
      } else if |p| <= n {
        assert p[|p| - 1] == GREATER && o[|p| - 1 - n + |o|] != GREATER;
      } else {
        assert IsWord(p[i + n - |o|]);
      }
    }
  }

  // ---- Where placeholders stand ----

  lemma HitStartsWithLess(es: seq<Entry>, text: bytes)
    requires Canonical(es) && Hit(es, text).Some?
    ensures text != [] && text[0] == LESS
  {
  }

  /** What stands at the front does not depend on the bytes that follow it. */
  lemma HitIsUnique(es: seq<Entry>, text: bytes, k: nat)
    requires Canonical(es) && k < |es| && es[k].placeholder <= text
    ensures Hit(es, text) == Some(k)
  {
    var h := Hit(es, text).value;
    TokensArePrefixFree(es[h].placeholder, es[k].placeholder, text);
  }

  lemma PrefixGrows(p: bytes, x: bytes, c: bytes)
    requires p <= x
    ensures p <= x + c && (x + c)[|p|..] == x[|p|..] + c
  {
  }

  /** Bytes that start no placeholder pass through. */
  lemma {:induction false} NoLessPasses(es: seq<Entry>, json: bool, o: bytes, rest: bytes)
    requires Canonical(es) && NonBlank(es) && forall i | 0 <= i < |o| :: o[i] != LESS
    ensures Restore(es, json, o + rest) == o + Restore(es, json, rest)
    decreases |o|
  {
    hide Hit, Restore, Canonical, NonBlank;
    if o == [] {
      assert o + rest == rest;
    } else {
      var w := o + rest;
      assert w[1..] == o[1..] + rest;
      if Hit(es, w).Some? {
        HitStartsWithLess(es, w);
      }
      RestoreUnfolds(es, json, w);
      NoLessPasses(es, json, o[1..], rest);
      assert o == [o[0]] + o[1..];
      Join3([o[0]], o[1..], Restore(es, json, rest));
    }
  }

  lemma HeadTail(t: bytes, w: bytes)
    requires t != [] && w != []
    ensures t <= w <==> t[0] == w[0] && t[1..] <= w[1..]
  {
    if t[0] == w[0] && t[1..] <= w[1..] {
      assert t == [t[0]] + t[1..] && w == [w[0]] + w[1..];
    }
  }

  /** A placeholder that restoring changes stands at the front. */
  predicate Altered(es: seq<Entry>, json: bool, text: bytes) {
    Hit(es, text).Some? && Alters(es[Hit(es, text).value], json)
  }

  lemma AlteredStartsWithLess(es: seq<Entry>, json: bool, text: bytes)
    requires Canonical(es) && Altered(es, json, text)
    ensures text != [] && text[0] == LESS
  {
    hide Hit;
    HitStartsWithLess(es, text);
  }

  /** Where nothing is altered, the first byte passes: a placeholder restored to itself is copied. */
  lemma PassByte(es: seq<Entry>, json: bool, text: bytes)
    requires Canonical(es) && NonBlank(es) && text != [] && !Altered(es, json, text)
    ensures Restore(es, json, text) == [text[0]] + Restore(es, json, text[1..])
  {
    hide Restore, Hit;
    RestoreUnfolds(es, json, text);
    if Hit(es, text).Some? {
      var p := es[Hit(es, text).value].placeholder;
      var rest := text[|p|..];
      TokenBytes(p);
      assert text == p + rest;
      Runes.DropAcross(p, rest, 1);
      NoLessPasses(es, json, p[1..], rest);
      assert p == [p[0]] + p[1..];
      Join3([p[0]], p[1..], Restore(es, json, rest));
    }
  }

  // ---- No placeholder comes from originals within the held bytes ----

  /** Where the rest of a placeholder begins with all that fits of an original, the two agree. */
  lemma RestAgrees(o: bytes, p: bytes, i: nat, rest: bytes)
    requires 1 <= i < |p| && p[i..] <= o + rest
    ensures Agree(o, p, i + |o|)
  {
    var w := o + rest;
    forall x | 0 <= x < |o| && 0 <= x + i < |p| ensures o[x] == p[x + i] {
      assert p[i..][x] == w[x];
    }
  }

  /** The rest of a placeholder, if it and what is restored after it are held, stood in the text before it was restored. */
  lemma {:induction false} RestThroughRestore(cfg: Config, json: bool, y: bytes, c: bytes, k: nat, i: nat)
    requires Streamable(cfg, json) && NonBlank(cfg.entries) && k < |cfg.entries| && Alters(cfg.entries[k], json)
    requires 1 <= i < |cfg.entries[k].placeholder| && i + |Restore(cfg.entries, json, y)| <= cfg.maxPending
    requires cfg.entries[k].placeholder[i..] <= Restore(cfg.entries, json, y) + c
    ensures cfg.entries[k].placeholder[i..] <= y + c
    decreases |y|
  {
    hide Hit, Restore, Canonical, NonBlank, NoOverlap, Agree;
    var es, p := cfg.entries, cfg.entries[k].placeholder;
    if y == [] {
      RestoreNothing(es, json);
    } else if Altered(es, json, y) {
      RestoreUnfolds(es, json, y);
      var j := Hit(es, y).value;
      var o, more := Inserted(es[j], json), Restore(es, json, y[|es[j].placeholder|..]);
      Join3(o, more, c);
      RestAgrees(o, p, i, more + c);
      NoOverlapAt(cfg, json, j, k, i + |o|);
    } else {
      PassByte(es, json, y);
      var more := Restore(es, json, y[1..]);
      Join3([y[0]], more, c);
      assert ([y[0]] + (more + c))[1..] == more + c;
      Runes.DropAcross(y, c, 1);
      HeadTail(p[i..], [y[0]] + (more + c));
      HeadTail(p[i..], y + c);
      assert p[i..][1..] == p[i + 1..];
      if i + 1 < |p| {
        RestThroughRestore(cfg, json, y[1..], c, k, i + 1);
      }
    }
  }

  /** A placeholder that begins with a byte the restorer kept, within the held bytes, stood there before. */
  lemma NothingNewAltered(cfg: Config, json: bool, x: bytes, c: bytes)
    requires Streamable(cfg, json) && NonBlank(cfg.entries) && x != [] && !Altered(cfg.entries, json, x + c)
    requires x[0] == LESS ==> 1 + |Restore(cfg.entries, json, x[1..])| <= cfg.maxPending
    ensures !Altered(cfg.entries, json, [x[0]] + (Restore(cfg.entries, json, x[1..]) + c))
  {
    hide Restore, Hit, NoOverlap, HoldsPlaceholders, DistinctPlaceholders;
    var es, more := cfg.entries, Restore(cfg.entries, json, x[1..]);
    var w := [x[0]] + (more + c);
    if Altered(es, json, w) {
      AlteredStartsWithLess(es, json, w);
      var k := Hit(es, w).value;
      var p := es[k].placeholder;
      assert w[1..] == more + c && es[k].placeholder <= w;
      Runes.DropAcross(x, c, 1);
      HeadTail(p, w);
      HeadTail(p, x + c);
      NotAlteredHere(es, json, x + c, k);
      RestThroughRestore(cfg, json, x[1..], c, k, 1);
    }
  }

  lemma NotAlteredHere(es: seq<Entry>, json: bool, text: bytes, k: nat)
    requires Canonical(es) && k < |es| && Alters(es[k], json) && !Altered(es, json, text)
    ensures !(es[k].placeholder <= text)
  {
    hide Hit;
    if es[k].placeholder <= text {
      HitIsUnique(es, text, k);
    }
  }

  /** What is left of an original from `s` on passes when no placeholder it begins lies within the held bytes. */
  lemma {:induction false} OriginalPasses(cfg: Config, json: bool, j: nat, s: nat, rest: bytes)
    requires Streamable(cfg, json) && NonBlank(cfg.entries) && j < |cfg.entries|
    requires var o := Inserted(cfg.entries[j], json);
      s <= |o| && forall i | s <= i < |o| && o[i] == LESS :: |o| - i <= cfg.maxPending
    ensures var o := Inserted(cfg.entries[j], json);
      Restore(cfg.entries, json, o[s..] + rest) == o[s..] + Restore(cfg.entries, json, rest)
    decreases |Inserted(cfg.entries[j], json)| - s
  {
    hide Restore, Hit, Canonical, NonBlank, NoOverlap, HoldsPlaceholders, Inserted, Agree;
    var es, o := cfg.entries, Inserted(cfg.entries[j], json);
    if s == |o| {
      assert o[s..] + rest == rest;
      assert o[s..] + Restore(es, json, rest) == Restore(es, json, rest);
    } else {
      var w := o[s..] + rest;
      if Altered(es, json, w) {
        AlteredStartsWithLess(es, json, w);
        var k := Hit(es, w).value;
        FrontAgrees(o, es[k].placeholder, s, rest);
        NoOverlapAt(cfg, json, j, k, |o| - s) by { PlaceholderNotEmpty(es, k); }
      }
      PassByte(es, json, w);
      Runes.DropAcross(o[s..], rest, 1);
      DropDrop(o, s, 1);
      OriginalPasses(cfg, json, j, s + 1, rest);
      assert o[s..] == [o[s]] + o[s + 1..];
      Join3([o[s]], o[s + 1..], Restore(es, json, rest));
    }
  }

  lemma PlaceholderNotEmpty(es: seq<Entry>, k: nat)
    requires NonBlank(es) && k < |es|
    ensures |es[k].placeholder| > 0
  {
  }

  lemma FrontAgrees(o: bytes, p: bytes, s: nat, rest: bytes)
    requires s < |o| && p <= o[s..] + rest
    ensures Agree(o, p, |o| - s)
  {
    var w := o[s..] + rest;
    forall x | 0 <= x < |o| && 0 <= x - s < |p| ensures o[x] == p[x - s] {
      assert p[x - s] == w[x - s];
    }
  }

  // ---- Restoring again what was restored ----

  /** A proper prefix of a placeholder is left alone. */
  lemma CutPlaceholder(es: seq<Entry>, json: bool, x: bytes, k: nat)
    requires Canonical(es) && NonBlank(es) && k < |es| && x != [] && x <= es[k].placeholder && |x| < |es[k].placeholder|
    ensures Restore(es, json, x) == x
  {
    hide Restore;
    var p := es[k].placeholder;
    TokenBytes(p);
    RestoreUnfolds(es, json, x);
    assert forall i | 0 <= i < |x| :: x[i] == p[i];
    NoLessPasses(es, json, x[1..], []);
    assert x[1..] + [] == x[1..];
    RestoreNothing(es, json);
    assert x == [x[0]] + x[1..];
  }

  lemma Straddles(es: seq<Entry>, x: bytes, c: bytes, k: nat)
    requires k < |es| && !(es[k].placeholder <= x) && es[k].placeholder <= x + c
    ensures x <= es[k].placeholder && |x| < |es[k].placeholder|
  {
    var p := es[k].placeholder;
    assert forall i | 0 <= i < |x| :: (x + c)[i] == x[i];
  }

  /** Where restored text may be cut: at its start, or outside the held bytes, with no `<` between the cut and them. */
  predicate CutAt(t: bytes, s: nat, held: nat) {
    && s <= |t| && (s == 0 || s + held <= |t|)
    && forall i | s <= i < |t| - held :: t[i] != LESS
  }

  lemma CutAfter(o: bytes, t: bytes, s: nat, held: nat)
    requires CutAt(o + t, s, held)
    ensures CutAt(t, if s <= |o| then 0 else s - |o|, held)
  {
    var w := o + t;
    assert forall i | 0 <= i < |t| :: t[i] == w[|o| + i];
  }

  /** Restoring restored text from a cut on, together with new input, is restoring the original input with it. */
  lemma {:induction false} RestoreFromCut(cfg: Config, json: bool, x: bytes, c: bytes, s: nat)
    requires Streamable(cfg, json) && NonBlank(cfg.entries)
    requires CutAt(Restore(cfg.entries, json, x), s, cfg.maxPending)
    ensures var t := Restore(cfg.entries, json, x);
      Restore(cfg.entries, json, x + c) == t[..s] + Restore(cfg.entries, json, t[s..] + c)
    decreases |x|
  {
    hide Restore, Hit, Canonical, NonBlank, NoOverlap, HoldsPlaceholders, CutAt;
    var es := cfg.entries;
    if x == [] {
      NothingToCut(cfg, json, c, s);
    } else if Altered(es, json, x) {
      RestoreOriginalFromCut(cfg, json, x, c, s);
    } else if Altered(es, json, x + c) {
      var k := Hit(es, x + c).value;
      NotAlteredHere(es, json, x, k);
      Straddles(es, x, c, k);
      CutPlaceholder(es, json, x, k);
      ShortCut(cfg, x, s, k);
    } else {
      RestoreByteFromCut(cfg, json, x, c, s);
    }
  }

  lemma NothingToCut(cfg: Config, json: bool, c: bytes, s: nat)
    requires NonBlank(cfg.entries) && CutAt(Restore(cfg.entries, json, []), s, cfg.maxPending)
    ensures var t := Restore(cfg.entries, json, []);
      Restore(cfg.entries, json, [] + c) == t[..s] + Restore(cfg.entries, json, t[s..] + c)
  {
    hide Restore, NonBlank;
    RestoreNothing(cfg.entries, json);
    assert [] + c == c;
    var r := Restore(cfg.entries, json, c);
    assert [] + r == r;
  }

  lemma ShortCut(cfg: Config, x: bytes, s: nat, k: nat)
    requires HoldsPlaceholders(cfg) && k < |cfg.entries| && |x| < |cfg.entries[k].placeholder| && CutAt(x, s, cfg.maxPending)
    ensures s == 0 && x[..s] == [] && x[s..] == x
  {
  }

  /** The text begins with a placeholder that is replaced. */
  lemma {:induction false} RestoreOriginalFromCut(cfg: Config, json: bool, x: bytes, c: bytes, s: nat)
    requires Streamable(cfg, json) && NonBlank(cfg.entries) && x != [] && Altered(cfg.entries, json, x)
    requires CutAt(Restore(cfg.entries, json, x), s, cfg.maxPending)
    ensures var t := Restore(cfg.entries, json, x);
      Restore(cfg.entries, json, x + c) == t[..s] + Restore(cfg.entries, json, t[s..] + c)
    decreases |x|, 0
  {
    hide Restore, Hit, Canonical, NonBlank, NoOverlap, HoldsPlaceholders, CutAt, Inserted;
    var es := cfg.entries;
    RestoreUnfolds(es, json, x);
    var k := Hit(es, x).value;
    var p, o := es[k].placeholder, Inserted(es[k], json);
    PlaceholderNotEmpty(es, k);
    var x' := x[|p|..];
    var t := Restore(es, json, x');
    PrefixGrows(p, x, c);
    HitIsUnique(es, x + c, k);
    RestoreUnfolds(es, json, x + c);
    CutAfter(o, t, s, cfg.maxPending);
    CutBounds(o + t, s, cfg.maxPending);
    if s <= |o| {
      RestoreFromCut(cfg, json, x', c, 0);
      assert t[..0] == [] && t[0..] == t;
      var r := Restore(es, json, t + c);
      assert [] + r == r;
      HeldAtCut(o, t, s, cfg.maxPending);
      OriginalPasses(cfg, json, k, s, t + c);
      SplitInside(o, t, s, c);
      assert o == o[..s] + o[s..];
      Join3(o[..s], o[s..], r);
    } else {
      RestoreFromCut(cfg, json, x', c, s - |o|);
      SplitAfter(o, t, s);
      Join3(o, t[..s - |o|], Restore(es, json, t[s - |o|..] + c));
    }
  }

  lemma CutBounds(t: bytes, s: nat, held: nat)
    requires CutAt(t, s, held)
    ensures s <= |t|
  {
  }

  lemma HeldAtCut(o: bytes, t: bytes, s: nat, held: nat)
    requires CutAt(o + t, s, held) && s <= |o|
    ensures forall i | s <= i < |o| && o[i] == LESS :: |o| - i <= held
  {
    var w := o + t;
    assert forall i | 0 <= i < |o| :: w[i] == o[i];
  }

  lemma SplitInside(o: bytes, t: bytes, s: nat, c: bytes)
    requires s <= |o|
    ensures (o + t)[..s] == o[..s] && (o + t)[s..] + c == o[s..] + (t + c)
  {
  }

  lemma SplitAfter(o: bytes, t: bytes, s: nat)
    requires |o| <= s <= |o| + |t|
    ensures (o + t)[..s] == o + t[..s - |o|] && (o + t)[s..] == t[s - |o|..]
  {
  }

  /** The text begins with a byte that is kept. */
  lemma {:induction false} RestoreByteFromCut(cfg: Config, json: bool, x: bytes, c: bytes, s: nat)
    requires Streamable(cfg, json) && NonBlank(cfg.entries) && x != []
    requires !Altered(cfg.entries, json, x) && !Altered(cfg.entries, json, x + c)
    requires CutAt(Restore(cfg.entries, json, x), s, cfg.maxPending)
    ensures var t := Restore(cfg.entries, json, x);
      Restore(cfg.entries, json, x + c) == t[..s] + Restore(cfg.entries, json, t[s..] + c)
    decreases |x|, 0
  {
    hide Restore, Hit, Canonical, NonBlank, NoOverlap, HoldsPlaceholders, CutAt, Altered;
    var es := cfg.entries;
    PassByte(es, json, x);
    PassByte(es, json, x + c);
    Runes.DropAcross(x, c, 1);
    var b, t := [x[0]], Restore(es, json, x[1..]);
    CutAfter(b, t, s, cfg.maxPending);
    CutBounds(b + t, s, cfg.maxPending);
    if s == 0 {
      RestoreFromCut(cfg, json, x[1..], c, 0);
      assert t[..0] == [] && t[0..] == t;
      var r := Restore(es, json, t + c);
      assert [] + r == r;
      HeldAtCut(b, t, 0, cfg.maxPending);
      FirstHeld(b, t, cfg.maxPending);
      NothingNewAltered(cfg, json, x, c);
      var w := b + (t + c);
      PassByte(es, json, w);
      assert w[1..] == t + c;
      SplitInside(b, t, 0, c);
      assert b[0..] == b && b[..0] == [] && [] + (b + r) == b + r;
    } else {
      RestoreFromCut(cfg, json, x[1..], c, s - 1);
      SplitAfter(b, t, s);
      Join3(b, t[..s - 1], Restore(es, json, t[s - 1..] + c));
    }
  }

  lemma FirstHeld(b: bytes, t: bytes, held: nat)
    requires |b| == 1 && CutAt(b + t, 0, held)
    ensures b[0] == LESS ==> 1 + |t| <= held
  {
    assert (b + t)[0] == b[0];
  }

  // ---- Every stream ----

  /** After some input `x`, the emitted bytes and the pending ones promise what `x` restores to, whatever comes next. */
  ghost predicate Tracks(es: seq<Entry>, json: bool, out: bytes, pending: bytes, x: bytes)
    requires NonBlank(es)
  {
    forall c :: out + Restore(es, json, pending + c) == Restore(es, json, x + c)
  }

  lemma TracksStep(cfg: Config, json: bool, out: bytes, pending: bytes, x: bytes, chunk: bytes)
    requires Streamable(cfg, json) && NonBlank(cfg.entries)
    requires Tracks(cfg.entries, json, out, pending, x)
    ensures var r := Call(cfg, json, pending, chunk, false);
      Tracks(cfg.entries, json, out + r.out, r.pending, x + chunk)
  {
    hide Restore, Streamable, NonBlank, Held;
    var es := cfg.entries;
    var r := Call(cfg, json, pending, chunk, false);
    forall c ensures out + r.out + Restore(es, json, r.pending + c) == Restore(es, json, x + chunk + c) {
      Join3(x, chunk, c);
      Join3(pending, chunk, c);
      Join3(out, r.out, Restore(es, json, r.pending + c));
      CallPromises(cfg, json, pending, chunk, c);
      assert out + Restore(es, json, pending + (chunk + c)) == Restore(es, json, x + (chunk + c));
    }
  }

  /** One call emits and holds back what promises the restored input, whatever comes next. */
  lemma CallPromises(cfg: Config, json: bool, pending: bytes, chunk: bytes, c: bytes)
    requires Streamable(cfg, json) && NonBlank(cfg.entries)
    ensures var r := Call(cfg, json, pending, chunk, false);
      r.out + Restore(cfg.entries, json, r.pending + c) == Restore(cfg.entries, json, pending + chunk + c)
  {
    hide Restore, NonBlank, Streamable, Held, CutAt;
    var es := cfg.entries;
    if pending + chunk == [] {
      assert pending + chunk + c == [] + c;
      var r := Restore(es, json, [] + c);
      assert [] + r == r;
    } else {
      var t := Restore(es, json, pending + chunk);
      var s := HeldCut(cfg, t);
      RestoreFromCut(cfg, json, pending + chunk, c, s);
    }
  }

  /** What a call holds back begins at a cut. */
  lemma HeldCut(cfg: Config, t: bytes) returns (s: nat)
    ensures s <= |t| && CutAt(t, s, cfg.maxPending) && Held(cfg, t) == Emission(t[..s], t[s..])
  {
    hide Runes.SafePrefixEnd;
    if |t| <= cfg.maxPending {
      s := 0;
      assert t[..0] == [] && t[0..] == t;
    } else {
      s := Runes.SafePrefixEnd(t, |t| - cfg.maxPending);
      Runes.NoAsciiSkipped(t, |t| - cfg.maxPending);
      assert s == 0 ==> t[..s] == [] && t[s..] == t;
    }
  }

  lemma {:induction false} StreamTracks(cfg: Config, json: bool, out: bytes, pending: bytes, x: bytes, chunks: seq<bytes>, last: bytes)
    requires Streamable(cfg, json) && NonBlank(cfg.entries)
    requires Tracks(cfg.entries, json, out, pending, x)
    ensures out + Joined(Emitted(cfg, json, pending, chunks, last)) == Restore(cfg.entries, json, x + (Joined(chunks) + last))
    decreases |chunks|
  {
    hide Restore, Streamable, NonBlank, Held, Call;
    var es := cfg.entries;
    if chunks == [] {
      assert out + Restore(es, json, pending + last) == Restore(es, json, x + last);
      assert Joined(chunks) + last == last;
      var piece := Call(cfg, json, pending, last, true).out;
      assert [piece][1..] == [] && Joined([piece]) == piece + [];
      FlushIs(cfg, json, pending, last);
    } else {
      var r := Call(cfg, json, pending, chunks[0], false);
      TracksStep(cfg, json, out, pending, x, chunks[0]);
      StreamTracks(cfg, json, out + r.out, r.pending, x + chunks[0], chunks[1..], last);
      var more := Emitted(cfg, json, r.pending, chunks[1..], last);
      JoinedCons(r.out, more);
      Join3(out, r.out, Joined(more));
      Join3(chunks[0], Joined(chunks[1..]), last);
      Join3(x, chunks[0], Joined(chunks[1..]) + last);
    }
  }

  /** A flush emits all that is pending, restored with the last chunk. */
  lemma FlushIs(cfg: Config, json: bool, pending: bytes, last: bytes)
    requires NonBlank(cfg.entries)
    ensures Call(cfg, json, pending, last, true).out == Restore(cfg.entries, json, pending + last)
  {
    hide Restore;
    RestoreNothing(cfg.entries, json);
  }

  lemma JoinedCons(a: bytes, more: seq<bytes>)
    ensures Joined([a] + more) == a + Joined(more)
  {
    assert ([a] + more)[1..] == more;
  }

  /** Every chunking of a response emits what demasking the whole response gives. */
  ghost predicate StreamsAsWhole(cfg: Config, json: bool)
    requires NonBlank(cfg.entries)
  {
    forall chunks, last :: Joined(Emitted(cfg, json, [], chunks, last)) == Restore(cfg.entries, json, Joined(chunks) + last)
  }

  lemma StreamingEqualsOneShot(cfg: Config, json: bool, chunks: seq<bytes>, last: bytes)
    requires Streamable(cfg, json)
    ensures NonBlank(cfg.entries)
    ensures Joined(Emitted(cfg, json, [], chunks, last)) == Restore(cfg.entries, json, Joined(chunks) + last)
  {
    hide Restore, NonBlank, Call, Emitted, Joined, Canonical, NoOverlap, HoldsPlaceholders;
    var es := cfg.entries;
    CanonicalNonBlank(es);
    forall c ensures [] + Restore(es, json, [] + c) == Restore(es, json, [] + c) {
    }
    StreamTracks(cfg, json, [], [], [], chunks, last);
    var out := Joined(Emitted(cfg, json, [], chunks, last));
    assert [] + out == out;
    assert [] + (Joined(chunks) + last) == Joined(chunks) + last;
  }

  // ---- An overlap breaks it ----

  /** Text that ends in a placeholder before which none starts. */
  lemma RestoreAfterStub(es: seq<Entry>, json: bool, k: nat, u: bytes, j: nat, v: bytes)
    requires Canonical(es) && NonBlank(es) && k < |es| && j < |es|
    requires u != [] && u <= es[k].placeholder && |u| < |es[k].placeholder|
    ensures Restore(es, json, u + (es[j].placeholder + v)) == u + (Inserted(es[j], json) + Restore(es, json, v))
  {
    hide Restore, Hit, NonBlank;
    var p, q := es[k].placeholder, es[j].placeholder;
    TokenBytes(p);
    var w := u + (q + v);
    assert forall i | 0 <= i < |u| :: u[i] == p[i];
    if Hit(es, w).Some? {
      StubIsNoHit(es, p, u, q, v, Hit(es, w).value);
    }
    RestoreUnfolds(es, json, w);
    assert w[1..] == u[1..] + (q + v);
    NoLessPasses(es, json, u[1..], q + v);
    assert u == [u[0]] + u[1..];
    Join3([u[0]], u[1..], Restore(es, json, q + v));
    HitIsUnique(es, q + v, j);
    RestoreUnfolds(es, json, q + v);
    assert (q + v)[|q|..] == v;
  }

  lemma StubIsNoHit(es: seq<Entry>, p: bytes, u: bytes, q: bytes, v: bytes, h: nat)
    requires Canonical(es) && h < |es| && Token(p) && Token(q) && u != [] && u <= p && |u| < |p|
    ensures !(es[h].placeholder <= u + (q + v))
  {
    var w := u + (q + v);
    var r := es[h].placeholder;
    TokenBytes(r);
    TokenBytes(p);
    assert w[|u|] == LESS;
    assert forall i | 0 <= i < |u| :: w[i] == p[i];
  }

  /** Two chunks: what the first emits, then the flush of what it holds back with the second. */
  lemma TwoCalls(cfg: Config, json: bool, first: bytes, last: bytes)
    requires NonBlank(cfg.entries)
    ensures var r := Call(cfg, json, [], first, false);
      && Joined(Emitted(cfg, json, [], [first], last)) == r.out + Restore(cfg.entries, json, r.pending + last)
      && (first != [] ==> r == Held(cfg, Restore(cfg.entries, json, first)))
      && Joined([first]) == first
  {
    hide Restore, Held, Call;
    var r := Call(cfg, json, [], first, false);
    var piece := Call(cfg, json, r.pending, last, true).out;
    assert [first][1..] == [];
    assert Emitted(cfg, json, [], [first], last) == [r.out] + [piece];
    JoinedCons(r.out, [piece]);
    JoinedCons(piece, []);
    assert [piece] + [] == [piece] && piece + [] == piece && first + [] == first;
    FlushIs(cfg, json, r.pending, last);
    if first != [] {
      FirstCall(cfg, json, first);
    }
  }

  lemma FirstCall(cfg: Config, json: bool, first: bytes)
    requires NonBlank(cfg.entries) && first != []
    ensures Call(cfg, json, [], first, false) == Held(cfg, Restore(cfg.entries, json, first))
  {
    hide Restore, Held;
    assert [] + first == first;
  }

  /** A placeholder that restoring changes stands in `o` at `i`. */
  predicate StandsAt(es: seq<Entry>, json: bool, o: bytes, i: nat) {
    i < |o| && Altered(es, json, o[i..])
  }

  /** Nothing is altered from `i` on. */
  predicate QuietFrom(es: seq<Entry>, json: bool, o: bytes, i: nat) {
    forall x | i <= x < |o| :: !StandsAt(es, json, o, x)
  }

  /** Nothing is altered in `o` from `i` on, or somewhere a placeholder stands for the last time. */
  lemma {:induction false} LastStanding(es: seq<Entry>, json: bool, o: bytes, i: nat) returns (x: nat)
    requires i <= |o|
    ensures i <= x <= |o| && QuietFrom(es, json, o, if x < |o| then x + 1 else i)
    ensures x < |o| ==> StandsAt(es, json, o, x)
    decreases |o| - i
  {
    hide Altered;
    if i == |o| {
      x := i;
    } else {
      x := LastStanding(es, json, o, i + 1);
      if x == |o| && StandsAt(es, json, o, i) {
        x := i;
      }
    }
  }

  /** Text in which nothing is altered, followed by nothing, a placeholder, or a blank, passes. */
  lemma {:induction false} QuietPasses(es: seq<Entry>, json: bool, o: bytes, a: nat, b: nat, rest: bytes)
    requires Canonical(es) && NonBlank(es) && a <= b <= |o| && forall x | a <= x < b :: !StandsAt(es, json, o, x)
    requires rest == [] || rest[0] == LESS || rest[0] == SPACE
    ensures Restore(es, json, o[a..b] + rest) == o[a..b] + Restore(es, json, rest)
    decreases b - a
  {
    hide Restore, Canonical, NonBlank, StandsAt, Altered;
    if a == b {
      assert o[a..b] == [] && o[a..b] + rest == rest;
      var r := Restore(es, json, rest);
      assert [] + r == r;
    } else {
      var w := o[a..b] + rest;
      QuietHere(es, json, o, a, b, rest);
      PassByte(es, json, w);
      SliceHead(o, a, b);
      assert w[1..] == o[a + 1..b] + rest;
      QuietPasses(es, json, o, a + 1, b, rest);
      Join3([o[a]], o[a + 1..b], Restore(es, json, rest));
    }
  }

  /** No placeholder reaches over a `<` or a blank. */
  lemma QuietHere(es: seq<Entry>, json: bool, o: bytes, a: nat, b: nat, rest: bytes)
    requires Canonical(es) && a < b <= |o| && !StandsAt(es, json, o, a)
    requires rest == [] || rest[0] == LESS || rest[0] == SPACE
    ensures !Altered(es, json, o[a..b] + rest)
  {
    hide Hit;
    var w := o[a..b] + rest;
    if Altered(es, json, w) {
      var k := Hit(es, w).value;
      WithinPiece(es[k].placeholder, o, a, b, rest);
      NotAlteredHere(es, json, o[a..], k);
    }
  }

  lemma WithinPiece(p: bytes, o: bytes, a: nat, b: nat, rest: bytes)
    requires Token(p) && a < b <= |o| && p <= o[a..b] + rest && (rest == [] || rest[0] == LESS || rest[0] == SPACE)
    ensures p <= o[a..]
  {
    TokenBytes(p);
    var w := o[a..b] + rest;
    assert rest != [] ==> w[b - a] == rest[0];
    assert forall i | 0 <= i < |p| :: p[i] == w[i];
    assert |p| <= b - a;
    assert forall i | 0 <= i < b - a :: w[i] == o[a..][i];
  }

  /** Text before a placeholder and text after it: only the placeholder changes. */
  lemma QuietAround(es: seq<Entry>, json: bool, o: bytes, a: nat, b: nat, k: nat, after: bytes)
    requires Canonical(es) && NonBlank(es) && a <= b <= |o| && (forall x | a <= x < b :: !StandsAt(es, json, o, x)) && k < |es|
    requires Restore(es, json, after) == after
    ensures Restore(es, json, o[a..b] + (es[k].placeholder + after)) == o[a..b] + (Inserted(es[k], json) + after)
  {
    hide Restore, NonBlank, Hit, StandsAt;
    var p := es[k].placeholder;
    var w := p + after;
    assert Token(p);
    QuietPasses(es, json, o, a, b, w);
    HitIsUnique(es, w, k);
    RestoreUnfolds(es, json, w);
    assert w[|p|..] == after;
  }

  lemma Cancels(a: bytes, b: bytes, pre: bytes, post: bytes)
    requires a != b
    ensures pre + (a + post) != pre + (b + post)
  {
    var u, v := pre + (a + post), pre + (b + post);
    assert u[|pre|..] == a + post && v[|pre|..] == b + post;
    assert (a + post)[..|a|] == a && (b + post)[..|b|] == b;
  }

  /** The last placeholder that stands in an original within the held bytes: padding cuts the text just before it, and the flush restores it. */
  lemma StandingBreaks(cfg: Config, json: bool, j: nat, i: nat) returns (first: bytes, last: bytes)
    requires Canonical(cfg.entries) && NonBlank(cfg.entries) && HoldsPlaceholders(cfg) && j < |cfg.entries|
    requires var o := Inserted(cfg.entries[j], json);
      i < |o| && |o| - i <= cfg.maxPending && StandsAt(cfg.entries, json, o, i) && QuietFrom(cfg.entries, json, o, i + 1)
    ensures Joined(Emitted(cfg, json, [], [first], last)) != Restore(cfg.entries, json, Joined([first]) + last)
  {
    hide Restore, Hit, NonBlank, Held, Emitted, Joined, Canonical, HoldsPlaceholders, Inserted, Call, QuietFrom;
    var es, o, q := cfg.entries, Inserted(cfg.entries[j], json), cfg.entries[j].placeholder;
    var t := cfg.maxPending - (|o| - i);
    var pad := seq(t, _ => SPACE);
    first, last := [SPACE] + (q + pad), [];
    PaddedRestores(es, json, j, pad);
    TwoCalls(cfg, json, first, last);
    var k := Hit(es, o[i..]).value;
    var p := es[k].placeholder;
    PlaceholderInside(es, json, o, i, k);
    CutBefore(cfg, o, i, pad);
    var after := o[i + |p|..] + pad;
    AfterStanding(es, json, o, i, k, pad);
    assert o[i..i] == [];
    QuietAround(es, json, o, i, i, k, after);
    var r := Inserted(es[k], json);
    assert [] + (p + after) == p + after && [] + (r + after) == r + after;
    assert (o[i..] + pad) + [] == p + after by { DropDrop(o, i, |p|); Join3(p, o[i + |p|..], pad); }
    assert first + [] == first;
    SplitText(o, i, pad);
    Cancels(r, p, [SPACE] + o[..i], after);
  }

  lemma SplitText(o: bytes, i: nat, pad: bytes)
    requires i <= |o|
    ensures ([SPACE] + (o + pad)) == ([SPACE] + o[..i]) + (o[i..] + pad)
  {
    assert o == o[..i] + o[i..];
  }

  lemma PaddedRestores(es: seq<Entry>, json: bool, j: nat, pad: bytes)
    requires Canonical(es) && NonBlank(es) && j < |es| && forall x | 0 <= x < |pad| :: pad[x] == SPACE
    ensures Restore(es, json, [SPACE] + (es[j].placeholder + pad)) == [SPACE] + (Inserted(es[j], json) + pad)
  {
    hide Restore, Hit, NonBlank, Canonical;
    var q := es[j].placeholder;
    NoLessPasses(es, json, [SPACE], q + pad);
    PlaceholderRestores(es, json, j, pad);
    NoLessPasses(es, json, pad, []);
    RestoreNothing(es, json);
    assert pad + [] == pad;
  }

  /** The padded text is cut exactly where the placeholder stands. */
  lemma CutBefore(cfg: Config, o: bytes, i: nat, pad: bytes)
    requires i < |o| && o[i] == LESS && |o| - i + |pad| == cfg.maxPending
    ensures Held(cfg, [SPACE] + (o + pad)) == Emission([SPACE] + o[..i], o[i..] + pad)
  {
    hide Runes.SafePrefixEnd;
    var t := [SPACE] + (o + pad);
    assert |t| - cfg.maxPending == 1 + i && t[0] == SPACE && t[1 + i] == LESS;
    Runes.CutAtAscii(t, 1 + i);
    assert t[..1 + i] == [SPACE] + o[..i] && t[1 + i..] == o[i..] + pad;
  }

  lemma PlaceholderInside(es: seq<Entry>, json: bool, o: bytes, i: nat, k: nat)
    requires Canonical(es) && i < |o| && Hit(es, o[i..]) == Some(k)
    ensures k < |es| && o[i] == LESS && i + |es[k].placeholder| <= |o|
    ensures o[i..][..|es[k].placeholder|] == es[k].placeholder && o[i..] == es[k].placeholder + o[i + |es[k].placeholder|..]
  {
    HitStartsWithLess(es, o[i..]);
    var p := es[k].placeholder;
    DropDrop(o, i, |p|);
  }

  lemma AfterStanding(es: seq<Entry>, json: bool, o: bytes, i: nat, k: nat, pad: bytes)
    requires Canonical(es) && NonBlank(es) && k < |es| && i + |es[k].placeholder| <= |o|
    requires QuietFrom(es, json, o, i + 1) && forall x | 0 <= x < |pad| :: pad[x] == SPACE
    ensures var after := o[i + |es[k].placeholder|..] + pad; Restore(es, json, after) == after
  {
    hide Restore, NonBlank, Canonical, StandsAt;
    PlaceholderNotEmpty(es, k);
    var a := i + |es[k].placeholder|;
    QuietPasses(es, json, o, a, |o|, pad);
    assert o[a..|o|] == o[a..];
    NoLessPasses(es, json, pad, []);
    RestoreNothing(es, json);
    assert pad + [] == pad;
  }

  /** An overlap that starts before the original: the beginning of the placeholder is written out, the original supplies the rest or its middle. */
  lemma StubBreaks(cfg: Config, json: bool, j: nat, k: nat, n: nat) returns (first: bytes, last: bytes)
    requires Canonical(cfg.entries) && NonBlank(cfg.entries) && HoldsPlaceholders(cfg) && j < |cfg.entries| && k < |cfg.entries|
    requires Alters(cfg.entries[k], json) && OverlapAt(Inserted(cfg.entries[j], json), cfg.entries[k].placeholder, n, cfg.maxPending)
    requires var o := Inserted(cfg.entries[j], json);
      |o| < n && forall x | 0 <= x < |o| && |o| - x <= cfg.maxPending :: !StandsAt(cfg.entries, json, o, x)
    ensures Joined(Emitted(cfg, json, [], [first], last)) != Restore(cfg.entries, json, Joined([first]) + last)
  {
    hide Restore, Hit, NonBlank, Held, Emitted, Joined, Canonical, HoldsPlaceholders, Inserted, Call, StandsAt, Agree;
    var es := cfg.entries;
    var o, q, p := Inserted(es[j], json), es[j].placeholder, es[k].placeholder;
    var u := p[..n - |o|];
    var cut := if n < |p| then |o| else |p| - (n - |o|);
    var v := if n < |p| then p[n..] else [];
    first, last := u + q, v;
    StubParts(o, p, n);
    RestoreAfterStub(es, json, k, u, j, []);
    RestoreNothing(es, json);
    assert q + [] == q && o + [] == o;
    TwoCalls(cfg, json, first, last);
    HeldWhole(cfg, u + o);
    var after := o[cut..|o|];
    QuietPasses(es, json, o, cut, |o|, []);
    assert after + [] == after;
    QuietAround(es, json, o, 0, 0, k, after);
    var r := Inserted(es[k], json);
    assert o[0..0] == [] && [] + (p + after) == p + after && [] + (r + after) == r + after;
    RestoreAfterStub(es, json, k, u, j, v);
    TailIsPlain(es, k, n);
    NoLessPasses(es, json, v, []);
    assert v + [] == v;
    Join3(u, q, v);
    Join3(u, o, v);
    Cancels(r, p, [], after);
  }

  /** The written beginning, the original and the written end make up the placeholder and what follows it. */
  lemma StubParts(o: bytes, p: bytes, n: nat)
    requires |o| < n < |o| + |p| && Agree(o, p, n)
    ensures var u := p[..n - |o|];
      var cut := if n < |p| then |o| else |p| - (n - |o|);
      var v := if n < |p| then p[n..] else [];
      && cut <= |o| && u != [] && |u| < |p| && u <= p && |u + o| == n
      && u + o + v == p + o[cut..|o|]
  {
    var d := n - |o|;
    var u, v := p[..d], if n < |p| then p[n..] else [];
    var cut := if n < |p| then |o| else |p| - d;
    assert o[..cut] == p[d..d + cut] by {
      forall x | 0 <= x < cut ensures o[x] == p[d..d + cut][x] {
        assert o[x] == p[x + n - |o|];
      }
    }
    assert p == u + o[..cut] + v;
    assert o == o[..cut] + o[cut..|o|];
    if n < |p| {
      assert o[cut..|o|] == [];
    }
  }

  lemma HeldWhole(cfg: Config, t: bytes)
    requires |t| <= cfg.maxPending
    ensures Held(cfg, t) == Emission([], t)
  {
  }

  lemma TailIsPlain(es: seq<Entry>, k: nat, n: nat)
    requires Canonical(es) && k < |es| && 1 <= n
    ensures var v := if n < |es[k].placeholder| then es[k].placeholder[n..] else []; forall x | 0 <= x < |v| :: v[x] != LESS
  {
    TokenBytes(es[k].placeholder);
  }

  /** An overlap that starts inside the original: its end is held back and the placeholder is completed. */
  lemma SuffixBreaks(cfg: Config, json: bool, j: nat, k: nat, n: nat) returns (first: bytes, last: bytes)
    requires Canonical(cfg.entries) && NonBlank(cfg.entries) && HoldsPlaceholders(cfg) && j < |cfg.entries| && k < |cfg.entries|
    requires Alters(cfg.entries[k], json) && OverlapAt(Inserted(cfg.entries[j], json), cfg.entries[k].placeholder, n, cfg.maxPending)
    requires var o := Inserted(cfg.entries[j], json);
      n <= |o| && n < |cfg.entries[k].placeholder|
      && forall x | 0 <= x < |o| && |o| - x <= cfg.maxPending :: !StandsAt(cfg.entries, json, o, x)
    ensures Joined(Emitted(cfg, json, [], [first], last)) != Restore(cfg.entries, json, Joined([first]) + last)
  {
    hide Restore, Hit, NonBlank, Held, Emitted, Joined, Canonical, HoldsPlaceholders, Inserted, Call, StandsAt, Agree, CutAt, QuietFrom;
    var es := cfg.entries;
    var o, q, p := Inserted(es[j], json), es[j].placeholder, es[k].placeholder;
    var v := p[n..];
    first, last := q, v;
    PlaceholderNotEmpty(es, j);
    PlaceholderRestores(es, json, j, []);
    RestoreNothing(es, json);
    assert q + [] == q && o + [] == o;
    TwoCalls(cfg, json, first, last);
    var e := HeldCut(cfg, o);
    SuffixFlush(cfg, json, o, k, n, e);
    SuffixParts(o, p, n, e);
    PlaceholderRestores(es, json, j, v);
    TailIsPlain(es, k, n);
    NoLessPasses(es, json, v, []);
    assert v + [] == v;
    var r := Inserted(es[k], json);
    OtherEnding(o[..e], o[e..|o| - n], r, p);
  }

  lemma OtherEnding(a: bytes, b: bytes, r: bytes, p: bytes)
    requires r != p
    ensures a + (b + r) != (a + b) + p
  {
    assert p + [] == p && r + [] == r;
    Join3(a, b, r);
    Cancels(r, p, a + b, []);
  }

  lemma PlaceholderRestores(es: seq<Entry>, json: bool, j: nat, rest: bytes)
    requires Canonical(es) && NonBlank(es) && j < |es|
    ensures Restore(es, json, es[j].placeholder + rest) == Inserted(es[j], json) + Restore(es, json, rest)
  {
    hide Restore, NonBlank, Canonical, Hit;
    var q := es[j].placeholder;
    PlaceholderNotEmpty(es, j);
    assert q <= q + rest;
    HitIsUnique(es, q + rest, j);
    RestoreUnfolds(es, json, q + rest);
    assert (q + rest)[|q|..] == rest;
  }

  /** What is held of the original, completed to a placeholder, is flushed with the placeholder replaced. */
  lemma SuffixFlush(cfg: Config, json: bool, o: bytes, k: nat, n: nat, e: nat)
    requires Canonical(cfg.entries) && NonBlank(cfg.entries) && k < |cfg.entries| && CutAt(o, e, cfg.maxPending)
    requires 1 <= n <= |o| && n < |cfg.entries[k].placeholder| && n <= cfg.maxPending && Agree(o, cfg.entries[k].placeholder, n)
    requires forall x | 0 <= x < |o| && |o| - x <= cfg.maxPending :: !StandsAt(cfg.entries, json, o, x)
    ensures e <= |o| - n
    ensures Restore(cfg.entries, json, o[e..] + cfg.entries[k].placeholder[n..]) == o[e..|o| - n] + Inserted(cfg.entries[k], json)
  {
    hide Restore, NonBlank, Canonical, StandsAt, CutAt, Agree, Inserted;
    var es, p, b := cfg.entries, cfg.entries[k].placeholder, |o| - n;
    CutBeforeSuffix(o, e, n, cfg.maxPending);
    forall x | e <= x < b ensures !StandsAt(es, json, o, x) {
      NotStandingBeforeHeld(es, json, o, e, x, cfg.maxPending);
    }
    RestoreNothing(es, json);
    QuietAround(es, json, o, e, b, k, []);
    SuffixParts(o, p, n, e);
    var r := Inserted(es[k], json);
    assert p + [] == p && r + [] == r;
  }

  lemma CutBeforeSuffix(o: bytes, e: nat, n: nat, held: nat)
    requires CutAt(o, e, held) && n <= held && n <= |o|
    ensures e <= |o| - n
  {
  }

  lemma NotStandingBeforeHeld(es: seq<Entry>, json: bool, o: bytes, e: nat, x: nat, held: nat)
    requires Canonical(es) && CutAt(o, e, held) && e <= x < |o|
    requires |o| - x <= held ==> !StandsAt(es, json, o, x)
    ensures !StandsAt(es, json, o, x)
  {
    hide Canonical, Altered;
    if StandsAt(es, json, o, x) {
      AlteredStartsWithLess(es, json, o[x..]);
    }
  }

  /** The held end of the original and the written rest make up the placeholder, after what stands before it. */
  lemma SuffixParts(o: bytes, p: bytes, n: nat, e: nat)
    requires 1 <= n <= |o| && n < |p| && Agree(o, p, n) && e <= |o| - n
    ensures o[e..] + p[n..] == o[e..|o| - n] + p
    ensures o + p[n..] == (o[..e] + o[e..|o| - n]) + p
  {
    var b := |o| - n;
    assert o[b..] == p[..n] by {
      forall x | 0 <= x < n ensures o[b..][x] == p[..n][x] {
        assert o[b + x] == p[b + x + n - |o|];
      }
    }
    assert p == p[..n] + p[n..];
    assert o[e..] == o[e..b] + o[b..];
    assert o == o[..e] + o[e..b] + o[b..];
  }

  /** Any overlap gives two chunks that restore to something else than the whole. */
  lemma OverlapBreaksStreaming(cfg: Config, json: bool, j: nat, k: nat, n: nat) returns (first: bytes, last: bytes)
    requires Canonical(cfg.entries) && NonBlank(cfg.entries) && HoldsPlaceholders(cfg) && j < |cfg.entries| && k < |cfg.entries|
    requires Alters(cfg.entries[k], json) && OverlapAt(Inserted(cfg.entries[j], json), cfg.entries[k].placeholder, n, cfg.maxPending)
    ensures Joined(Emitted(cfg, json, [], [first], last)) != Restore(cfg.entries, json, Joined([first]) + last)
  {
    hide Restore, Hit, NonBlank, Canonical, HoldsPlaceholders, Inserted, Call, Emitted, Joined, StandsAt, Agree;
    var es, o, p := cfg.entries, Inserted(cfg.entries[j], json), cfg.entries[k].placeholder;
    var from := if |o| <= cfg.maxPending then 0 else |o| - cfg.maxPending;
    var i := LastStanding(es, json, o, from);
    if i < |o| {
      first, last := StandingBreaks(cfg, json, j, i);
    } else if |o| < n {
      first, last := StubBreaks(cfg, json, j, k, n);
    } else {
      WholeStands(es, json, o, k, n);
      first, last := SuffixBreaks(cfg, json, j, k, n);
    }
  }

  /** A placeholder that lies inside the original stands there. */
  lemma WholeStands(es: seq<Entry>, json: bool, o: bytes, k: nat, n: nat)
    requires Canonical(es) && NonBlank(es) && k < |es| && Alters(es[k], json) && 1 <= n <= |o| && Agree(o, es[k].placeholder, n)
    requires !StandsAt(es, json, o, |o| - n)
    ensures n < |es[k].placeholder|
  {
    hide Hit;
    var p, b := es[k].placeholder, |o| - n;
    NotAlteredHere(es, json, o[b..], k);
    forall x | 0 <= x < n && x < |p| ensures o[b..][x] == p[x] {
      assert o[b + x] == p[b + x + n - |o|];
    }
    assert |o[b..]| == n;
  }

  /** Streaming equals one-shot for every chunking of every response if and only if no original overlaps a placeholder. */
  lemma StreamsAsWholeIffNoOverlap(cfg: Config, json: bool)
    requires Canonical(cfg.entries) && HoldsPlaceholders(cfg)
    ensures NonBlank(cfg.entries) && (StreamsAsWhole(cfg, json) <==> NoOverlap(cfg, json))
  {
    hide Restore, Emitted, Joined, Canonical, NonBlank, HoldsPlaceholders, OverlapAt, Inserted;
    var es := cfg.entries;
    CanonicalNonBlank(es);
    if NoOverlap(cfg, json) {
      forall chunks, last ensures Joined(Emitted(cfg, json, [], chunks, last)) == Restore(es, json, Joined(chunks) + last) {
        StreamingEqualsOneShot(cfg, json, chunks, last);
      }
    } else {
      var j, k :| 0 <= j < |es| && 0 <= k < |es| && Alters(es[k], json) && Overlaps(Inserted(es[j], json), es[k].placeholder, cfg.maxPending);
      var n :| 1 <= n < |Inserted(es[j], json)| + |es[k].placeholder| && OverlapAt(Inserted(es[j], json), es[k].placeholder, n, cfg.maxPending);
      var first, last := OverlapBreaksStreaming(cfg, json, j, k, n);
      var chunks := [first];
      assert Joined(Emitted(cfg, json, [], chunks, last)) != Restore(es, json, Joined(chunks) + last);
    }
  }

  /** Originals without angle brackets, each with a byte outside the placeholder alphabet. */
  predicate ForeignOriginals(es: seq<Entry>, json: bool) {
    forall k | 0 <= k < |es| ::
      var o := Inserted(es[k], json);
      (forall x | 0 <= x < |o| :: o[x] != LESS && o[x] != GREATER) && exists i | 0 <= i < |o| :: !IsWord(o[i])
  }

  /** Such originals can be streamed. */
  lemma ForeignOriginalsStream(cfg: Config, json: bool)
    requires Canonical(cfg.entries) && HoldsPlaceholders(cfg) && ForeignOriginals(cfg.entries, json)
    ensures NonBlank(cfg.entries) && StreamsAsWhole(cfg, json)
  {
    hide StreamsAsWhole, HoldsPlaceholders, Overlaps, Token, IsWord, Inserted;
    var es := cfg.entries;
    forall j, k | 0 <= j < |es| && 0 <= k < |es| ensures !Overlaps(Inserted(es[j], json), es[k].placeholder, cfg.maxPending) {
      var o := Inserted(es[j], json);
      var i :| 0 <= i < |o| && !IsWord(o[i]);
      ForeignOriginalNeverOverlaps(o, es[k].placeholder, i, cfg.maxPending);
    }
    StreamsAsWholeIffNoOverlap(cfg, json);
  }
}
