/**
 Streamed demasking splits no rune: with ASCII placeholders and well-formed originals,
 every emitted chunk of every well-formed stream is well-formed UTF-8 exactly when at
 least three bytes are held back.
 */
module StreamRunes {
  import opened Bytes
  import opened Replacer
  import opened Demasker
  import opened Runes

  predicate AsciiPlaceholders(es: seq<Entry>) {
    forall k | 0 <= k < |es| :: IsAscii(es[k].placeholder) && es[k].placeholder != []
  }

  predicate WellFormedOriginals(es: seq<Entry>, json: bool) {
    forall k | 0 <= k < |es| :: WellFormed(Inserted(es[k], json))
  }

  lemma AsciiNonBlank(es: seq<Entry>)
    requires AsciiPlaceholders(es)
    ensures NonBlank(es)
  {
  }

  /** No placeholder starts at a byte outside ASCII. */
  lemma NoHitOutsideAscii(es: seq<Entry>, text: bytes)
    requires AsciiPlaceholders(es) && text != [] && text[0] > 0x7F
    ensures Hit(es, text) == None
  {
  }

  lemma {:induction false} NonAsciiPasses(es: seq<Entry>, json: bool, a: bytes, rest: bytes)
    requires AsciiPlaceholders(es) && NonBlank(es) && NoAscii(a)
    ensures Restore(es, json, a + rest) == a + Restore(es, json, rest)
    decreases |a|
  {
    hide Restore, Hit, AsciiPlaceholders;
    if a == [] {
      assert a + rest == rest;
    } else {
      var w := a + rest;
      NoHitOutsideAscii(es, w);
      RestoreUnfolds(es, json, w);
      assert w[1..] == a[1..] + rest;
      NonAsciiPasses(es, json, a[1..], rest);
      assert a == [a[0]] + a[1..];
      Join3([a[0]], a[1..], Restore(es, json, rest));
    }
  }

  /** A rune at which no placeholder starts passes through. */
  lemma RunePasses(es: seq<Entry>, json: bool, b: bytes, rest: bytes)
    requires AsciiPlaceholders(es) && NonBlank(es) && RuneLength(b) > 0 && Hit(es, b + rest) == None
    ensures var n := RuneLength(b); Restore(es, json, b + rest) == b[..n] + Restore(es, json, b[n..] + rest)
  {
    hide Restore, Hit, AsciiPlaceholders, RuneLength;
    var n := RuneLength(b);
    RuneBytes(b);
    DropAcross(b, rest, n);
    if n == 1 {
      RestoreUnfolds(es, json, b + rest);
      assert b[..1] == [b[0]];
    } else {
      assert b + rest == b[..n] + (b[n..] + rest);
      NonAsciiPasses(es, json, b[..n], b[n..] + rest);
    }
  }

  /** A placeholder at the front lies within the whole runes. */
  lemma HitInRunes(es: seq<Entry>, b: bytes, t: bytes)
    requires AsciiPlaceholders(es) && NoAscii(t) && Hit(es, b + t).Some?
    ensures es[Hit(es, b + t).value].placeholder <= b
  {
    var p := es[Hit(es, b + t).value].placeholder;
    assert IsAscii(p);
    assert p == (b + t)[..|p|];
    assert t != [] ==> (b + t)[|b|] == t[0];
  }

  /** Whole runes are restored to whole runes; the beginning of a rune after them stays as it is. */
  lemma {:induction false} RestoreKeepsRunes(es: seq<Entry>, json: bool, b: bytes, t: bytes)
    requires AsciiPlaceholders(es) && NonBlank(es) && WellFormedOriginals(es, json)
    requires WellFormed(b) && NoAscii(t)
    ensures exists r :: WellFormed(r) && Restore(es, json, b + t) == r + t
    decreases |b|
  {
    hide Restore, Hit, AsciiPlaceholders, RuneLength;
    if b == [] {
      assert b + t == t && t + [] == t;
      NonAsciiPasses(es, json, t, []);
      RestoreNothing(es, json);
      assert WellFormed([]) && Restore(es, json, b + t) == [] + t;
    } else {
      RestoreUnfolds(es, json, b + t);
      var front, rest: bytes;
      match Hit(es, b + t) {
        case Some(k) =>
          var p := es[k].placeholder;
          HitInRunes(es, b, t);
          AsciiAt(es, k);
          assert b == p + b[|p|..];
          AfterAscii(p, b[|p|..]);
          DropAcross(b, t, |p|);
          front, rest := Inserted(es[k], json), b[|p|..];
        case None =>
          RunePasses(es, json, b, t);
          OneRune(b);
          front, rest := b[..RuneLength(b)], b[RuneLength(b)..];
      }
      RestoreKeepsRunes(es, json, rest, t);
      var r :| WellFormed(r) && Restore(es, json, rest + t) == r + t;
      WellFormedConcat(front, r);
      Join3(front, r, t);
      assert WellFormed(front + r) && Restore(es, json, b + t) == front + r + t;
    }
  }

  lemma AsciiAt(es: seq<Entry>, k: nat)
    requires AsciiPlaceholders(es) && k < |es|
    ensures IsAscii(es[k].placeholder) && es[k].placeholder != []
  {
  }

  /** One call: what is emitted is well-formed, and what is held back is well-formed with the input to come. */
  lemma CallKeepsRunes(cfg: Config, json: bool, pending: bytes, chunk: bytes, rest: bytes)
    requires AsciiPlaceholders(cfg.entries) && NonBlank(cfg.entries) && WellFormedOriginals(cfg.entries, json) && cfg.maxPending >= 3
    requires WellFormed(pending + chunk + rest)
    ensures var r := Call(cfg, json, pending, chunk, false); WellFormed(r.out) && WellFormed(r.pending + rest)
    ensures rest == [] ==> WellFormed(Call(cfg, json, pending, chunk, true).out)
  {
    hide Restore, WellFormed, AsciiPlaceholders, WellFormedOriginals, NonBlank, SafePrefixEnd, WholeRunes;
    Empty();
    var x := pending + chunk;
    if x != [] {
      var n := WholeRunes(x);
      var t := x[n..];
      PrefixOfWellFormed(x, rest);
      assert x == x[..n] + t;
      RestoreKeepsRunes(cfg.entries, json, x[..n], t);
      var b :| WellFormed(b) && Restore(cfg.entries, json, x) == b + t;
      Join3(b, t, rest);
      WellFormedConcat(b, t + rest);
      assert rest == [] ==> b + t == b;
      if |b + t| > cfg.maxPending {
        var end := |b + t| - cfg.maxPending;
        SafeCut(b, t, end);
        var e := SafePrefixEnd(b + t, end);
        assert (b + t)[..e] == b[..e];
        DropAcross(b, t, e);
        Join3(b[e..], t, rest);
        WellFormedConcat(b[e..], t + rest);
      }
    } else {
      assert x + rest == rest;
      assert [] + rest == rest;
    }
  }

  lemma Empty()
    ensures WellFormed([])
  {
  }

  predicate AllWellFormed(pieces: seq<bytes>) {
    forall piece <- pieces :: WellFormed(piece)
  }

  lemma {:induction false} PiecesKeepRunes(cfg: Config, json: bool, pending: bytes, chunks: seq<bytes>, last: bytes)
    requires AsciiPlaceholders(cfg.entries) && NonBlank(cfg.entries) && WellFormedOriginals(cfg.entries, json) && cfg.maxPending >= 3
    requires WellFormed(pending + (Joined(chunks) + last))
    ensures AllWellFormed(Emitted(cfg, json, pending, chunks, last))
    decreases |chunks|
  {
    hide WellFormed, AsciiPlaceholders, WellFormedOriginals, NonBlank, Call;
    if chunks == [] {
      assert Joined(chunks) + last == last;
      assert pending + last + [] == pending + last;
      CallKeepsRunes(cfg, json, pending, last, []);
    } else {
      var rest := Joined(chunks[1..]) + last;
      Join3(chunks[0], Joined(chunks[1..]), last);
      Join3(pending, chunks[0], rest);
      CallKeepsRunes(cfg, json, pending, chunks[0], rest);
      var r := Call(cfg, json, pending, chunks[0], false);
      PiecesKeepRunes(cfg, json, r.pending, chunks[1..], last);
    }
  }

  /** Every chunk emitted for a well-formed stream is well-formed. */
  ghost predicate SplitsNoRune(cfg: Config, json: bool)
    requires NonBlank(cfg.entries)
  {
    forall chunks, last | WellFormed(Joined(chunks) + last) :: AllWellFormed(Emitted(cfg, json, [], chunks, last))
  }

  /** Three bytes of a four-byte rune: with less than three held back, some of them are emitted alone. */
  lemma CutRune(cfg: Config, json: bool)
    requires AsciiPlaceholders(cfg.entries) && NonBlank(cfg.entries) && cfg.maxPending < 3
    ensures WellFormed(Joined([[0xF0, 0x9F, 0x98]]) + [0x80])
    ensures !AllWellFormed(Emitted(cfg, json, [], [[0xF0, 0x9F, 0x98]], [0x80]))
  {
    hide Restore, AsciiPlaceholders, NonBlank;
    var x: bytes := [0xF0, 0x9F, 0x98];
    assert [x][1..] == [];
    assert Joined([x]) + [0x80] == [0xF0, 0x9F, 0x98, 0x80];
    assert WellFormed([0xF0, 0x9F, 0x98, 0x80]);
    NonAsciiPasses(cfg.entries, json, x, []);
    RestoreNothing(cfg.entries, json);
    assert x + [] == x && [] + x == x;
    BrokenEmission(cfg, json, x);
    assert Emitted(cfg, json, [], [x], [0x80])[0] == Call(cfg, json, [], x, false).out;
  }

  const CUT_RUNE: bytes := [0xF0, 0x9F, 0x98]

  lemma CutRunePrefix(end: nat)
    requires 1 <= end <= 3
    ensures SafePrefixEnd(CUT_RUNE, end) == end && !WellFormed(CUT_RUNE[..end])
  {
    hide WellFormed, StartBefore;
    if end < 3 {
      StartInRune(CUT_RUNE, 0, end - 1);
    }
    assert RuneLenAt(CUT_RUNE, 0) == 1;
    assert RuneLength(CUT_RUNE[..end]) == 0;
    NoRune(CUT_RUNE[..end]);
  }

  lemma NoRune(s: bytes)
    requires s != [] && RuneLength(s) == 0
    ensures !WellFormed(s)
  {
  }

  lemma BrokenEmission(cfg: Config, json: bool, x: bytes)
    requires NonBlank(cfg.entries) && cfg.maxPending < 3 && x == [0xF0, 0x9F, 0x98] && Restore(cfg.entries, json, x) == x
    ensures !WellFormed(Call(cfg, json, [], x, false).out)
  {
    hide Restore, NonBlank, WellFormed, SafePrefixEnd;
    assert [] + x == x;
    CutRunePrefix(3 - cfg.maxPending);
  }

  /** No rune is ever split if and only if at least three bytes are held back. */
  lemma SplitsNoRuneIffThreeHeld(cfg: Config, json: bool)
    requires AsciiPlaceholders(cfg.entries) && WellFormedOriginals(cfg.entries, json)
    ensures NonBlank(cfg.entries) && (SplitsNoRune(cfg, json) <==> cfg.maxPending >= 3)
  {
    hide WellFormed, AsciiPlaceholders, WellFormedOriginals, NonBlank, Call, Emitted, AllWellFormed, Joined;
    AsciiNonBlank(cfg.entries);
    if cfg.maxPending >= 3 {
      forall chunks, last | WellFormed(Joined(chunks) + last) ensures AllWellFormed(Emitted(cfg, json, [], chunks, last)) {
        assert [] + (Joined(chunks) + last) == Joined(chunks) + last;
        PiecesKeepRunes(cfg, json, [], chunks, last);
      }
    } else {
      CutRune(cfg, json);
      var chunks, last: bytes := [[0xF0, 0x9F, 0x98]], [0x80];
      assert WellFormed(Joined(chunks) + last) && !AllWellFormed(Emitted(cfg, json, [], chunks, last));
    }
  }

  /** A call that does not flush keeps no more than it must: the hold-back, and at most three bytes of a rune. */
  lemma EmitsAllButTail(cfg: Config, json: bool, pending: bytes, chunk: bytes)
    requires NonBlank(cfg.entries) && WellFormed(Restore(cfg.entries, json, pending + chunk))
    ensures |Call(cfg, json, pending, chunk, false).pending| <= cfg.maxPending + 3
  {
    hide Restore, WellFormed, SafePrefixEnd;
    var text := Restore(cfg.entries, json, pending + chunk);
    if |text| > cfg.maxPending {
      SafeCutIsLatest(text, |text| - cfg.maxPending);
    }
  }
}
