/**
 What the JSON context of the demasker is for: originals go into the inside of a string
 literal, escaped, so the literal stays one and means the text restored outside JSON.
 */
module JsonContext {
  import opened Bytes
  import opened Rules
  import opened JsonGrammar
  import opened JsonStrings
  import opened JsonEscapes
  import opened Replacer

  /** Every escaped original is the escaping of its original. */
  predicate Escaped(es: seq<Entry>) {
    forall e <- es :: e.jsonOriginal == Encode(e.original, false)
  }

  predicate PlainText(text: bytes) {
    forall b <- text :: !NeedsEscape(b)
  }

  /** Encoded bytes in front of a tail decode to themselves, and the tail is decoded on its own. */
  lemma {:induction false} EncodedThenTail(raw: bytes, tail: bytes)
    ensures DecodeBody(EncodeBody(raw) + tail) == raw + DecodeBody(tail)
    decreases |raw|
  {
    hide DecodeBody, EncodedUnit, UnitLength;
    if raw == [] {
      assert EncodeBody(raw) + tail == tail;
    } else {
      var n := UnitLength(raw);
      var u, more := EncodedUnit(raw), EncodeBody(raw[n..]);
      EncodedThenTail(raw[n..], tail);
      DecodeUnit(raw, more + tail);
      Join3(u, more, tail);
      Join3(raw[..n], raw[n..], DecodeBody(tail));
      assert raw == raw[..n] + raw[n..];
    }
  }

  /** One character of a literal: a plain byte, a letter escape or a `\u` escape. */
  predicate IsChar(u: bytes) {
    || (|u| == 1 && u[0] != QUOTE && u[0] != BACKSLASH && u[0] >= 0x20)
    || (|u| == 2 && u[0] == BACKSLASH && IsSimpleEscape(u[1]))
    || IsUnicodeEscape(u)
  }

  lemma FirstChar(s: bytes) returns (n: nat)
    requires Chars(s) && s != []
    ensures 0 < n <= |s| && IsChar(s[..n]) && Chars(s[n..])
  {
    n := if s[0] != BACKSLASH then 1 else if IsSimpleEscape(s[1]) then 2 else 6;
  }

  lemma CharThenChars(u: bytes, s: bytes)
    requires IsChar(u) && Chars(s)
    ensures Chars(u + s)
  {
    assert (u + s)[|u|..] == s && (u + s)[..|u|] == u;
    assert (u + s)[0] == u[0];
  }

  lemma {:induction false} CharsConcat(a: bytes, b: bytes)
    requires Chars(a) && Chars(b)
    ensures Chars(a + b)
    decreases |a|
  {
    hide Chars, IsChar;
    if a == [] {
      assert a + b == b;
    } else {
      var n := FirstChar(a);
      CharsConcat(a[n..], b);
      CharThenChars(a[..n], a[n..] + b);
      assert a + b == a[..n] + (a[n..] + b);
    }
  }

  lemma PlainByte(b: byte, tail: bytes)
    requires !NeedsEscape(b)
    ensures DecodeBody([b] + tail) == [b] + DecodeBody(tail)
    ensures Chars(tail) ==> Chars([b] + tail)
  {
    hide DecodeBody;
    assert ([b] + tail)[1..] == tail;
    DecodeUnfolds([b] + tail);
  }

  lemma RestNeedsNone(text: bytes, n: nat)
    requires PlainText(text) && n <= |text|
    ensures PlainText(text[n..])
  {
    assert forall b <- text[n..] :: b in text;
  }

  /** Restoring inside a literal, then decoding, is restoring outside it. */
  lemma {:induction false} RestoredMeans(es: seq<Entry>, text: bytes)
    requires NonBlank(es) && Escaped(es) && PlainText(text)
    ensures Chars(Restore(es, true, text))
    ensures DecodeBody(Restore(es, true, text)) == Restore(es, false, text)
    decreases |text|
  {
    hide DecodeBody, Restore, NonBlank, Chars, PlainText, NeedsEscape, EncodeBody;
    if text == [] {
      NothingMeans(es);
    } else {
      RestoreUnfolds(es, true, text);
      RestoreUnfolds(es, false, text);
      match Hit(es, text)
      case None =>
        RestNeedsNone(text, 1);
        RestoredMeans(es, text[1..]);
        HeadIsPlain(text);
        PlainByte(text[0], Restore(es, true, text[1..]));
      case Some(k) =>
        var rest := text[|es[k].placeholder|..];
        RestNeedsNone(text, |es[k].placeholder|);
        RestoredMeans(es, rest);
        EncodedThenTail(es[k].original, Restore(es, true, rest));
        EncodedChars(es[k].original);
        CharsConcat(es[k].jsonOriginal, Restore(es, true, rest));
    }
  }

  lemma HeadIsPlain(text: bytes)
    requires PlainText(text) && text != []
    ensures !NeedsEscape(text[0])
  {
  }

  lemma NothingMeans(es: seq<Entry>)
    requires NonBlank(es)
    ensures Restore(es, true, []) == [] && Restore(es, false, []) == [] && DecodeBody([]) == [] && Chars([])
  {
  }

  lemma EntriesAreEscaped(reps: seq<Replacement>)
    ensures Escaped(EntriesOf(reps))
  {
    hide EntriesOf, Encode;
    EntriesAreFirsts(reps);
    forall e <- EntriesOf(reps) ensures e.jsonOriginal == Encode(e.original, false) {
      assert ComesFromFirst(reps, e);
    }
  }

  /**
   For any replacements and any text without a quote, a backslash or a control byte: put
   between quotes, the text restored in JSON context is one string literal, and it means
   the text restored verbatim.
   */
  lemma JsonContextIsTransparent(reps: seq<Replacement>, text: bytes)
    requires PlainText(text)
    ensures NonBlank(EntriesOf(reps))
    ensures var literal := [QUOTE] + Restore(EntriesOf(reps), true, text) + [QUOTE];
      IsString(literal) && Decode(literal) == Restore(EntriesOf(reps), false, text)
  {
    hide DecodeBody, Restore, Chars;
    EntriesAreFirsts(reps);
    EntriesAreEscaped(reps);
    RestoredMeans(EntriesOf(reps), text);
    var inner := Restore(EntriesOf(reps), true, text);
    LiteralDecodes(inner);
    var literal := [QUOTE] + inner + [QUOTE];
    assert literal[1..|literal| - 1] == inner;
  }
}
