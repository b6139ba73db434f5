/**
 The components together: the texts of a request are masked and spliced back into the
 body, and what is extracted from that body is demasked to the original texts, all at
 once or in a stream.
 */
module EndToEnd {
  import opened Bytes
  import opened Rules
  import opened JsonScan
  import opened JsonSplice
  import opened ChatCompletions
  import opened ExtractRoundTrip
  import opened Masker
  import opened Replacer
  import opened Streaming
  import opened RoundTrip

  function FieldTexts(fields: seq<Field>): (r: seq<bytes>)
    ensures |r| == |fields| && forall k | 0 <= k < |r| :: r[k] == fields[k].text
  {
    seq(|fields|, k requires 0 <= k < |fields| => fields[k].text)
  }

  /** The fields have the same paths, and their texts demask to these. */
  ghost predicate DemasksTo(es: seq<Entry>, again: seq<Field>, fields: seq<Field>)
    requires NonBlank(es)
  {
    && |again| == |fields|
    && forall k | 0 <= k < |fields| :: again[k].path == fields[k].path && Restore(es, false, again[k].text) == fields[k].text
  }

  /** A text that demasks to something is not empty. */
  lemma MaskedNotEmpty(es: seq<Entry>, masked: seq<bytes>, texts: seq<bytes>)
    requires NonBlank(es) && RestoresTo(es, masked, texts) && forall t <- texts :: t != []
    ensures forall m <- masked :: m != []
  {
    hide Restore;
    RestoreNothing(es, false);
    forall m <- masked ensures m != [] {
      var k :| 0 <= k < |masked| && masked[k] == m;
      assert texts[k] in texts;
    }
  }

  /**
   A masked request restores: with the extracted texts of a valid body masked and spliced
   back as JSON strings, the body stays valid, the same paths are extracted from it, and
   each of their texts is demasked to the original text.
   */
  lemma MaskedRequestRestores(doc: bytes, matches: seq<seq<ScanMatch>>, masked: seq<bytes>, order: seq<Edit>)
    requires IsValid(doc) && Extracted(doc).Fields?
    requires AllInText(FieldTexts(Extracted(doc).fields), matches) && WordTypes(matches)
    requires var texts := FieldTexts(Extracted(doc).fields);
      MaskedTexts(Reserved(texts), FRESH, texts, matches).0 == Ok(masked)
    requires |masked| == |Extracted(doc).fields| && IsSortOf(order, PatchEdits(Extracted(doc).fields, masked))
    ensures Applied(doc, order).Ok?
    ensures var texts := FieldTexts(Extracted(doc).fields);
      var es := EntriesOf(FinalState(texts, matches).replacements);
      var out := Applied(doc, order).value;
      && NonBlank(es) && IsValid(out) && Extracted(out).Fields?
      && DemasksTo(es, Extracted(out).fields, Extracted(doc).fields)
  {
    hide IsValid, Extracted, MaskedTexts, Reserved, AllInText, WordTypes, NonBlank, Restore, Applied, IsSortOf, PatchEdits;
    var fields := Extracted(doc).fields;
    var texts := FieldTexts(fields);
    MaskThenDemask(texts, matches);
    var es := EntriesOf(FinalState(texts, matches).replacements);
    ExtractedFieldsApart(doc);
    forall t <- texts ensures t != [] {
      var k :| 0 <= k < |texts| && texts[k] == t;
      assert fields[k] in fields;
    }
    MaskedNotEmpty(es, masked, texts);
    ExtractionCommutesWithPatching(doc, masked, order);
  }

  /** The placeholders that masking mints are canonical: streaming their demasking is as good as demasking the whole exactly when no original overlaps a placeholder. */
  lemma MaskedStreamsAsWhole(texts: seq<bytes>, matches: seq<seq<ScanMatch>>, cfg: Config, json: bool)
    requires |matches| == |texts| && WordTypes(matches)
    requires cfg.entries == EntriesOf(FinalState(texts, matches).replacements) && HoldsPlaceholders(cfg)
    ensures NonBlank(cfg.entries) && (StreamsAsWhole(cfg, json) <==> NoOverlap(cfg, json))
  {
    hide Reserved, MaskedTexts, Canonical, NonBlank, StreamsAsWhole, NoOverlap, LiteralReplacements, KnowsAll, HoldsPlaceholders;
    MintingIsFresh(texts, matches);
    FreshInv(Reserved(texts));
    TextsKeepLiterals(Reserved(texts), FRESH, texts, matches) by { NoReplacements(); }
    EntriesKnowAll(FinalState(texts, matches).replacements);
    StreamsAsWholeIffNoOverlap(cfg, json);
  }

  lemma NoReplacements()
    ensures LiteralReplacements(FRESH.replacements)
  {
  }
}
