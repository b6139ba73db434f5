# Verified model of the masking engine

A Dafny model of the engine under `src/guard/` that detects sensitive spans in the JSON
body of an LLM request, replaces them with placeholders such as `<EMAIL_1>`, and restores
them in the response, whole or streamed, without re-serialising the JSON. Beside it stands
the connection pool of `src/database/Database.hpp`.

`dafny verify dfyconfig.toml` checks everything.

## The parts

- **JSON by span.** `JsonGrammar` is RFC 8259 (sections 2 to 7) as syntax trees that keep
  every byte. `JsonScan` holds the scanners, each proved against a recursive-descent
  reading; `JsonParsing` proves that reading sound, complete and unambiguous for the
  grammar. `JsonStrings` encodes and decodes, and `JsonEscapes` and `Utf8` say what every
  spelling means; `JsonLookup`, `JsonSplice`, `JsonLeaves` and
  `JsonSubst` relate lookups and splices of bytes to lookups and substitutions in trees.
  `ChatCompletions`, `ExtractPatch`, `ExtractExact` and `ExtractRoundTrip` are the request
  extractor, what it extracts, and its commutation with patching; `DemaskJson` the structural demasking of tool-call
  arguments; `BraceTracker` the streaming brace counter.
- **Mask and demask.** `Placeholders` and `Masker` mint placeholders and mask texts;
  `Masking` proves that every span is masked, and `RoundTrip` that the exact pass undoes it.
  `Replacer`, `JsonContext`, `Demasker`, `Streaming`, `Runes` and `StreamRunes` are the
  exact replacer, verbatim and inside JSON strings, and the pending buffer.
  `EndToEnd` joins extraction, masking, splicing and demasking.
- **Regex provers.** `RegexSyntax` is the supported subset as trees, `RegexLang` what they
  match, `RegexParse` the reading both parsers share. `Prefilter`, `PrefilterParser`,
  `PrefilterSound`, `PrefilterComplete` and `PrefilterScan` prove the keyword guarantee and
  exactly when it is given; `LengthBound`, `LengthReached`, `FoldBound`, `LengthParser`,
  `PlaceholderTemplate` and `TemplateSpelling` the length bound and the recogniser.
- **Scanner.** `Scanner`, `Survivors` and `Conflicts`: search, keyword filter, fan-out,
  coalescing.
- **Pool.** `Pool`: the acquire and release protocol as interleaved steps.

`Bytes` and `Rules` hold what the others share.

## How to read the model

- Text is `seq<byte>`. Exceptions are `Result` or `Option` values. Counters, depths and
  offsets are unbounded naturals, except where the width matters: SIZE_MAX saturation in
  the length bound, and the 64-bit minimum count of the prefilter.
- A loop or a class of the source is a method or a class here; its contract names a
  function, and the lemmas are about that function.
- Parameters stand for what is outside: the regex engine (`Scanner.Matcher`, matches from
  an offset on, inside the text, with groups inside their match), the validators, the
  lower-casing map on runes (fixed on ASCII and U+212A), case folding on runes (fixed on
  ASCII, U+017F and U+212A), the number of processors, and one whole-text demask in
  `DemaskJson` (which may throw).
- Library sorts are an insertion sort, together with a proof that any other sorted order
  gives the same result where one is promised.
- The regex language is meant to be never smaller than what RE2 matches: zero-width
  assertions match the empty string anywhere, `.` any rune, property, hexadecimal and octal
  escapes any rune, and a negated class leaves out only what its other members match.

## Where code and documentation part, or a promise has a condition

- Streaming equals one-shot exactly when no original overlaps a placeholder
  (`Streaming.StreamsAsWholeIffNoOverlap`): the pending buffer holds restored text and is
  scanned again, so an original such as `MAIL_1` or `x<` can be part of a placeholder by
  accident. An original overlaps when it can be laid over a placeholder that restoring
  changes so that they agree wherever both have a byte, with everything from the start of
  the placeholder to the end of the original inside the hold-back; an empty original
  overlaps every such placeholder. The placeholders are
  those masking mints over word types, all distinct and no longer than the hold-back;
  nothing is asked of the originals.
- Masking can be undone exactly when placeholder types are made of `[A-Za-z0-9_]`
  (`RoundTrip.RoundTripsIffWordTypes`): other types are minted but never reserved.
- With ASCII placeholders and well-formed originals, runes stay whole exactly when at least
  three bytes are held back (`StreamRunes.SplitsNoRuneIffThreeHeld`).
- The comments of `src/guard/PlaceholderRegex.hpp` promise that the bound is never an
  underestimate. Where case is ignored the code widens `s` and `k` only, and only where
  they are written out. For one atom after `(?i)` the bound is right for every folding that
  keeps the table (ASCII letters, U+017F, U+212A; anything for other runes) exactly when it
  covers the widest rune the atom may match (`FoldBound.FoldedAtomBoundIffSafe`). It fails
  for `\w`, for runes of two or three bytes, and for ranges that reach `k` or `s` without
  ending there or a wider member beside them; it holds for `[a-f]`, for all other class
  escapes and for ASCII literals. A pattern is bounded rightly when its atoms are, wherever
  the scope of a flag ignores case (`LengthBound.LengthBoundIsSound`); patterns without such
  a flag and the recogniser template are among these.
- `array_elements` records a span before it skips white space after a comma, so a span may
  start with white space and its string flag is read there. `ElementsAreIndexes` therefore
  speaks of looking up inside the span.
- The malformed-container exits of `string_leaves` cannot be reached once the root value
  has been read, and its object walk and array walk then test the closing bracket alike.
- Two edits with the same start may be sorted either way by `splice_all`; its contract
  allows both.

## Model

| member | source | states |
|---|---|---|
| `JsonScan.SkipString` | src/guard/json/Json.hpp:212-257 | a string literal is accepted exactly as the reading function StringEnd says, and its end is returned |
| `JsonScan.SkipNumber` | src/guard/json/Json.hpp:262-294 | the greedy number scan: its end, or none |
| `JsonScan.OpenOrScalar` | src/guard/json/Json.hpp:332-387 | one value position: a scalar is skipped, or a container opens a frame |
| `JsonScan.SkipValue` | src/guard/json/Json.hpp:399-519 | the explicit-stack machine ends where the recursive-descent reading of one value ends, at every nesting depth, and fails exactly when that reading fails |
| `JsonScan.Valid` | src/guard/json/Json.hpp:751-759 | true exactly when one value between white space takes the whole document |
| `JsonParsing.StringSound` | src/guard/json/Json.hpp:212-257 | what the string scan accepts is a string of the grammar |
| `JsonParsing.StringComplete` | src/guard/json/Json.hpp:212-257 | every string of the grammar is accepted and ends where it ends, whatever follows |
| `JsonParsing.NumberSound` | src/guard/json/Json.hpp:262-294 | what the number scan accepts is a number of the grammar |
| `JsonParsing.NumberComplete` | src/guard/json/Json.hpp:262-294 | the greedy scan takes a whole number whenever what follows cannot extend it: no derivation is lost |
| `JsonParsing.ValueSound` | src/guard/json/Json.hpp:399-519 | a value that is read is a well-formed tree whose bytes are the bytes read |
| `JsonParsing.ValueComplete` | src/guard/json/Json.hpp:399-519 | every well-formed tree standing in a document is read back as that tree |
| `JsonParsing.ValidIffJsonText` | src/guard/json/Json.hpp:751-759 | valid holds exactly for the JSON-texts of RFC 8259 at byte level, stated by trees that scan nothing |
| `JsonParsing.OneReading` | src/guard/json/Json.hpp:399-519 | the grammar is unambiguous: two trees for one document are equal |
| `JsonStrings.ReadHex4` | src/guard/json/Json.hpp:546-564 | four hexadecimal digits, or none when one is missing |
| `JsonStrings.EncodeUnit` | src/guard/json/Json.hpp:677-743 | the escape, or the copied bytes, of one step of the encoder |
| `JsonStrings.EncodeString` | src/guard/json/Json.hpp:677-743 | the whole encoded string is the escapes in order, with or without quotes |
| `JsonStrings.DecodeUnicode` | src/guard/json/Json.hpp:578-670 | one `\u` escape: the code point appended and the bytes taken; what it is for every spelling is stated by the `JsonEscapes` rows |
| `JsonStrings.DecodeString` | src/guard/json/Json.hpp:578-670 | the decoded bytes of a literal, and the literal itself when it has no quotes; every spelling is decided by the `JsonEscapes` rows |
| `JsonStrings.EncodeDecode` | src/guard/json/Json.hpp:578-743 | for every byte string, the encoding is a string literal of the grammar and decodes to the bytes it was made from |
| `JsonEscapes.PairDecodes` | src/guard/json/Json.hpp:640-653 | for every code point from 0x10000 on, the two escapes that spell its halves in digits of either case decode to its UTF-8 bytes, whatever follows |
| `JsonEscapes.UnitDecodes` | src/guard/json/Json.hpp:631-661 | every other code unit that is no surrogate decodes to its own UTF-8 bytes |
| `JsonEscapes.LoneHalfDecodes` | src/guard/json/Json.hpp:640-657 | half a pair, a high one not followed by an escaped low one or a low one, decodes to U+FFFD, and what follows is decoded on its own |
| `JsonEscapes.BrokenEscapeDecodes` | src/guard/json/Json.hpp:633-637 | `\u` without four digits decodes to U+FFFD, and what follows it is decoded on its own |
| `JsonEscapes.LetterDecodes` | src/guard/json/Json.hpp:598-630 | each of the eight escape letters of RFC 8259 section 7, `\/` among them, decodes to its byte |
| `JsonEscapes.OddEscapeDecodes` | src/guard/json/Json.hpp:594-666 | any other letter stands for itself, and a backslash at the end for nothing |
| `JsonEscapes.PlainDecodes` | src/guard/json/Json.hpp:578-670 | bytes without a backslash decode to themselves |
| `JsonEscapes.LiteralDecodes` | src/guard/json/Json.hpp:578-585 | a literal decodes from what stands between its quotes; a text without both quotes is returned as it is |
| `JsonEscapes.PlainIsKept` | src/guard/json/Json.hpp:677-743 | text without quote, backslash, control byte and line separator is written as it is |
| `JsonEscapes.LetterIsWritten` | src/guard/json/Json.hpp:687-714 | every byte that has an escape letter, the slash excepted, is written with it |
| `JsonEscapes.ControlIsWritten` | src/guard/json/Json.hpp:718-724 | every other control byte is written as `\u00` and two digits in lower case |
| `JsonEscapes.SeparatorIsWritten` | src/guard/json/Json.hpp:725-733 | U+2028 and U+2029 are written as `\u2028` and `\u2029` |
| `JsonEscapes.EncodedHasNoSeparator` | src/guard/json/Json.hpp:677-743 | encoded text holds neither of them, even across what was copied byte by byte |
| `Utf8.EncodesRune` | src/guard/json/Json.hpp:521-538 | a scalar value is written as the one well-formed rune that has it |
| `Utf8.RuneIsEncoded` | src/guard/json/Json.hpp:521-538 | every well-formed rune is what its code point is written as |
| `JsonLookup.FindElement` | src/guard/json/Json.hpp:768-861 | the value of an array element, found by skipping the ones before it |
| `JsonLookup.FindKey` | src/guard/json/Json.hpp:768-861 | the value of the first member whose decoded key is the one asked for |
| `JsonLookup.FindValue` | src/guard/json/Json.hpp:768-861 | the span a path leads to |
| `JsonLookup.FindValueIn` | src/guard/json/Json.hpp:894-905 | the same inside a container span, shifted back; none for a span out of bounds |
| `JsonLookup.ArrayElements` | src/guard/json/Json.hpp:942-973 | the element spans of an array span, kept up to the first malformed one |
| `JsonLookup.FindInTree` | src/guard/json/Json.hpp:768-861 | looking a path up in the bytes is looking it up in the tree read from them |
| `JsonLookup.IndexFindsNth` | src/guard/json/Json.hpp:768-861 | an index leads to the member it counts, and to none when there are fewer |
| `JsonLookup.KeyFindsFirst` | src/guard/json/Json.hpp:768-861 | a key leads to the first member whose decoded key is it, and to none exactly when no member has it |
| `JsonLookup.LookupComposes` | src/guard/json/Json.hpp:768-905 | looking up `p + q` is looking up `q` inside the span found for `p` |
| `JsonLookup.ElementsAreIndexes` | src/guard/json/Json.hpp:942-973 | there are exactly as many element spans as resolvable indexes, and looking up inside the i-th is looking up below index i |
| `JsonSplice.Splice` | src/guard/json/Json.hpp:981-991 | the bytes of the span are replaced and all others kept; an error for a span out of bounds |
| `JsonSplice.ApplyBackwards` | src/guard/json/Json.hpp:1018-1024 | editing from the last span to the first gives the document patched from the first to the last |
| `JsonSplice.SpliceAll` | src/guard/json/Json.hpp:1001-1024 | for some order that sorts the edits by start: the first fault, or the patched document |
| `JsonSplice.RefusedIffFaulty` | src/guard/json/Json.hpp:1001-1024 | sorted edits are refused exactly when one is out of the document or over the one before, with the fault of the first such edit |
| `JsonSplice.SpliceAllPatches` | src/guard/json/Json.hpp:1001-1024 | edits that are apart are all applied, however they were listed and sorted |
| `JsonLeaves.ChildrenOf` | src/guard/json/Json.hpp:1046-1185 | the child tasks of one container, a path segment and a position each |
| `JsonLeaves.StringLeaves` | src/guard/json/Json.hpp:1046-1185 | the stack walk visits exactly the string values, never keys, in document order, with their paths and spans |
| `JsonLeaves.PatchTree` | src/guard/json/Json.hpp:1001-1024 | splicing new literals over the string values of a tree writes the bytes of the rewritten tree |
| `JsonLeaves.LocateRewritten` | src/guard/json/Json.hpp:768-861 | rewriting string values leaves every path where it was |
| `JsonLeaves.DisjointPaths` | src/guard/json/Json.hpp:768-861 | different paths to scalars lead to bytes that do not overlap |
| `JsonSubst.SubstFlat` | src/guard/json/Json.hpp:981-991 | the bytes of a tree with one value substituted are the bytes of the tree, spliced |
| `JsonSubst.LocateSubst` | src/guard/json/Json.hpp:981-991 | a path leads to the value substituted at it |
| `JsonSubst.ValueAtOther` | src/guard/json/Json.hpp:981-991 | a path that diverges leads to the value it led to before |
| `JsonSubst.SubstitutionKeepsDocument` | src/guard/json/Json.hpp:981-991 | splicing a complete value over a found span keeps the document valid; the path finds exactly the new value, the other bytes are unchanged, and diverging paths find the same bytes as before |
| `JsonSubst.PatchDocument` | src/guard/json/Json.hpp:1001-1024 | patching string values of a valid document rewrites its tree and nothing else |
| `ChatCompletions.PushIfNonEmptyString` | src/guard/extract/ChatCompletions.hpp:164-174 | a found, non-empty string is appended with its path, span and decoded text; anything else appends nothing |
| `ChatCompletions.CollectMessageContent` | src/guard/extract/ChatCompletions.hpp:185-223 | content as one string, or as the text parts of an array |
| `ChatCompletions.CollectFunctionCall` | src/guard/extract/ChatCompletions.hpp:228-238 | the arguments of a function call |
| `ChatCompletions.CollectToolCalls` | src/guard/extract/ChatCompletions.hpp:249-271 | the arguments of every tool call |
| `ChatCompletions.ExtractRequest` | src/guard/extract/ChatCompletions.hpp:282-306 | the fields of all messages in order; unsupported when `messages` is not an array |
| `ExtractPatch.ExtractedIsTree` | src/guard/extract/ChatCompletions.hpp:282-306 | on a valid body extraction succeeds exactly when `messages` is an array, and the fields are the entries of the tree, each path re-resolving to its span |
| `ExtractExact.ExtractedExactly` | src/guard/extract/ChatCompletions.hpp:185-306 | of a valid body exactly these texts are extracted: the non-empty strings that are the content of a message, a content part of type `text`, or the arguments of a function call or a tool call; in the order of messages, members and elements |
| `ExtractRoundTrip.ExtractedFieldsApart` | src/guard/extract/ChatCompletions.hpp:282-306 | extracted spans are pairwise disjoint, paths are distinct, and each path re-resolves to exactly its span |
| `ExtractRoundTrip.AllRetexted` | src/guard/extract/ChatCompletions.hpp:282-306 | new texts at the fields of a tree change those texts and no other thing that extraction sees |
| `ExtractRoundTrip.ExtractionCommutesWithPatching` | src/guard/extract/ChatCompletions.hpp:282-306 | after any non-empty texts are spliced over the fields, the body is valid and extraction gives the same paths with exactly those texts |
| `BraceTracker.JsonCloseTracker.Feed` | src/guard/sse/Common.hpp:277-303 | the fields after a fragment are those of the byte-by-byte run |
| `BraceTracker.JsonCloseTracker.Reset` | src/guard/sse/Common.hpp:311-317 | the initial state again |
| `BraceTracker.FragmentsDoNotMatter` | src/guard/sse/Common.hpp:277-303 | only the bytes count, not where the fragments are cut |
| `BraceTracker.ClosesWithTheObject` | src/guard/sse/Common.hpp:277-307 | on any text the grammar reads as an object up to e, the tracker is closed after k bytes exactly when k is at least e |
| `DemaskJson.LeavesInOrder` | src/guard/json/Json.hpp:1046-1185 | the spans of string values increase and share no byte |
| `DemaskJson.ImageDecodes` | src/guard/demask/Demasker.hpp:782-790 | the new literal of a string value is a string whose decoded text is the demasked one |
| `DemaskJson.CollectEdits` | src/guard/demask/Demasker.hpp:777-790 | exactly the string values that demasking changes are collected, with their new literals, until a pass throws |
| `DemaskJson.DemaskJsonArguments` | src/guard/demask/Demasker.hpp:764-801 | naive result when valid; otherwise the structural result, or the input unchanged |
| `DemaskJson.StructuralPass` | src/guard/demask/Demasker.hpp:777-797 | on valid input, when no pass throws, the spliced result is always valid and its tree is the input tree with each string value replaced by its image: the final check never fires |
| `Replacer.EntriesAreFirsts` | src/guard/demask/Demasker.hpp:521-537 | blank placeholders are dropped, placeholders are distinct, and each keeps the original of its first replacement |
| `Replacer.MakeConfig` | src/guard/demask/Demasker.hpp:518-587 | the tables agree with the entries, and the hold-back is the longest placeholder or rule bound |
| `Replacer.MaximaAreMaxima` | src/guard/demask/Demasker.hpp:545-587 | the hold-back is a maximum: nothing is longer, and unless it is 0 something is that long |
| `Replacer.BestEntry` | src/guard/demask/Demasker.hpp:681-690 | the probes at one position find the lowest-index entry among all that stand there |
| `Replacer.ApplyExact` | src/guard/demask/Demasker.hpp:663-700 | one pass from left to right, lowest entry first, never scanning an inserted original; what the JSON context inserts is fixed by `JsonContext.JsonContextIsTransparent` |
| `JsonContext.JsonContextIsTransparent` | src/guard/demask/Demasker.hpp:690-696 | for any replacements and any text without quote, backslash and control byte: between quotes, the text restored in JSON context is a string of the grammar, and it decodes to the text restored verbatim |
| `Runes.RuneLengthAt` | src/guard/demask/Demasker.hpp:306-328 | the length of a sequence, or 1 when it is broken or cut |
| `Runes.Utf8SafePrefixEnd` | src/guard/demask/Demasker.hpp:339-355 | the walk back to a rune start and the decision there |
| `Runes.SafeCut` | src/guard/demask/Demasker.hpp:339-355 | cutting well-formed text there leaves two well-formed parts, whatever follows it |
| `Runes.SafeCutIsLatest` | src/guard/demask/Demasker.hpp:339-355 | on well-formed text the cut is the latest one that splits no rune, at most three bytes before the end asked for |
| `Demasker.StreamDemasker.DemaskChunk` | src/guard/demask/Demasker.hpp:615-654 | emitted bytes and the new pending buffer, for a flush and for a chunk; what a JSON-context stream inserts is fixed by `JsonContext.JsonContextIsTransparent` |
| `Demasker.DemaskAll` | src/guard/demask/Demasker.hpp:744-747 | one flushed call is the exact pass over the whole text, in either context |
| `Demasker.Stream` | src/guard/demask/Demasker.hpp:598-668 | a stream of calls on one object is the specified sequence of emissions |
| `Demasker.HoldsBackTail` | src/guard/demask/Demasker.hpp:631-653 | no byte is lost, and a call that emits anything leaves at least the hold-back unemitted |
| `StreamRunes.EmitsAllButTail` | src/guard/demask/Demasker.hpp:631-653 | when the restored text is well-formed, no more than the hold-back and three bytes stay unemitted |
| `Streaming.MadeConfigHolds` | src/guard/demask/Demasker.hpp:518-587 | the tables hold back at least the longest placeholder |
| `Streaming.RestoreFromCut` | src/guard/demask/Demasker.hpp:615-654 | restoring restored text again from where it is cut, together with new input, is restoring the original input with it, when no original overlaps a placeholder |
| `Streaming.CallPromises` | src/guard/demask/Demasker.hpp:615-654 | under that condition one call emits and holds back what promises the restored input, whatever comes next |
| `Streaming.StreamingEqualsOneShot` | src/guard/demask/Demasker.hpp:615-654 | when no original overlaps a placeholder within the hold-back, every chunking followed by a flush emits exactly the one-shot result |
| `Streaming.OverlapBreaksStreaming` | src/guard/demask/Demasker.hpp:615-654 | any overlap with a placeholder that restoring changes: two chunks that emit something else than the whole |
| `Streaming.StreamsAsWholeIffNoOverlap` | src/guard/demask/Demasker.hpp:615-654 | for bracketed, distinct placeholders no longer than the hold-back and for any originals whatever, streaming equals one-shot for every chunking of every response if and only if no original overlaps a placeholder that restoring changes |
| `Streaming.ForeignOriginalsStream` | src/guard/demask/Demasker.hpp:615-654 | originals without angle brackets, each with a byte outside the placeholder alphabet, are always streamed as the whole |
| `StreamRunes.RestoreKeepsRunes` | src/guard/demask/Demasker.hpp:663-700 | with ASCII placeholders and well-formed originals, whole runes are restored to whole runes, and the beginning of a rune after them stays |
| `StreamRunes.SplitsNoRuneIffThreeHeld` | src/guard/demask/Demasker.hpp:339-355 | with ASCII placeholders and well-formed originals, every emitted chunk of every well-formed stream is well-formed UTF-8 if and only if at least three bytes are held back |
| `Placeholders.RenderInjective` | src/guard/Masker.hpp:275-277 | rendering is injective in type and index, for any types |
| `Placeholders.DecimalIsShortest` | src/guard/Masker.hpp:275-277 | indexes are written without leading zeros |
| `Placeholders.LiteralIsFound` | src/guard/Masker.hpp:236-239 | every literal of the reserved shape is the one found where it starts |
| `Masker.FindLiteral` | src/guard/Masker.hpp:253-256 | the leftmost literal from an offset on |
| `Masker.ScanLiterals` | src/guard/Masker.hpp:245-258 | consuming matches one after the other finds every literal of the text |
| `Masker.ReservedPlaceholders` | src/guard/Masker.hpp:246-259 | all literals of all texts |
| `Masker.UnreservedIsAbsent` | src/guard/Masker.hpp:246-259 | a literal that is not reserved stands in none of the texts |
| `Masker.ReservedIff` | src/guard/Masker.hpp:246-259 | what is reserved is exactly the literals that stand somewhere in some text |
| `Masker.NextIndexIsLeast` | src/guard/Masker.hpp:370-377 | the next index is the first above the counter whose rendering is not reserved |
| `Masker.MaskerState.NextPlaceholder` | src/guard/Masker.hpp:370-377 | the loop terminates, returns that rendering, and moves only that counter |
| `Masker.MaskerState.PlaceholderForOriginal` | src/guard/Masker.hpp:352-364 | a known original keeps its placeholder; a new one gets the next |
| `Masker.MaskerState.MaskText` | src/guard/Masker.hpp:300-337 | masked text and whole new state, or the error thrown, with every skip and clamp of the walk; which spans that replaces is stated by `Masking.MaskingMasks` |
| `Masker.MaskTexts` | src/guard/Masker.hpp:513-532 | all texts through one state, up to the first error; what the texts become is stated by `Masking.MaskingMasks` |
| `Masking.AssignNumbers` | src/guard/Masker.hpp:352-377 | a new original gets the least index whose rendering is neither reserved nor used before, and one replacement with its bytes, rule and data type |
| `Masking.WalkFailsAt` | src/guard/Masker.hpp:300-337 | the walk fails at the first span without a rule or beyond the text, with that error |
| `Masking.MaskingMasks` | src/guard/Masker.hpp:300-337 | for any spans in the texts: every span that can be masked and is not overtaken by an earlier one is replaced by the placeholder recorded for its bytes, and all other bytes stay; every replacement was made for such a span, the first of its text with those bytes, under the least free index; rules and data types are reported exactly for the masked spans |
| `Masking.EverySpanIsMasked` | src/guard/Masker.hpp:300-337 | for spans in order and apart, non-empty and with types, each masked text is the pieces between the spans with a recorded placeholder in place of every span |
| `RoundTrip.AssignKeepsInv` | src/guard/Masker.hpp:352-377 | one assignment keeps map and list in agreement and all placeholders distinct and unreserved |
| `RoundTrip.MintingIsFresh` | src/guard/Masker.hpp:370-377 | over a whole call, different originals have different placeholders across all types, none is reserved, and over word types none stands in any text |
| `RoundTrip.TriggeredCoverReplacements` | src/guard/Masker.hpp:318-345 | the rules and triggerable data types of all replacements are reported as triggered, and no other kind of data type is |
| `RoundTrip.WalkRestores` | src/guard/Masker.hpp:300-337 | what the walk writes demasks to the text it covers |
| `RoundTrip.MaskThenDemask` | src/guard/Masker.hpp:513-532 | masking succeeds and demasking every masked text gives the text back, for any spans in the texts and any types over word bytes |
| `RoundTrip.OddTypeBreaksRoundTrip` | src/guard/Masker.hpp:236-239 | any other non-empty type: a text that is not given back |
| `RoundTrip.RoundTripsIffWordTypes` | src/guard/Masker.hpp:513-532 | masking with a set of types can always be undone if and only if all of them are made of word bytes |
| `EndToEnd.MaskedRequestRestores` | src/guard/Masker.hpp:513-532 | a request masked and spliced back stays valid, and what is extracted from it demasks to the original texts |
| `EndToEnd.MaskedStreamsAsWhole` | src/guard/demask/Demasker.hpp:615-654 | with the placeholders minted for word types and a hold-back no shorter than them, for any originals, streaming equals one-shot exactly when no original overlaps a placeholder that restoring changes |
| `Scanner.ScanOneRule` | src/guard/Scanner.hpp:378-459 | all accepted spans of one rule, with the advance past empty matches; an error for a null rule or regex; which matches those are is stated by `Survivors.RuleReportsSurvivors` |
| `Survivors.RuleReportsSurvivors` | src/guard/Scanner.hpp:335-459 | the scan of a compiled rule reports a match exactly when the search, from offset 0 on past each match, comes to one whose first configured group that took part and is not empty (group 0 when none is configured) is that span, at least as long as the minimum, and passes the validators; in order, without overlap |
| `Scanner.ScanSerial` | src/guard/Scanner.hpp:466-471 | all rules in order, up to the first failure |
| `Survivors.SerialFailsFirst` | src/guard/Scanner.hpp:466-471 | a serial scan fails as the first rule that is missing or not compiled, with its id |
| `Scanner.FillBuckets` | src/guard/Scanner.hpp:497-499 | each rule goes to the bucket of its index modulo the number of workers |
| `Scanner.ScanParallel` | src/guard/Scanner.hpp:490-536 | all matches in bucket order, or the first failure by bucket index |
| `Survivors.ParallelFailsFirst` | src/guard/Scanner.hpp:501-526 | a parallel scan reports the failure of the first bucket that fails, whatever later buckets do |
| `Scanner.FilterByKeywords` | src/guard/Scanner.hpp:289-316 | exactly the eligible rules without a keyword in the lowered text are dropped |
| `Survivors.FilterKeepsExactly` | src/guard/Scanner.hpp:289-316 | a rule is kept exactly when it is missing, not eligible, or has a non-empty keyword in the lowered text; order is kept |
| `Scanner.ScanRules` | src/guard/Scanner.hpp:626-654 | filter, dispatch by size, resolve; what that returns is stated by `Survivors.ScanJoinsSurvivors` |
| `Survivors.ScanJoinsSurvivors` | src/guard/Scanner.hpp:626-654 | for compiled rules with distinct ids, the scan returns the matches that survive, over all rules, with overlapping ones joined: the same bytes, nothing joined that only touches, each span named by its longest match |
| `Scanner.BucketingPermutes` | src/guard/Scanner.hpp:497-499 | all buckets together have the matches of all rules |
| `Scanner.ParallelPermutesSerial` | src/guard/Scanner.hpp:490-536 | any number of workers finds the serial matches in some order |
| `Scanner.FilterKeepsMatches` | src/guard/Scanner.hpp:289-316 | dropped rules have no matches when eligible rules guarantee a keyword |
| `Scanner.ScanIsSerialScan` | src/guard/Scanner.hpp:626-654 | with compiled rules and distinct ids the result is the resolved serial scan of all rules |
| `Scanner.OptionsDoNotMatter` | src/guard/Scanner.hpp:626-654 | prefilter and worker count leave the result unchanged |
| `Scanner.ScanSucceedsIffCompiled` | src/guard/Scanner.hpp:626-654 | a scan fails exactly when it runs a missing or uncompiled rule |
| `Conflicts.PrimaryIsMaximum` | src/guard/Scanner.hpp:557-579 | the primary of a run is a match no other is preferred to |
| `Conflicts.Coalesce` | src/guard/Scanner.hpp:571-579 | one match unchanged, or the union with the primary rule |
| `Conflicts.ResolveConflicts` | src/guard/Scanner.hpp:586-614 | the sweep over the sorted matches |
| `Conflicts.SweepMerges` | src/guard/Scanner.hpp:593-613 | from any run on: separate non-empty spans, the same bytes covered, each attributed to its maximum |
| `Conflicts.ResolvedConservesCoverage` | src/guard/Scanner.hpp:586-614 | the result is sorted and without overlap, covers exactly the input bytes, joins nothing that only touches, and each span has the rule of the longest, then leftmost, then lowest-id match inside it |
| `Conflicts.ResolvedDependsOnMultiset` | src/guard/Scanner.hpp:586-614 | with unique ids the result depends only on the multiset of matches |
| `RegexParse.PrintedIsParsed` | src/guard/Prefilter.hpp:310-321 | every pattern of the subset is read back as its tree, exactly when its groups nest at most 1000 deep |
| `PrefilterParsing.PrefilterParser.ParseAlternation` | src/guard/Prefilter.hpp:367-380 | the node of the branches, with cursor, depth and folding flag after it |
| `PrefilterParsing.PrefilterParser.ParseConcat` | src/guard/Prefilter.hpp:387-425 | pieces in order, with literal runs merged |
| `PrefilterParsing.PrefilterParser.ParseQuantifier` | src/guard/Prefilter.hpp:437-455 | the repetition of an atom, or the atom when the brace is malformed |
| `PrefilterParsing.PrefilterParser.ParseBraceQuantifier` | src/guard/Prefilter.hpp:470-493 | minimum counted in a 64-bit word, cursor restored when malformed |
| `PrefilterParsing.PrefilterParser.ParseAtom` | src/guard/Prefilter.hpp:495-520 | one atom, or a failure for a misplaced byte |
| `PrefilterParsing.PrefilterParser.ParseGroup` | src/guard/Prefilter.hpp:543-598 | captures, transparent groups, named groups and flags, up to the depth limit |
| `PrefilterParsing.PrefilterParser.ParseCharClass` | src/guard/Prefilter.hpp:612-640 | a class is consumed whole and proves nothing |
| `PrefilterParsing.PrefilterParser.ParseEscapeHere` | src/guard/Prefilter.hpp:654-757 | literal, unprovable and failing escapes |
| `PrefilterParsing.PrefilterParser.Run` | src/guard/Prefilter.hpp:317-322 | the tree of the whole pattern, or failure |
| `PrefilterParsing.RegexGuaranteesKeyword` | src/guard/Prefilter.hpp:821-837 | the verdict on the lowered keywords; exactly when it is true is stated by `PrefilterComplete.GuaranteedIffSure` |
| `PrefilterComplete.GuaranteedIffSure` | src/guard/Prefilter.hpp:764-837 | for every pattern of the subset the prover answers true if and only if groups nest at most 1000 deep and every branch has a maximal run of literals whose lowered text holds a lowered keyword (ASCII without `s` under a folding flag), or a part, occurring at least once, that is itself sure |
| `PrefilterComplete.WordInEveryBranchIsEnough` | src/guard/Prefilter.hpp:764-837 | a pattern without folding flags is guaranteed when every branch has adjacent unquantified literals that hold a keyword, whatever else stands there |
| `PrefilterComplete.UnknownEscapeProvesNothing` | src/guard/Prefilter.hpp:725-757 | a pattern that begins with an escaped letter or digit the subset does not know proves nothing, whatever literals follow |
| `PrefilterSound.AltBuilt` | src/guard/Prefilter.hpp:367-425 | the node built for a pattern matches at least what the pattern matches, through merging, sticky folding, alternation, repeats and transparent groups |
| `PrefilterSound.FoldedLowers` | src/guard/Prefilter.hpp:272-293 | a fold-safe literal and whatever it matches with case ignored lower to the same bytes |
| `PrefilterSound.GuaranteeHolds` | src/guard/Prefilter.hpp:764-800 | a node that guarantees a keyword matches only strings that contain one once lowered |
| `PrefilterSound.PrefilterIsSound` | src/guard/Prefilter.hpp:764-837 | when the prover answers true, every string in the language of the pattern contains some keyword, both lowered |
| `PrefilterScan.RulesGuaranteeKeywords` | src/guard/Scanner.hpp:289-316 | rules whose eligibility the prover granted guarantee a keyword in the lowered text they match in |
| `PrefilterScan.PrefilterChangesNothing` | src/guard/Scanner.hpp:626-654 | for rules compiled from patterns of the subset, any prefilter setting and any worker count give the same result |
| `LengthBound.SatMulIsExact` | src/guard/PlaceholderRegex.hpp:176-182 | saturating multiplication is the product, or SIZE_MAX when it does not fit |
| `LengthBound.RepeatCountIs` | src/guard/PlaceholderRegex.hpp:357-362 | the saturating decimal is the value, or SIZE_MAX |
| `LengthBound.QuantBounded` | src/guard/PlaceholderRegex.hpp:294-350 | no allowed number of copies exceeds the bound of the repetition, saturation included |
| `LengthBound.ClassBounded` | src/guard/PlaceholderRegex.hpp:484-516 | what a class matches takes at most four bytes, and at most the widest member when it is not negated, provided the class is safe where case is ignored |
| `LengthBound.LengthBoundIsSound` | src/guard/PlaceholderRegex.hpp:205-598 | a value below SIZE_MAX is never too small for a pattern whose atoms, wherever the real scope of a flag ignores case, have bounds that cover their widest fold partners |
| `LengthBound.CaseSensitiveIsSafe` | src/guard/PlaceholderRegex.hpp:205-598 | patterns without a case-folding flag are all among those |
| `LengthReached.LengthBoundIsReached` | src/guard/PlaceholderRegex.hpp:205-598 | where no flag ignores case, and ranges and counts are the right way round and negated classes leave runes of four bytes in, the bound is the length of a longest match; when it is SIZE_MAX, some match is that long |
| `LengthReached.NoBoundWhenUnknown` | src/guard/PlaceholderRegex.hpp:205-598 | SIZE_MAX for nesting deeper than 1000 and for widths that are not known |
| `FoldBound.UnsafeAtomIsWider` | src/guard/PlaceholderRegex.hpp:244-259 | an atom whose bound does not cover its widest fold partner matches a wider rune under a folding the table allows |
| `FoldBound.FoldedAtomBoundIffSafe` | src/guard/PlaceholderRegex.hpp:205-598 | after `(?i)` the bound of an atom is right for every folding if and only if it covers the widest rune the atom may match |
| `FoldBound.FoldedWordIsWider` | src/guard/PlaceholderRegex.hpp:529-537 | `(?i)\w` has bound 1 and matches a rune of three bytes; no other class escape, control escape or assertion is unsafe |
| `FoldBound.AsciiRangeSafe` | src/guard/PlaceholderRegex.hpp:484-516 | an ASCII range in a folded class is safe exactly when none of `k`, `K`, `s`, `S` is in it, or one of them is an end of it |
| `RegexLang.UndecidedLeavesNothingOut` | src/guard/PlaceholderRegex.hpp:474-483 | a negated class whose members are not decided by the model matches every rune |
| `LengthParsing.BoundedLengthParser.ParseAlternation` | src/guard/PlaceholderRegex.hpp:264-273 | the widest branch |
| `LengthParsing.BoundedLengthParser.ParseConcat` | src/guard/PlaceholderRegex.hpp:277-282 | the saturating sum of the pieces |
| `LengthParsing.BoundedLengthParser.ParseQuantifier` | src/guard/PlaceholderRegex.hpp:294-318 | the bound of a repetition |
| `LengthParsing.BoundedLengthParser.ParseBraceQuantifier` | src/guard/PlaceholderRegex.hpp:325-352 | counted repetition, cursor restored when malformed |
| `LengthParsing.BoundedLengthParser.ParseAtom` | src/guard/PlaceholderRegex.hpp:364-388 | one atom, or the signal that no bound is known |
| `LengthParsing.BoundedLengthParser.ParseGroup` | src/guard/PlaceholderRegex.hpp:413-466 | groups and flags, up to the depth limit |
| `LengthParsing.BoundedLengthParser.ParseCharClass` | src/guard/PlaceholderRegex.hpp:484-516 | the widest member |
| `LengthParsing.BoundedLengthParser.ParseEscapeHere` | src/guard/PlaceholderRegex.hpp:521-585 | the width of an escape; none for property, hexadecimal and octal ones |
| `LengthParsing.RegexMaxLength` | src/guard/PlaceholderRegex.hpp:591-659 | the bound, or SIZE_MAX |
| `PlaceholderTemplate.SplitOnUnderscore` | src/guard/PlaceholderRegex.hpp:605-623 | the non-empty fields between underscores, or the whole name |
| `TemplateSpelling.TokensSplit` | src/guard/PlaceholderRegex.hpp:605-623 | unless a name is all underscores, it is its tokens, non-empty and without underscores, between runs of underscores, none of them empty inside |
| `PlaceholderTemplate.BuildPatternString` | src/guard/PlaceholderRegex.hpp:628-645 | the recogniser pattern of a name |
| `PlaceholderTemplate.BuildPlaceholderPattern` | src/guard/PlaceholderRegex.hpp:686-695 | pattern and bound, or the error |
| `PlaceholderTemplate.PatternIsPrinted` | src/guard/PlaceholderRegex.hpp:628-645 | for ASCII names without NUL the pattern is the printed tree of the template |
| `TemplateSpelling.SpellingIsRecognised` | src/guard/PlaceholderRegex.hpp:628-645 | every spelling with up to three separator bytes after each token, up to three white-space bytes inside the brackets and one to nine digits is recognised |
| `TemplateSpelling.RenderedIsRecognised` | src/guard/PlaceholderRegex.hpp:628-645 | the placeholder rendered for a name is recognised by the recogniser of that name, when no gap of the name and no number is too long for the template |
| `PlaceholderTemplate.TemplateBoundIsSound` | src/guard/PlaceholderRegex.hpp:686-695 | no string a recogniser matches is longer than its recorded bound |
| `PlaceholderTemplate.TemplateIsBounded` | src/guard/PlaceholderRegex.hpp:686-695 | the error is unreachable: the bound is at most 6 bytes per name byte plus 20 |
| `Pool.ConnectionPool.Ready` | src/database/Database.hpp:258-261 | the wait predicate |
| `Pool.ConnectionPool.Take` | src/database/Database.hpp:269-278 | a queued connection, or a reserved slot |
| `Pool.ConnectionPool.GiveUp` | src/database/Database.hpp:283-288 | a failed connect gives its slot back |
| `Pool.ConnectionPool.Release` | src/database/Database.hpp:302-313 | healthy connections are queued, broken ones dropped, and the slot is given back |
| `Pool.CanProceedIffFree` | src/database/Database.hpp:258-261 | a call can proceed exactly when active is below the pool size |
| `Pool.AdmitKeepsInv` | src/database/Database.hpp:269-278 | admission takes one free slot and keeps the invariant |
| `Pool.GiveBackWakes` | src/database/Database.hpp:283-313 | a slot given back comes with a wake-up if anyone sleeps |
| `Pool.StepKeepsInv` | src/database/Database.hpp:255-313 | every step of every call keeps counts, exclusive connections and no lost wake-up |
| `Pool.RunKeepsInv` | src/database/Database.hpp:255-313 | every run of steps keeps the invariant |
| `Pool.ConnectionsAreConserved` | src/database/Database.hpp:255-313 | a step loses no connection but a broken one that is released, and adds none but a new one |
| `Pool.QueueInOrder` | src/database/Database.hpp:255-313 | healthy connections are queued at the end; while a slot is free a call past its wait takes the front one, or connects when none is queued; otherwise nothing is taken |
| `Pool.PoolProtocol` | src/database/Database.hpp:255-313 | in every reachable state: queued plus active within the size, exact admission, one holder per connection, and no sleeper beside more free slots than notified calls |
| `Pool.FreeSlotIsAttended` | src/database/Database.hpp:255-313 | when a call sleeps beside a free slot, some notified call is about to run and its next step is admitted |

## Left out

- RE2 and its cache, utf8proc, real threads and `std::async`: parameters, or lists of buckets merged in order.
- The tolerant placeholder pass of `src/guard/demask/Demasker.hpp` (rule recognisers, index parsing, overlap resolution, `DemaskError`): it rewrites user-written drifted forms, for which the round trip does not hold; the model is the configuration with a null snapshot.
- Group resolution, compile-time checks and reload in `src/guard/Registry.hpp`, `src/guard/RulesYaml.hpp`, `src/guard/Validators.hpp`: only the compiled rule's fields used here are modelled.
- `src/guard/extract/Messages.hpp` and `src/guard/extract/Responses.hpp`, and the response extractor of `src/guard/extract/ChatCompletions.hpp`: more cases of the same lemmas.
- `string_leaves_in`, frame splitting and the masked-text recorder of `src/guard/sse/Common.hpp`: easy members.
- Phase A of `mask_texts` (scanning several texts at once) and its error wrapping; the sorted lists of triggered rules and data types, which are sets here.
- `ConnectionPool::shutdown` and the constructor's failures; session guards and retries.
- `RegexSyntax`: classes with an unescaped `[`, POSIX class names, `\Q..\E`, octal escapes of fewer than three digits, single-byte property names other than letters and digits, and class ranges that end in a class escape or a property are outside the subset the theorems speak of; the parsers are modelled on every input.
- Masker.MaskTexts: what the state holds after an error is not promised to anyone, because the source discards it with the exception.
- LengthBound.LengthBoundIsSound: for a whole pattern the condition is sufficient, and exact only for one atom at a time, because an atom with too small a bound does no harm beside a longer branch or under `{0}`.
- Running time, allocation and the overflow of placeholder counters and of the brace depth.
