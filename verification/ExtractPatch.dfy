/**
 Extraction commutes with patching. The fields found in a chat completions body are
 strings at different paths, each path re-resolves to the field's span, and after new
 texts are spliced over all the spans the same paths are found again, with exactly the
 new texts.
 */
module ExtractPatch {
  import opened Bytes
  import opened JsonGrammar
  import opened JsonScan
  import opened JsonLookup
  import opened JsonSubst
  import opened ChatCompletions
  import JsonStrings

  // ---- The fields of a tree ----

  datatype Entry = Entry(path: Path, text: bytes)

  predicate IsArr(t: Json) {
    t.Container? && t.kind.ArrayKind?
  }

  function StrAt(t: Json, p: Path): Option<bytes> {
    match ValueAt(t, p)
    case None => None
    case Some(v) => if IsStr(v) then Some(JsonStrings.Decode(v.text)) else None
  }

  /** How many elements the array at `p` has; none when there is no array. */
  function ArrayCount(t: Json, p: Path): nat {
    match ValueAt(t, p)
    case None => 0
    case Some(v) => if IsArr(v) then Count(v.members) else 0
  }

  predicate IsArrayAt(t: Json, p: Path) {
    ValueAt(t, p).Some? && IsArr(ValueAt(t, p).value)
  }

  function EntryAt(t: Json, p: Path): seq<Entry> {
    match StrAt(t, p)
    case None => []
    case Some(s) => if s != [] then [Entry(p, s)] else []
  }

  function PartEntries(t: Json, content: Path, j: nat, n: nat): seq<Entry>
    decreases n - j
  {
    if j >= n then []
    else
      (if StrAt(t, content + [Index(j)] + [TYPE]) == Some(TEXT_TYPE) then EntryAt(t, content + [Index(j)] + [TEXT]) else [])
      + PartEntries(t, content, j + 1, n)
  }

  function ContentEntries(t: Json, msg: Path): seq<Entry> {
    if StrAt(t, msg + [CONTENT]).Some? then EntryAt(t, msg + [CONTENT])
    else PartEntries(t, msg + [CONTENT], 0, ArrayCount(t, msg + [CONTENT]))
  }

  function CallEntries(t: Json, calls: Path, j: nat, n: nat): seq<Entry>
    decreases n - j
  {
    if j >= n then []
    else EntryAt(t, calls + [Index(j)] + [FUNCTION] + [ARGUMENTS]) + CallEntries(t, calls, j + 1, n)
  }

  function MessageEntries(t: Json, msg: Path): seq<Entry> {
    ContentEntries(t, msg)
    + EntryAt(t, msg + [FUNCTION_CALL] + [ARGUMENTS])
    + CallEntries(t, msg + [TOOL_CALLS], 0, ArrayCount(t, msg + [TOOL_CALLS]))
  }

  function AllEntries(t: Json, i: nat, n: nat): seq<Entry>
    decreases n - i
  {
    if i >= n then [] else MessageEntries(t, [MESSAGES] + [Index(i)]) + AllEntries(t, i + 1, n)
  }

  function TreeEntries(t: Json): seq<Entry> {
    AllEntries(t, 0, ArrayCount(t, [MESSAGES]))
  }

  // ---- Fields of a document are the entries of its tree ----

  /** The fields are these entries, and every path re-resolves to its span. */
  predicate Matches(body: bytes, fields: seq<Field>, entries: seq<Entry>) {
    && |fields| == |entries|
    && forall k | 0 <= k < |fields| :: FieldIs(body, fields[k], entries[k])
  }

  predicate FieldIs(body: bytes, f: Field, e: Entry) {
    f.path == e.path && f.text == e.text && Find(body, f.path) == Some(f.span)
  }

  lemma MatchesConcat(body: bytes, f1: seq<Field>, e1: seq<Entry>, f2: seq<Field>, e2: seq<Entry>)
    requires Matches(body, f1, e1) && Matches(body, f2, e2)
    ensures Matches(body, f1 + f2, e1 + e2)
  {
    hide FieldIs;
  }

  /** `s` stands for the value at `p`: looking up inside it is looking up below `p`. */
  ghost predicate Stands(body: bytes, p: Path, s: Span) {
    forall q :: FindIn(body, s, q) == Find(body, p + q)
  }

  lemma StandsElement(body: bytes, p: Path, i: nat)
    requires Find(body, p).Some? && IsArraySpan(body, Find(body, p).value)
    requires i < |Elements(body, Find(body, p).value)|
    ensures Stands(body, p + [Index(i)], Elements(body, Find(body, p).value)[i])
  {
    hide FindAt, FindIn, Elements;
    var s := Find(body, p).value;
    forall q ensures FindIn(body, Elements(body, s)[i], q) == Find(body, p + [Index(i)] + q) {
      ElementsAreIndexes(body, p, i, q);
      LookupComposes(body, p, [Index(i)] + q);
      Join3(p, [Index(i)], q);
    }
  }

  /** What is found at a path of a valid document is what the tree has there. */
  lemma FoundIs(body: bytes, p: Path)
    requires IsValid(body)
    ensures var v := ValueAt(TreeOf(body), p);
      var s := Find(body, p);
      && s.Some? == v.Some?
      && (s.Some? ==>
            && s.value.start < s.value.end <= |body|
            && s.value.isString == IsStr(v.value)
            && body[s.value.start..s.value.end] == Flat(v.value)
            && Wf(v.value)
            && IsArraySpan(body, s.value) == IsArr(v.value)
            && (IsStr(v.value) ==> SpanText(body, s.value) == JsonStrings.Decode(v.value.text)))
  {
    hide ParseValue, FindAt, Flat, Wf, Locate, JsonStrings.Decode, SkipWs;
    FoundBytes(body, p);
    ValidParts(body);
    FindInValid(body, p);
    var pl := Locate(TreeOf(body), p);
    if pl.Some? {
      FindInTree(body, Start(body), p);
      var at := Start(body) + pl.value.offset;
      ReadLength(body, at, pl.value.value, at + |Flat(pl.value.value)|);
      FlatNonEmpty(pl.value.value);
      StrFlat(pl.value.value);
    }
  }

  lemma StrFlat(t: Json)
    ensures IsStr(t) ==> Flat(t) == t.text
  {
  }

  lemma {:induction false} LocateAppend(t: Json, p: Path, q: Path)
    requires Locate(t, p).Some?
    ensures ValueAt(t, p + q) == ValueAt(Locate(t, p).value.value, q)
    decreases |p|
  {
    hide FindInMembers;
    if p == [] {
      assert p + q == q;
    } else {
      assert (p + q)[1..] == p[1..] + q && (p + q)[0] == p[0];
      LocateAppend(FindInMembers(t.members, p[0]).value.value, p[1..], q);
      LocateUnfolds(t, p + q);
      LocateUnfolds(t, p);
    }
  }

  lemma IndexBelowCount(t: Json, p: Path, i: nat)
    requires IsArrayAt(t, p)
    ensures ValueAt(t, p + [Index(i)]).Some? <==> i < ArrayCount(t, p)
  {
    hide FindInMembers, Locate;
    LocateAppend(t, p, [Index(i)]);
    var v := ValueAt(t, p).value;
    LocateUnfolds(v, [Index(i)]);
    CountPlaces(v.members, i);
    if FindInMembers(v.members, Index(i)).Some? {
      LocateUnfolds(FindInMembers(v.members, Index(i)).value.value, []);
      assert [Index(i)][1..] == [];
    }
  }

  /** There are as many element spans as elements. */
  lemma ElementCount(body: bytes, p: Path)
    requires IsValid(body) && Find(body, p).Some? && IsArraySpan(body, Find(body, p).value)
    ensures |Elements(body, Find(body, p).value)| == ArrayCount(TreeOf(body), p)
    ensures IsArrayAt(TreeOf(body), p)
  {
    hide FindAt, FindIn, Elements, ValueAt, IsValid, TreeOf;
    var s := Find(body, p).value;
    var t := TreeOf(body);
    FoundIs(body, p);
    var n, m := |Elements(body, s)|, ArrayCount(t, p);
    CountAgrees(body, p, n);
    CountAgrees(body, p, m);
  }

  lemma CountAgrees(body: bytes, p: Path, i: nat)
    requires IsValid(body) && Find(body, p).Some? && IsArraySpan(body, Find(body, p).value)
    ensures i < |Elements(body, Find(body, p).value)| <==> i < ArrayCount(TreeOf(body), p)
  {
    hide FindAt, FindIn, Elements, ValueAt, IsValid, TreeOf;
    FoundIs(body, p);
    ElementsAreIndexes(body, p, i, []);
    LookupComposes(body, p, [Index(i)]);
    FoundIs(body, p + [Index(i)]);
    IndexBelowCount(TreeOf(body), p, i);
  }

  lemma StringMatches(body: bytes, p: Path)
    requires IsValid(body)
    ensures Matches(body, NonEmptyString(body, p, Find(body, p)), EntryAt(TreeOf(body), p))
  {
    hide FindAt, ValueAt, IsValid, TreeOf, SpanText, JsonStrings.Decode;
    FoundIs(body, p);
  }

  lemma TextPartIs(body: bytes, p: Path, part: Span)
    requires IsValid(body) && Stands(body, p, part)
    ensures IsTextPart(body, part) <==> StrAt(TreeOf(body), p + [TYPE]) == Some(TEXT_TYPE)
  {
    hide FindAt, FindIn, ValueAt, IsValid, TreeOf, SpanText, JsonStrings.Decode;
    assert FindIn(body, part, [TYPE]) == Find(body, p + [TYPE]);
    FoundIs(body, p + [TYPE]);
  }

  lemma {:induction false} PartsMatch(body: bytes, content: Path, j: nat)
    requires IsValid(body) && Find(body, content).Some? && IsArraySpan(body, Find(body, content).value)
    ensures var parts := Elements(body, Find(body, content).value);
      Matches(body, PartFields(body, content, parts, j), PartEntries(TreeOf(body), content, j, ArrayCount(TreeOf(body), content)))
    decreases |Elements(body, Find(body, content).value)| - j
  {
    hide FindAt, FindIn, Elements, ValueAt, IsValid, TreeOf, Matches, NonEmptyString, EntryAt, StrAt, IsTextPart, ArrayCount;
    ElementCount(body, content);
    var parts := Elements(body, Find(body, content).value);
    if j < |parts| {
      StandsElement(body, content, j);
      var p := content + [Index(j)];
      TextPartIs(body, p, parts[j]);
      assert FindIn(body, parts[j], [TEXT]) == Find(body, p + [TEXT]);
      StringMatches(body, p + [TEXT]);
      NothingMatches(body);
      PartsMatch(body, content, j + 1);
      var f := if IsTextPart(body, parts[j]) then NonEmptyString(body, p + [TEXT], FindIn(body, parts[j], [TEXT])) else [];
      var e := if IsTextPart(body, parts[j]) then EntryAt(TreeOf(body), p + [TEXT]) else [];
      MatchesConcat(body, f, e, PartFields(body, content, parts, j + 1),
        PartEntries(TreeOf(body), content, j + 1, ArrayCount(TreeOf(body), content)));
    } else {
      NothingMatches(body);
    }
  }

  lemma NothingMatches(body: bytes)
    ensures Matches(body, [], [])
  {
  }

  lemma ContentMatches(body: bytes, msg: Path, s: Span)
    requires IsValid(body) && Stands(body, msg, s)
    ensures Matches(body, ContentFields(body, msg, s), ContentEntries(TreeOf(body), msg))
  {
    hide FindAt, FindIn, Elements, ValueAt, IsValid, TreeOf, Matches, NonEmptyString, EntryAt, PartFields, PartEntries, SpanText, JsonStrings.Decode;
    var c := msg + [CONTENT];
    assert FindIn(body, s, [CONTENT]) == Find(body, c);
    FoundIs(body, c);
    StringMatches(body, c);
    NothingMatches(body);
    NoParts(TreeOf(body), c);
    if Find(body, c).Some? && IsArraySpan(body, Find(body, c).value) {
      PartsMatch(body, c, 0);
    }
  }

  lemma NoParts(t: Json, content: Path)
    ensures PartEntries(t, content, 0, 0) == [] && CallEntries(t, content, 0, 0) == []
  {
  }

  lemma FunctionCallMatches(body: bytes, msg: Path, s: Span)
    requires IsValid(body) && Stands(body, msg, s)
    ensures Matches(body, FunctionCallFields(body, msg, s), EntryAt(TreeOf(body), msg + [FUNCTION_CALL] + [ARGUMENTS]))
  {
    hide FindAt, FindIn, IsValid, TreeOf, Matches, NonEmptyString, EntryAt;
    var q := [FUNCTION_CALL, ARGUMENTS];
    assert msg + q == msg + [FUNCTION_CALL] + [ARGUMENTS];
    assert FindIn(body, s, q) == Find(body, msg + q);
    StringMatches(body, msg + q);
  }

  lemma {:induction false} CallsMatch(body: bytes, calls: Path, j: nat)
    requires IsValid(body) && Find(body, calls).Some? && IsArraySpan(body, Find(body, calls).value)
    ensures var elements := Elements(body, Find(body, calls).value);
      Matches(body, CallFields(body, calls, elements, j), CallEntries(TreeOf(body), calls, j, ArrayCount(TreeOf(body), calls)))
    decreases |Elements(body, Find(body, calls).value)| - j
  {
    hide FindAt, FindIn, Elements, ValueAt, IsValid, TreeOf, Matches, NonEmptyString, EntryAt, ArrayCount;
    ElementCount(body, calls);
    var elements := Elements(body, Find(body, calls).value);
    if j < |elements| {
      StandsElement(body, calls, j);
      var p := calls + [Index(j)] + [FUNCTION] + [ARGUMENTS];
      assert p == calls + [Index(j)] + [FUNCTION, ARGUMENTS];
      assert FindIn(body, elements[j], [FUNCTION, ARGUMENTS]) == Find(body, p);
      StringMatches(body, p);
      CallsMatch(body, calls, j + 1);
      MatchesConcat(body, NonEmptyString(body, p, Find(body, p)), EntryAt(TreeOf(body), p), CallFields(body, calls, elements, j + 1),
        CallEntries(TreeOf(body), calls, j + 1, ArrayCount(TreeOf(body), calls)));
    } else {
      NothingMatches(body);
    }
  }

  lemma ToolCallsMatch(body: bytes, msg: Path, s: Span)
    requires IsValid(body) && Stands(body, msg, s)
    ensures Matches(body, ToolCallFields(body, msg, s),
      CallEntries(TreeOf(body), msg + [TOOL_CALLS], 0, ArrayCount(TreeOf(body), msg + [TOOL_CALLS])))
  {
    hide FindAt, FindIn, Elements, ValueAt, IsValid, TreeOf, Matches, CallFields, CallEntries, SpanText, JsonStrings.Decode;
    var c := msg + [TOOL_CALLS];
    assert FindIn(body, s, [TOOL_CALLS]) == Find(body, c);
    FoundIs(body, c);
    NothingMatches(body);
    NoParts(TreeOf(body), c);
    if Find(body, c).Some? && IsArraySpan(body, Find(body, c).value) {
      CallsMatch(body, c, 0);
    }
  }

  lemma MessageMatches(body: bytes, msg: Path, s: Span)
    requires IsValid(body) && Stands(body, msg, s)
    ensures Matches(body, MessageFields(body, msg, s), MessageEntries(TreeOf(body), msg))
  {
    hide IsValid, TreeOf, Matches, ContentFields, FunctionCallFields, ToolCallFields, ContentEntries, EntryAt, CallEntries, ArrayCount;
    var t := TreeOf(body);
    ContentMatches(body, msg, s);
    FunctionCallMatches(body, msg, s);
    ToolCallsMatch(body, msg, s);
    MatchesConcat(body, ContentFields(body, msg, s), ContentEntries(t, msg), FunctionCallFields(body, msg, s), EntryAt(t, msg + [FUNCTION_CALL] + [ARGUMENTS]));
    MatchesConcat(body, ContentFields(body, msg, s) + FunctionCallFields(body, msg, s),
      ContentEntries(t, msg) + EntryAt(t, msg + [FUNCTION_CALL] + [ARGUMENTS]),
      ToolCallFields(body, msg, s), CallEntries(t, msg + [TOOL_CALLS], 0, ArrayCount(t, msg + [TOOL_CALLS])));
  }

  lemma {:induction false} AllMatch(body: bytes, i: nat)
    requires IsValid(body) && Find(body, [MESSAGES]).Some? && IsArraySpan(body, Find(body, [MESSAGES]).value)
    ensures var elements := Elements(body, Find(body, [MESSAGES]).value);
      Matches(body, AllMessages(body, elements, i), AllEntries(TreeOf(body), i, ArrayCount(TreeOf(body), [MESSAGES])))
    decreases |Elements(body, Find(body, [MESSAGES]).value)| - i
  {
    hide FindAt, FindIn, Elements, IsValid, TreeOf, Matches, MessageFields, MessageEntries, ArrayCount;
    ElementCount(body, [MESSAGES]);
    var elements := Elements(body, Find(body, [MESSAGES]).value);
    if i < |elements| {
      StandsElement(body, [MESSAGES], i);
      var msg := [MESSAGES] + [Index(i)];
      MessageMatches(body, msg, elements[i]);
      AllMatch(body, i + 1);
      MatchesConcat(body, MessageFields(body, msg, elements[i]), MessageEntries(TreeOf(body), msg), AllMessages(body, elements, i + 1),
        AllEntries(TreeOf(body), i + 1, ArrayCount(TreeOf(body), [MESSAGES])));
    } else {
      NothingMatches(body);
    }
  }

  /** On a valid body: extraction succeeds exactly when `messages` is an array, and its fields are the entries of the tree. */
  lemma ExtractedIsTree(body: bytes)
    requires IsValid(body)
    ensures Extracted(body).Fields? <==> IsArrayAt(TreeOf(body), [MESSAGES])
    ensures Extracted(body).Fields? ==> Matches(body, Extracted(body).fields, TreeEntries(TreeOf(body)))
  {
    hide FindAt, Elements, IsValid, TreeOf, Matches, AllMessages, AllEntries, ValueAt;
    FoundIs(body, [MESSAGES]);
    var s := Find(body, [MESSAGES]);
    if s.Some? && IsArraySpan(body, s.value) {
      AllMatch(body, 0);
    }
  }
}
