/**
 The request extractor of extract/ChatCompletions.hpp: which string values of a chat
 completions body are masked, with their paths, spans and decoded texts.
 */
module ChatCompletions {
  import opened Bytes
  import opened JsonLookup
  import JsonStrings

  /** One text to mask, addressed in the original body. */
  datatype Field = Field(path: Path, span: Span, text: bytes)

  /** The error result of a body without a `messages` array. */
  datatype ExtractResult = Fields(fields: seq<Field>) | Unsupported

  const MESSAGES := Key(Ascii("messages"))
  const CONTENT := Key(Ascii("content"))
  const TYPE := Key(Ascii("type"))
  const TEXT := Key(Ascii("text"))
  const FUNCTION_CALL := Key(Ascii("function_call"))
  const TOOL_CALLS := Key(Ascii("tool_calls"))
  const FUNCTION := Key(Ascii("function"))
  const ARGUMENTS := Key(Ascii("arguments"))
  const TEXT_TYPE := Ascii("text")

  function SpanText(body: bytes, s: Span): bytes {
    if s.start <= s.end <= |body| then JsonStrings.Decode(body[s.start..s.end]) else []
  }

  predicate IsArraySpan(body: bytes, s: Span) {
    !s.isString && s.start < s.end && s.start < |body| && body[s.start] == LBRACKET
  }

  // ---- What each collector appends ----

  function NonEmptyString(body: bytes, path: Path, s: Option<Span>): seq<Field> {
    match s
    case None => []
    case Some(v) => if v.isString && SpanText(body, v) != [] then [Field(path, v, SpanText(body, v))] else []
  }

  /** A content part whose type is the string "text". */
  predicate IsTextPart(body: bytes, part: Span) {
    match FindIn(body, part, [TYPE])
    case None => false
    case Some(s) => s.isString && SpanText(body, s) == TEXT_TYPE
  }

  function PartFields(body: bytes, content: Path, parts: seq<Span>, j: nat): seq<Field>
    decreases |parts| - j
  {
    if j >= |parts| then []
    else
      (if IsTextPart(body, parts[j]) then NonEmptyString(body, content + [Index(j)] + [TEXT], FindIn(body, parts[j], [TEXT])) else [])
      + PartFields(body, content, parts, j + 1)
  }

  function ContentFields(body: bytes, msg: Path, s: Span): seq<Field> {
    match FindIn(body, s, [CONTENT])
    case None => []
    case Some(c) =>
      if c.isString then NonEmptyString(body, msg + [CONTENT], Some(c))
      else if !IsArraySpan(body, c) then []
      else PartFields(body, msg + [CONTENT], Elements(body, c), 0)
  }

  function FunctionCallFields(body: bytes, msg: Path, s: Span): seq<Field> {
    NonEmptyString(body, msg + [FUNCTION_CALL] + [ARGUMENTS], FindIn(body, s, [FUNCTION_CALL, ARGUMENTS]))
  }

  function CallFields(body: bytes, calls: Path, elements: seq<Span>, j: nat): seq<Field>
    decreases |elements| - j
  {
    if j >= |elements| then []
    else
      NonEmptyString(body, calls + [Index(j)] + [FUNCTION] + [ARGUMENTS], FindIn(body, elements[j], [FUNCTION, ARGUMENTS]))
      + CallFields(body, calls, elements, j + 1)
  }

  function ToolCallFields(body: bytes, msg: Path, s: Span): seq<Field> {
    match FindIn(body, s, [TOOL_CALLS])
    case None => []
    case Some(c) => if IsArraySpan(body, c) then CallFields(body, msg + [TOOL_CALLS], Elements(body, c), 0) else []
  }

  function MessageFields(body: bytes, msg: Path, s: Span): seq<Field> {
    ContentFields(body, msg, s) + FunctionCallFields(body, msg, s) + ToolCallFields(body, msg, s)
  }

  function AllMessages(body: bytes, elements: seq<Span>, i: nat): seq<Field>
    decreases |elements| - i
  {
    if i >= |elements| then []
    else MessageFields(body, [MESSAGES] + [Index(i)], elements[i]) + AllMessages(body, elements, i + 1)
  }

  /** What extract_request returns. */
  function Extracted(body: bytes): ExtractResult {
    match Find(body, [MESSAGES])
    case None => Unsupported
    case Some(s) => if IsArraySpan(body, s) then Fields(AllMessages(body, Elements(body, s), 0)) else Unsupported
  }

  // ---- The collectors ----

  method PushIfNonEmptyString(body: bytes, out: seq<Field>, path: Path, s: Option<Span>) returns (r: seq<Field>)
    requires s.Some? ==> s.value.start <= s.value.end <= |body|
    ensures r == out + NonEmptyString(body, path, s)
  {
    if s.None? || !s.value.isString {
      return out;
    }
    var text := JsonStrings.DecodeString(body[s.value.start..s.value.end]);
    if text == [] {
      return out;
    }
    return out + [Field(path, s.value, text)];
  }

  lemma FoundInside(body: bytes, s: Span, q: Path)
    ensures FindIn(body, s, q).Some? ==> var f := FindIn(body, s, q).value; f.start < f.end <= |body|
  {
  }

  method CollectMessageContent(body: bytes, out: seq<Field>, msg: Path, s: Span) returns (r: seq<Field>)
    ensures r == out + ContentFields(body, msg, s)
  {
    hide FindIn, Elements, SpanText, NonEmptyString;
    r := out;
    FoundInside(body, s, [CONTENT]);
    var c := FindValueIn(body, s, [CONTENT]);
    if c.None? {
      return;
    }
    var content := msg + [CONTENT];
    if c.value.isString {
      r := PushIfNonEmptyString(body, r, content, c);
      return;
    }
    if !IsArraySpan(body, c.value) {
      return;
    }
    var parts := ArrayElements(body, c.value);
    for j := 0 to |parts|
      invariant r + PartFields(body, content, parts, j) == out + PartFields(body, content, parts, 0)
    {
      ghost var before := r;
      FoundInside(body, parts[j], [TYPE]);
      FoundInside(body, parts[j], [TEXT]);
      var isText := CheckTextPart(body, parts[j]);
      if isText {
        var t := FindValueIn(body, parts[j], [TEXT]);
        r := PushIfNonEmptyString(body, r, content + [Index(j)] + [TEXT], t);
      }
      assert r + PartFields(body, content, parts, j + 1) == before + PartFields(body, content, parts, j);
    }
  }

  method CheckTextPart(body: bytes, part: Span) returns (r: bool)
    ensures r == IsTextPart(body, part)
  {
    hide FindIn;
    FoundInside(body, part, [TYPE]);
    var t := FindValueIn(body, part, [TYPE]);
    if t.None? || !t.value.isString {
      return false;
    }
    var value := JsonStrings.DecodeString(body[t.value.start..t.value.end]);
    return value == TEXT_TYPE;
  }

  method CollectFunctionCall(body: bytes, out: seq<Field>, msg: Path, s: Span) returns (r: seq<Field>)
    ensures r == out + FunctionCallFields(body, msg, s)
  {
    hide FindIn;
    FoundInside(body, s, [FUNCTION_CALL, ARGUMENTS]);
    var args := FindValueIn(body, s, [FUNCTION_CALL, ARGUMENTS]);
    r := PushIfNonEmptyString(body, out, msg + [FUNCTION_CALL] + [ARGUMENTS], args);
  }

  method CollectToolCalls(body: bytes, out: seq<Field>, msg: Path, s: Span) returns (r: seq<Field>)
    ensures r == out + ToolCallFields(body, msg, s)
  {
    hide FindIn, Elements, NonEmptyString;
    r := out;
    var c := FindValueIn(body, s, [TOOL_CALLS]);
    if c.None? || !IsArraySpan(body, c.value) {
      return;
    }
    var calls := msg + [TOOL_CALLS];
    var elements := ArrayElements(body, c.value);
    for j := 0 to |elements|
      invariant r + CallFields(body, calls, elements, j) == out + CallFields(body, calls, elements, 0)
    {
      ghost var before := r;
      FoundInside(body, elements[j], [FUNCTION, ARGUMENTS]);
      var args := FindValueIn(body, elements[j], [FUNCTION, ARGUMENTS]);
      r := PushIfNonEmptyString(body, r, calls + [Index(j)] + [FUNCTION] + [ARGUMENTS], args);
      assert r + CallFields(body, calls, elements, j + 1) == before + CallFields(body, calls, elements, j);
    }
  }

  method ExtractRequest(body: bytes) returns (r: ExtractResult)
    ensures r == Extracted(body)
  {
    hide FindAt, Elements, ContentFields, FunctionCallFields, ToolCallFields;
    var s := FindValue(body, [MESSAGES]);
    if s.None? || !IsArraySpan(body, s.value) {
      return Unsupported;
    }
    var fields: seq<Field> := [];
    var elements := ArrayElements(body, s.value);
    for i := 0 to |elements|
      invariant fields + AllMessages(body, elements, i) == AllMessages(body, elements, 0)
    {
      ghost var before := fields;
      var msg := [MESSAGES] + [Index(i)];
      fields := CollectMessageContent(body, fields, msg, elements[i]);
      fields := CollectFunctionCall(body, fields, msg, elements[i]);
      fields := CollectToolCalls(body, fields, msg, elements[i]);
      assert fields == before + MessageFields(body, msg, elements[i]);
      Join3(before, MessageFields(body, msg, elements[i]), AllMessages(body, elements, i + 1));
    }
    return Fields(fields);
  }
}
