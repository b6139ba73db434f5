/**
 The scanners of Json.hpp. Each function is the meaning of one scanner on every input,
 malformed ones included; each method is the scanner itself, with the loops and the
 explicit container stack of the source, and is proved to compute that function.
 */
module JsonScan {
  import opened Bytes
  import opened JsonGrammar

  // ---- White space, strings, numbers, literals ----

  function SkipWs(doc: bytes, pos: nat): (r: nat)
    ensures pos <= r && (pos <= |doc| ==> r <= |doc|)
    ensures r < |doc| ==> !IsWs(doc[r])
    decreases |doc| - pos
  {
    if pos < |doc| && IsWs(doc[pos]) then SkipWs(doc, pos + 1) else pos
  }

  /** From just inside a string literal to just past its closing quote. */
  function CharsEnd(doc: bytes, pos: nat): (r: Option<nat>)
    ensures r.Some? ==> pos < r.value <= |doc|
    decreases |doc| - pos
  {
    if pos >= |doc| then None
    else if doc[pos] == QUOTE then Some(pos + 1)
    else if doc[pos] == BACKSLASH then
      if pos + 1 >= |doc| then None
      else if IsSimpleEscape(doc[pos + 1]) then CharsEnd(doc, pos + 2)
      else if pos + 6 <= |doc| && IsUnicodeEscape(doc[pos..pos + 6]) then CharsEnd(doc, pos + 6)
      else None
    else if doc[pos] < 0x20 then None
    else CharsEnd(doc, pos + 1)
  }

  function StringEnd(doc: bytes, pos: nat): (r: Option<nat>)
    ensures r.Some? ==> pos + 1 < r.value <= |doc| && doc[pos] == QUOTE
  {
    if pos >= |doc| || doc[pos] != QUOTE then None else CharsEnd(doc, pos + 1)
  }

  function DigitsEnd(doc: bytes, pos: nat): (r: nat)
    ensures pos <= r && (pos <= |doc| ==> r <= |doc|)
    ensures r < |doc| ==> !IsDigit(doc[r])
    decreases |doc| - pos
  {
    if pos < |doc| && IsDigit(doc[pos]) then DigitsEnd(doc, pos + 1) else pos
  }

  /** The digits that must follow `.` or an exponent mark. */
  function SomeDigits(doc: bytes, pos: nat): (r: Option<nat>)
    ensures r.Some? ==> pos < r.value <= |doc|
  {
    if pos < |doc| && IsDigit(doc[pos]) then Some(DigitsEnd(doc, pos)) else None
  }

  function IntEnd(doc: bytes, pos: nat): (r: Option<nat>)
    ensures r.Some? ==> pos < r.value <= |doc|
  {
    if pos < |doc| && doc[pos] == ZERO then Some(pos + 1) else SomeDigits(doc, pos)
  }

  function FractionEnd(doc: bytes, pos: nat): (r: Option<nat>)
    requires pos <= |doc|
    ensures r.Some? ==> pos <= r.value <= |doc|
  {
    if pos < |doc| && doc[pos] == DOT then SomeDigits(doc, pos + 1) else Some(pos)
  }

  function SignEnd(doc: bytes, pos: nat): (r: nat)
    requires pos <= |doc|
    ensures pos <= r <= |doc|
  {
    if pos < |doc| && (doc[pos] == PLUS || doc[pos] == MINUS) then pos + 1 else pos
  }

  function ExponentEnd(doc: bytes, pos: nat): (r: Option<nat>)
    requires pos <= |doc|
    ensures r.Some? ==> pos <= r.value <= |doc|
  {
    if pos < |doc| && (doc[pos] == LOWER_E || doc[pos] == UPPER_E)
    then SomeDigits(doc, SignEnd(doc, pos + 1))
    else Some(pos)
  }

  function MinusEnd(doc: bytes, pos: nat): nat {
    if pos < |doc| && doc[pos] == MINUS then pos + 1 else pos
  }

  function NumberEnd(doc: bytes, pos: nat): (r: Option<nat>)
    ensures r.Some? ==> pos < r.value <= |doc|
  {
    match IntEnd(doc, MinusEnd(doc, pos))
    case None => None
    case Some(i) =>
      match FractionEnd(doc, i)
      case None => None
      case Some(f) => ExponentEnd(doc, f)
  }

  function LiteralEnd(doc: bytes, pos: nat, lit: bytes): (r: Option<nat>)
    ensures r.Some? ==> pos + |lit| == r.value <= |doc|
  {
    if At(doc, pos, lit) then Some(pos + |lit|) else None
  }

  function ScalarEnd(doc: bytes, pos: nat): (r: Option<nat>)
    ensures r.Some? ==> pos < r.value <= |doc|
  {
    if pos >= |doc| then None
    else if doc[pos] == QUOTE then StringEnd(doc, pos)
    else if doc[pos] == MINUS || IsDigit(doc[pos]) then NumberEnd(doc, pos)
    else if doc[pos] == TRUE[0] then LiteralEnd(doc, pos, TRUE)
    else if doc[pos] == FALSE[0] then LiteralEnd(doc, pos, FALSE)
    else if doc[pos] == NULL[0] then LiteralEnd(doc, pos, NULL)
    else None
  }

  // ---- Values: the recursive-descent reading ----

  /** A tree read from a document, and the offset just past it. */
  datatype Parsed<T> = Parsed(tree: T, end: nat)

  function ParseValue(doc: bytes, pos: nat): (r: Option<Parsed<Json>>)
    ensures r.Some? ==> pos < r.value.end <= |doc|
    decreases |doc| - pos, 0
  {
    if pos >= |doc| then None
    else if doc[pos] == LBRACE || doc[pos] == LBRACKET then
      var kind := if doc[pos] == LBRACE then ObjectKind else ArrayKind;
      match ParseMembers(doc, pos + 1, kind, true)
      case None => None
      case Some(p) => Some(Parsed(Container(kind, p.tree), p.end))
    else
      match ScalarEnd(doc, pos)
      case None => None
      case Some(e) => Some(Parsed(Scalar(doc[pos..e]), e))
  }

  /** The offset just past the key and just past the colon (both `pos` in an array). */
  datatype Label = Label(keyEnd: nat, valueStart: nat)

  function ReadLabel(doc: bytes, pos: nat, kind: Kind): (r: Option<Label>)
    ensures r.Some? ==> pos <= r.value.keyEnd <= r.value.valueStart && (pos <= |doc| ==> r.value.valueStart <= |doc|)
    ensures r.Some? && kind.ObjectKind? ==> pos < r.value.keyEnd < r.value.valueStart <= |doc|
  {
    if kind.ArrayKind? then Some(Label(pos, pos))
    else
      match StringEnd(doc, pos)
      case None => None
      case Some(k) =>
        var c := SkipWs(doc, k);
        if c < |doc| && doc[c] == COLON then Some(Label(k, SkipWs(doc, c + 1))) else None
  }

  /** Members up to and including the closing bracket; `first` allows an empty container. */
  function ParseMembers(doc: bytes, pos: nat, kind: Kind, first: bool): (r: Option<Parsed<Members>>)
    ensures r.Some? ==> pos < r.value.end <= |doc|
    decreases |doc| - pos, 1
  {
    var p := SkipWs(doc, pos);
    if p >= |doc| then None
    else if first && doc[p] == Close(kind) then Some(Parsed(Blank(doc[pos..p]), p + 1))
    else
      match ReadLabel(doc, p, kind)
      case None => None
      case Some(l) =>
        match ParseValue(doc, l.valueStart)
        case None => None
        case Some(v) =>
          var m := Member(doc[pos..p], doc[p..l.keyEnd], doc[l.keyEnd..l.valueStart], v.tree, doc[v.end..SkipWs(doc, v.end)]);
          ParseTail(doc, SkipWs(doc, v.end), kind, m)
  }

  /** After a member that ends at `pos`: a comma and more members, or the closing bracket. */
  function ParseTail(doc: bytes, pos: nat, kind: Kind, m: Member): (r: Option<Parsed<Members>>)
    ensures r.Some? ==> pos < r.value.end <= |doc|
    decreases |doc| - pos, 2
  {
    if pos >= |doc| then None
    else if doc[pos] == COMMA then
      match ParseMembers(doc, pos + 1, kind, false)
      case None => None
      case Some(rest) => Some(Parsed(More(m, rest.tree), rest.end))
    else if doc[pos] == Close(kind) then Some(Parsed(Last(m), pos + 1))
    else None
  }

  function EndOf<T>(p: Option<Parsed<T>>): Option<nat> {
    match p
    case None => None
    case Some(v) => Some(v.end)
  }

  /** What skip_value returns. */
  function ValueEnd(doc: bytes, pos: nat): Option<nat> {
    EndOf(ParseValue(doc, SkipWs(doc, pos)))
  }

  function IsValid(doc: bytes): bool {
    var start := SkipWs(doc, 0);
    match ValueEnd(doc, start)
    case None => false
    case Some(e) => SkipWs(doc, e) == |doc|
  }

  // ---- The scanners as loops ----

  method SkipWhitespace(doc: bytes, start: nat) returns (pos: nat)
    ensures pos == SkipWs(doc, start)
  {
    pos := start;
    while pos < |doc| && IsWs(doc[pos])
      invariant SkipWs(doc, pos) == SkipWs(doc, start)
    {
      pos := pos + 1;
    }
  }

  method SkipString(doc: bytes, start: nat) returns (r: Option<nat>)
    ensures r == StringEnd(doc, start)
  {
    if start >= |doc| || doc[start] != QUOTE {
      return None;
    }
    var pos := start + 1;
    while true
      invariant pos <= |doc|
      invariant CharsEnd(doc, pos) == StringEnd(doc, start)
      decreases |doc| - pos
    {
      if pos >= |doc| {
        return None;
      }
      var c := doc[pos];
      if c == QUOTE {
        return Some(pos + 1);
      }
      if c == BACKSLASH {
        if pos + 1 >= |doc| {
          return None;
        }
        if IsSimpleEscape(doc[pos + 1]) {
          pos := pos + 2;
        } else if doc[pos + 1] == 0x75 {
          if pos + 6 > |doc| {
            return None;
          }
          ghost var escape := doc[pos..pos + 6];
          for i := 0 to 4
            invariant forall j | 2 <= j < 2 + i :: IsHex(escape[j])
          {
            if !IsHex(doc[pos + 2 + i]) {
              assert !IsHex(escape[2 + i]);
              return None;
            }
          }
          pos := pos + 6;
        } else {
          return None;
        }
        continue;
      }
      if c < 0x20 {
        return None;
      }
      pos := pos + 1;
    }
  }

  method SkipDigits(doc: bytes, start: nat) returns (pos: nat)
    ensures pos == DigitsEnd(doc, start)
  {
    pos := start;
    while pos < |doc| && IsDigit(doc[pos])
      invariant DigitsEnd(doc, pos) == DigitsEnd(doc, start)
    {
      pos := pos + 1;
    }
  }

  method SkipIntPart(doc: bytes, start: nat) returns (r: Option<nat>)
    ensures r == IntEnd(doc, start)
  {
    if start >= |doc| || !IsDigit(doc[start]) {
      return None;
    }
    if doc[start] == ZERO {
      return Some(start + 1);
    }
    var pos := SkipDigits(doc, start);
    return Some(pos);
  }

  method SkipFraction(doc: bytes, start: nat) returns (r: Option<nat>)
    requires start <= |doc|
    ensures r == FractionEnd(doc, start)
  {
    if start >= |doc| || doc[start] != DOT {
      return Some(start);
    }
    var pos := start + 1;
    if pos >= |doc| || !IsDigit(doc[pos]) {
      return None;
    }
    pos := SkipDigits(doc, pos);
    return Some(pos);
  }

  method SkipExponent(doc: bytes, start: nat) returns (r: Option<nat>)
    requires start <= |doc|
    ensures r == ExponentEnd(doc, start)
  {
    if start >= |doc| || (doc[start] != LOWER_E && doc[start] != UPPER_E) {
      return Some(start);
    }
    var pos := start + 1;
    if pos < |doc| && (doc[pos] == PLUS || doc[pos] == MINUS) {
      pos := pos + 1;
    }
    if pos >= |doc| || !IsDigit(doc[pos]) {
      return None;
    }
    pos := SkipDigits(doc, pos);
    return Some(pos);
  }

  /** The three stretches of skip_number's body, each returning early on a missing digit. */
  method SkipNumber(doc: bytes, start: nat) returns (r: Option<nat>)
    ensures r == NumberEnd(doc, start)
  {
    var pos := start;
    if pos < |doc| && doc[pos] == MINUS {
      pos := pos + 1;
    }
    r := SkipIntPart(doc, pos);
    if r.None? {
      return;
    }
    r := SkipFraction(doc, r.value);
    if r.None? {
      return;
    }
    r := SkipExponent(doc, r.value);
  }

  // ---- The finite-state machine of skip_value ----

  /** What a container frame is waiting for next. */
  datatype WalkState =
    | ArrayStart | ArrayAfterValue | ArrayAfterComma
    | ObjectStart | ObjectAfterKey | ObjectAfterColon | ObjectAfterValue | ObjectAfterComma

  function KindOf(s: WalkState): Kind {
    if s.ArrayStart? || s.ArrayAfterValue? || s.ArrayAfterComma? then ArrayKind else ObjectKind
  }

  function AfterValue(kind: Kind): WalkState {
    if kind.ArrayKind? then ArrayAfterValue else ObjectAfterValue
  }

  /** Where an open container ends, by the recursive-descent reading, when resumed in state `s`. */
  function Resume(doc: bytes, pos: nat, s: WalkState): (r: Option<nat>)
    ensures r.Some? ==> pos < r.value <= |doc|
  {
    ResumeAt(doc, SkipWs(doc, pos), s)
  }

  /** The same, with the white space already skipped. */
  function ResumeAt(doc: bytes, p: nat, s: WalkState): (r: Option<nat>)
    ensures r.Some? ==> p < r.value <= |doc|
  {
    if p >= |doc| then None
    else match s
      case ArrayStart => AtMember(doc, p, ArrayKind, true)
      case ObjectStart => AtMember(doc, p, ObjectKind, true)
      case ArrayAfterComma => AtMember(doc, p, ArrayKind, false)
      case ObjectAfterComma => AtMember(doc, p, ObjectKind, false)
      case ObjectAfterKey => if doc[p] == COLON then AtValue(doc, SkipWs(doc, p + 1), ObjectKind) else None
      case ObjectAfterColon => AtValue(doc, p, ObjectKind)
      case ArrayAfterValue => AtSeparator(doc, p, ArrayKind)
      case ObjectAfterValue => AtSeparator(doc, p, ObjectKind)
  }

  function AtMember(doc: bytes, p: nat, kind: Kind, first: bool): (r: Option<nat>)
    ensures r.Some? ==> p < r.value <= |doc|
  {
    if p >= |doc| then None
    else if first && doc[p] == Close(kind) then Some(p + 1)
    else
      match ReadLabel(doc, p, kind)
      case None => None
      case Some(l) => AtValue(doc, l.valueStart, kind)
  }

  function AtValue(doc: bytes, p: nat, kind: Kind): (r: Option<nat>)
    ensures r.Some? ==> p < r.value <= |doc|
  {
    match ParseValue(doc, p)
    case None => None
    case Some(v) => AtSeparator(doc, SkipWs(doc, v.end), kind)
  }

  function AtSeparator(doc: bytes, p: nat, kind: Kind): (r: Option<nat>)
    ensures r.Some? ==> p < r.value <= |doc|
  {
    if p >= |doc| then None
    else if doc[p] == COMMA then EndOf(ParseMembers(doc, p + 1, kind, false))
    else if doc[p] == Close(kind) then Some(p + 1)
    else None
  }

  /** The stack below a container that has just been closed: its parent has one more value. */
  function Completed(frames: seq<WalkState>): (r: seq<WalkState>)
    ensures |r| == |frames|
  {
    if frames == [] then []
    else frames[..|frames| - 1] + [AfterValue(KindOf(frames[|frames| - 1]))]
  }

  /** Where the outermost value ends when the walk continues at `pos` with these open containers. */
  function ResumeAll(doc: bytes, pos: nat, frames: seq<WalkState>): Option<nat>
    decreases |frames|
  {
    if frames == [] then Some(pos)
    else
      match Resume(doc, pos, frames[|frames| - 1])
      case None => None
      case Some(e) => ResumeAll(doc, e, Completed(frames[..|frames| - 1]))
  }

  /** ResumeAll with the innermost frame named apart. */
  lemma ResumePush(doc: bytes, pos: nat, outer: seq<WalkState>, s: WalkState)
    ensures ResumeAll(doc, pos, outer + [s])
         == match Resume(doc, pos, s) case None => None case Some(e) => ResumeAll(doc, e, Completed(outer))
  {
    assert (outer + [s])[..|outer|] == outer;
  }

  lemma SkipWsTwice(doc: bytes, pos: nat)
    ensures SkipWs(doc, SkipWs(doc, pos)) == SkipWs(doc, pos)
  {
  }

  lemma MembersEnd(doc: bytes, pos: nat, kind: Kind, first: bool)
    ensures EndOf(ParseMembers(doc, pos, kind, first)) == AtMember(doc, SkipWs(doc, pos), kind, first)
  {
    hide ParseValue, SkipWs, ReadLabel;
    var p := SkipWs(doc, pos);
    if p < |doc| && !(first && doc[p] == Close(kind)) {
      match ReadLabel(doc, p, kind)
      case None =>
      case Some(l) =>
        match ParseValue(doc, l.valueStart)
        case None =>
        case Some(v) =>
          var m := Member(doc[pos..p], doc[p..l.keyEnd], doc[l.keyEnd..l.valueStart], v.tree, doc[v.end..SkipWs(doc, v.end)]);
          assert EndOf(ParseTail(doc, SkipWs(doc, v.end), kind, m)) == AtSeparator(doc, SkipWs(doc, v.end), kind);
    }
  }

  lemma ResumeAllSkip(doc: bytes, pos: nat, frames: seq<WalkState>)
    requires frames != []
    ensures ResumeAll(doc, SkipWs(doc, pos), frames) == ResumeAll(doc, pos, frames)
  {
    SkipWsTwice(doc, pos);
  }

  /** States in which an array element or an object member's value stands next. */
  predicate WantsValue(s: WalkState) {
    s.ArrayStart? || s.ArrayAfterComma? || s.ObjectAfterColon?
  }

  lemma ResumeValue(doc: bytes, p: nat, s: WalkState)
    requires WantsValue(s)
    requires p == SkipWs(doc, p) < |doc|
    requires s.ArrayStart? ==> doc[p] != RBRACKET
    ensures Resume(doc, p, s)
         == match EndOf(ParseValue(doc, p)) case None => None case Some(e) => Resume(doc, e, AfterValue(KindOf(s)))
  {
    hide ParseValue, ParseMembers, ParseTail, CharsEnd, SkipWs;
  }

  lemma ResumeKey(doc: bytes, p: nat, s: WalkState)
    requires s.ObjectStart? || s.ObjectAfterComma?
    requires p == SkipWs(doc, p) < |doc|
    requires s.ObjectStart? ==> doc[p] != RBRACE
    ensures Resume(doc, p, s)
         == match StringEnd(doc, p) case None => None case Some(k) => Resume(doc, k, ObjectAfterKey)
  {
    hide ParseValue, ParseMembers, ParseTail, CharsEnd, SkipWs;
  }

  /** A comma after a value: the same container, waiting for its next member. */
  lemma ResumeComma(doc: bytes, p: nat, kind: Kind)
    requires p == SkipWs(doc, p) < |doc| && doc[p] == COMMA
    ensures Resume(doc, p, AfterValue(kind)) == Resume(doc, p + 1, if kind.ArrayKind? then ArrayAfterComma else ObjectAfterComma)
  {
    hide ParseValue, ParseMembers, ParseTail, SkipWs, ReadLabel, AtValue;
    MembersEnd(doc, p + 1, kind, false);
  }

  /** open_or_scalar: a scalar gives its end, an opening bracket the frame to push. */
  datatype Opened = Passed(end: nat) | Pushed(frame: WalkState) | Malformed

  method OpenOrScalar(doc: bytes, p: nat) returns (r: Opened)
    ensures match r
      case Passed(e) => p < e <= |doc| && EndOf(ParseValue(doc, p)) == Some(e)
      case Pushed(s) => p < |doc| && (s == ArrayStart || s == ObjectStart) && EndOf(ParseValue(doc, p)) == Resume(doc, p + 1, s)
      case Malformed => ParseValue(doc, p) == None
  {
    MembersEnd(doc, p + 1, ArrayKind, true);
    MembersEnd(doc, p + 1, ObjectKind, true);
    if p >= |doc| {
      return Malformed;
    }
    var c := doc[p];
    var e: Option<nat> := None;
    if c == QUOTE {
      e := SkipString(doc, p);
    } else if c == MINUS || IsDigit(c) {
      e := SkipNumber(doc, p);
    } else if c == TRUE[0] {
      e := if At(doc, p, TRUE) then Some(p + 4) else None;
    } else if c == FALSE[0] {
      e := if At(doc, p, FALSE) then Some(p + 5) else None;
    } else if c == NULL[0] {
      e := if At(doc, p, NULL) then Some(p + 4) else None;
    } else if c == LBRACE {
      return Pushed(ObjectStart);
    } else if c == LBRACKET {
      return Pushed(ArrayStart);
    }
    assert e == ScalarEnd(doc, p);
    return if e.None? then Malformed else Passed(e.value);
  }

  /** The innermost frame moves from state `s` at `p` to state `t` at `q`. */
  lemma Advance(doc: bytes, p: nat, q: nat, frames: seq<WalkState>, t: WalkState)
    requires frames != []
    requires Resume(doc, p, frames[|frames| - 1]) == Resume(doc, q, t)
    ensures ResumeAll(doc, p, frames) == ResumeAll(doc, q, frames[|frames| - 1 := t])
  {
    assert frames[|frames| - 1 := t][..|frames| - 1] == frames[..|frames| - 1];
  }

  /** A scalar or an opening bracket read where a value is wanted. */
  lemma AdvanceValue(doc: bytes, p: nat, frames: seq<WalkState>, o: Opened)
    requires frames != [] && WantsValue(frames[|frames| - 1])
    requires p == SkipWs(doc, p) < |doc|
    requires frames[|frames| - 1].ArrayStart? ==> doc[p] != RBRACKET
    requires match o
      case Passed(e) => EndOf(ParseValue(doc, p)) == Some(e)
      case Pushed(s) => (s == ArrayStart || s == ObjectStart) && EndOf(ParseValue(doc, p)) == Resume(doc, p + 1, s)
      case Malformed => ParseValue(doc, p) == None
    ensures match o
      case Passed(e) => ResumeAll(doc, p, frames) == ResumeAll(doc, e, frames[|frames| - 1 := AfterValue(KindOf(frames[|frames| - 1]))])
      case Pushed(s) => ResumeAll(doc, p, frames) == ResumeAll(doc, p + 1, frames + [s])
      case Malformed => ResumeAll(doc, p, frames) == None
  {
    var top := frames[|frames| - 1];
    ResumeValue(doc, p, top);
    match o
    case Passed(e) =>
      Advance(doc, p, e, frames, AfterValue(KindOf(top)));
    case Pushed(s) =>
      ResumePush(doc, p + 1, frames, s);
      var e := Resume(doc, p + 1, s);
      if e.Some? {
        Advance(doc, p, e.value, frames, AfterValue(KindOf(top)));
        assert Completed(frames) == frames[|frames| - 1 := AfterValue(KindOf(top))];
      }
    case Malformed =>
  }

  method SkipValue(doc: bytes, start: nat) returns (r: Option<nat>)
    ensures r == ValueEnd(doc, start)
  {
    hide ParseValue, ParseMembers, ParseTail, StringEnd, SkipWs, AtMember, AtValue;
    var pos := SkipWhitespace(doc, start);
    if pos >= |doc| {
      return None;
    }
    var frames: seq<WalkState> := [];
    var o := OpenOrScalar(doc, pos);
    match o
    case Malformed => return None;
    case Passed(e) => return Some(e);
    case Pushed(s) => frames, pos := [s], pos + 1;

    while frames != []
      invariant pos <= |doc|
      invariant ResumeAll(doc, pos, frames) == ValueEnd(doc, start)
      decreases |doc| - pos
    {
      ResumeAllSkip(doc, pos, frames);
      SkipWsTwice(doc, pos);
      var idx := |frames| - 1;
      var state := frames[idx];
      pos := SkipWhitespace(doc, pos);
      if pos >= |doc| {
        ResumeAtEnd(doc, pos, state);
        return None;
      }
      if doc[pos] == Close(KindOf(state)) && (state.ArrayStart? || state.ObjectStart? || state == AfterValue(KindOf(state))) {
        ResumeClose(doc, pos, state);
        frames := Completed(frames[..idx]);
        pos := pos + 1;
      } else if WantsValue(state) {
        o := OpenOrScalar(doc, pos);
        AdvanceValue(doc, pos, frames, o);
        match o
        case Malformed => return None;
        case Passed(e) => frames, pos := frames[idx := AfterValue(KindOf(state))], e;
        case Pushed(s) => frames, pos := frames + [s], pos + 1;
      } else if state.ObjectStart? || state.ObjectAfterComma? {
        ResumeKey(doc, pos, state);
        var k := SkipString(doc, pos);
        if k.None? {
          return None;
        }
        Advance(doc, pos, k.value, frames, ObjectAfterKey);
        frames, pos := frames[idx := ObjectAfterKey], k.value;
      } else if state.ObjectAfterKey? {
        if doc[pos] != COLON {
          return None;
        }
        Advance(doc, pos, pos + 1, frames, ObjectAfterColon);
        frames, pos := frames[idx := ObjectAfterColon], pos + 1;
      } else {
        if doc[pos] != COMMA {
          return None;
        }
        ResumeComma(doc, pos, KindOf(state));
        var next := if state.ArrayAfterValue? then ArrayAfterComma else ObjectAfterComma;
        Advance(doc, pos, pos + 1, frames, next);
        frames, pos := frames[idx := next], pos + 1;
      }
    }
    return Some(pos);
  }

  lemma ResumeAtEnd(doc: bytes, pos: nat, s: WalkState)
    requires SkipWs(doc, pos) >= |doc|
    ensures Resume(doc, pos, s) == None
  {
  }

  lemma ResumeClose(doc: bytes, p: nat, s: WalkState)
    requires p == SkipWs(doc, p) < |doc| && doc[p] == Close(KindOf(s))
    requires s.ArrayStart? || s.ObjectStart? || s == AfterValue(KindOf(s))
    ensures Resume(doc, p, s) == Some(p + 1)
  {
  }

  method Valid(doc: bytes) returns (r: bool)
    ensures r == IsValid(doc)
  {
    var start := SkipWhitespace(doc, 0);
    if start >= |doc| {
      return false;
    }
    var end := SkipValue(doc, start);
    if end.None? {
      return false;
    }
    var last := SkipWhitespace(doc, end.value);
    return last == |doc|;
  }
}
