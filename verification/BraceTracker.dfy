/**
 JsonCloseTracker of sse/Common.hpp: a brace counter fed with fragments. On any text that
 the grammar reads as an object it closes exactly at the object's last byte, however the
 text is cut into fragments.
 */
module BraceTracker {
  import opened Bytes
  import opened JsonGrammar
  import opened JsonScan
  import opened JsonParsing

  datatype Tracker = Tracker(depth: int, inString: bool, escaped: bool, hasOpened: bool, closed: bool)

  const INITIAL := Tracker(0, false, false, false, false)

  function Step(s: Tracker, c: byte): Tracker {
    if s.escaped then s.(escaped := false)
    else if c == BACKSLASH then s.(escaped := true)
    else if c == QUOTE then s.(inString := !s.inString)
    else if s.inString then s
    else if c == LBRACE then s.(depth := s.depth + 1, hasOpened := true)
    else if c == RBRACE then s.(depth := s.depth - 1, closed := s.closed || (s.hasOpened && s.depth == 1))
    else s
  }

  function Run(s: Tracker, text: bytes): Tracker
    decreases |text|
  {
    if text == [] then s else Run(Step(s, text[0]), text[1..])
  }

  /** The object the stream handlers hold: its fields are updated byte by byte. */
  class JsonCloseTracker {
    var depth: int
    var inString: bool
    var escaped: bool
    var hasOpened: bool
    var closed: bool

    ghost function State(): Tracker
      reads this
    {
      Tracker(depth, inString, escaped, hasOpened, closed)
    }

    constructor ()
      ensures State() == INITIAL
    {
      depth, inString, escaped, hasOpened, closed := 0, false, false, false, false;
    }

    method Feed(fragment: bytes)
      modifies this
      ensures State() == Run(old(State()), fragment)
    {
      for i := 0 to |fragment|
        invariant Run(State(), fragment[i..]) == Run(old(State()), fragment)
      {
        var c := fragment[i];
        assert fragment[i..][1..] == fragment[i + 1..];
        if escaped {
          escaped := false;
        } else if c == BACKSLASH {
          escaped := true;
        } else if c == QUOTE {
          inString := !inString;
        } else if inString {
        } else if c == LBRACE {
          depth := depth + 1;
          hasOpened := true;
        } else if c == RBRACE {
          depth := depth - 1;
          if hasOpened && depth == 0 {
            closed := true;
          }
        }
      }
    }

    method Closed() returns (r: bool)
      ensures r == State().closed
    {
      return closed;
    }

    method Reset()
      modifies this
      ensures State() == INITIAL
    {
      depth, inString, escaped, hasOpened, closed := 0, false, false, false, false;
    }
  }

  // ---- Fragments ----

  lemma {:induction false} RunConcat(s: Tracker, a: bytes, b: bytes)
    ensures Run(s, a + b) == Run(Run(s, a), b)
    decreases |a|
  {
    if a == [] {
      assert a + b == b;
    } else {
      assert (a + b)[1..] == a[1..] + b;
      RunConcat(Step(s, a[0]), a[1..], b);
    }
  }

  function Joined(fragments: seq<bytes>): bytes {
    if fragments == [] then [] else fragments[0] + Joined(fragments[1..])
  }

  /** Feeding fragments one after the other. */
  function RunAll(s: Tracker, fragments: seq<bytes>): Tracker
    decreases |fragments|
  {
    if fragments == [] then s else RunAll(Run(s, fragments[0]), fragments[1..])
  }

  /** Only the bytes matter, not where the fragments are cut. */
  lemma {:induction false} FragmentsDoNotMatter(s: Tracker, fragments: seq<bytes>)
    ensures RunAll(s, fragments) == Run(s, Joined(fragments))
    decreases |fragments|
  {
    if fragments != [] {
      FragmentsDoNotMatter(Run(s, fragments[0]), fragments[1..]);
      RunConcat(s, fragments[0], Joined(fragments[1..]));
    }
  }

  lemma {:induction false} ClosedStays(s: Tracker, text: bytes)
    requires s.closed
    ensures Run(s, text).closed
    decreases |text|
  {
    if text != [] {
      ClosedStays(Step(s, text[0]), text[1..]);
    }
  }

  // ---- Runs over the parts of a value ----

  predicate Idle(s: Tracker) {
    !s.inString && !s.escaped
  }

  /** Bytes that mean nothing to the tracker outside a string. */
  predicate Quiet(text: bytes) {
    forall b <- text :: b != BACKSLASH && b != QUOTE && b != LBRACE && b != RBRACE
  }

  lemma {:induction false} RunQuiet(s: Tracker, text: bytes)
    requires Idle(s) && Quiet(text)
    ensures Run(s, text) == s
    decreases |text|
  {
    if text != [] {
      assert text[0] in text;
      assert forall b <- text[1..] :: b in text;
      RunQuiet(s, text[1..]);
    }
  }

  lemma {:induction false} RunChars(s: Tracker, text: bytes)
    requires s.inString && !s.escaped && Chars(text)
    ensures Run(s, text) == s
    decreases |text|
  {
    if text != [] {
      if text[0] != BACKSLASH {
        RunChars(s, text[1..]);
      } else {
        RunTwo(s, text);
        if IsSimpleEscape(text[1]) {
          RunChars(s, text[2..]);
        } else {
          var escape := text[..6];
          assert text[2..] == escape[2..] + text[6..];
          RunConcat(s, escape[2..], text[6..]);
          RunHex(s, escape[2..]);
          RunChars(s, text[6..]);
        }
      }
    }
  }

  lemma RunTwo(s: Tracker, text: bytes)
    requires |text| >= 2 && text[0] == BACKSLASH && !s.escaped
    ensures Run(s, text) == Run(s, text[2..])
  {
    assert text[1..][1..] == text[2..];
  }

  lemma {:induction false} RunHex(s: Tracker, text: bytes)
    requires s.inString && !s.escaped && forall b <- text :: IsHex(b)
    ensures Run(s, text) == s
    decreases |text|
  {
    if text != [] {
      assert text[0] in text;
      assert forall b <- text[1..] :: b in text;
      RunHex(s, text[1..]);
    }
  }

  lemma RunString(s: Tracker, text: bytes)
    requires Idle(s) && IsString(text)
    ensures Run(s, text) == s
  {
    var body := text[1..|text| - 1];
    var inside := s.(inString := true);
    StringParts(text);
    RunConcat(s, [QUOTE] + body, [QUOTE]);
    RunConcat(s, [QUOTE], body);
    RunOne(s, QUOTE);
    RunChars(inside, body);
    RunOne(inside, QUOTE);
  }

  lemma StringParts(text: bytes)
    requires IsString(text)
    ensures text == [QUOTE] + text[1..|text| - 1] + [QUOTE]
  {
    hide Chars;
  }

  lemma RunOne(s: Tracker, c: byte)
    ensures Run(s, [c]) == Step(s, c)
  {
    assert [c][1..] == [];
  }

  lemma DigitsQuiet(s: bytes)
    requires Digits(s)
    ensures Quiet(s)
  {
  }

  lemma NumberQuiet(parts: NumberParts)
    requires parts.Valid()
    ensures Quiet(parts.Text())
  {
    IntQuiet(parts.int_);
    FractionQuiet(parts.frac);
    ExponentQuiet(parts.exp);
  }

  lemma IntQuiet(s: bytes)
    requires IsIntPart(s)
    ensures Quiet(s)
  {
  }

  lemma FractionQuiet(s: bytes)
    requires IsFraction(s)
    ensures Quiet(s)
  {
    if s != [] {
      DigitsQuiet(s[1..]);
      assert s == [s[0]] + s[1..];
    }
  }

  lemma ExponentQuiet(s: bytes)
    requires IsExponent(s)
    ensures Quiet(s)
  {
    if s != [] {
      if Digits(s[1..]) {
        DigitsQuiet(s[1..]);
        assert s == [s[0]] + s[1..];
      } else {
        DigitsQuiet(s[2..]);
        assert s == [s[0], s[1]] + s[2..];
      }
    }
  }

  lemma RunScalar(s: Tracker, text: bytes)
    requires Idle(s) && IsScalar(text)
    ensures Run(s, text) == s
  {
    if IsString(text) {
      RunString(s, text);
    } else {
      if IsNumber(text) {
        var parts: NumberParts :| parts.Valid() && parts.Text() == text;
        NumberQuiet(parts);
      }
      RunQuiet(s, text);
    }
  }

  /** Inside an open object, a whole value changes nothing. */
  lemma {:induction false} RunValue(s: Tracker, t: Json)
    requires Wf(t) && Idle(s) && s.depth >= 1 && s.hasOpened
    ensures Run(s, Flat(t)) == s
    decreases t, 0
  {
    hide Run, IsScalar;
    match t
    case Scalar(text) => RunScalar(s, text);
    case Container(kind, ms) =>
      var inner := Step(s, Open(kind));
      RunOne(s, Open(kind));
      RunConcat(s, [Open(kind)], FlatMembers(kind, ms));
      RunMembers(inner, kind, ms);
      RunConcat(inner, Body(kind, ms), [Close(kind)]);
      RunOne(inner, Close(kind));
  }

  /** The bytes between the brackets of a container. */
  function Body(kind: Kind, ms: Members): (r: bytes)
    ensures FlatMembers(kind, ms) == r + [Close(kind)]
  {
    match ms
    case Blank(pad) => pad
    case Last(m) => FlatMember(m)
    case More(m, rest) =>
      Join3(FlatMember(m) + [COMMA], Body(kind, rest), [Close(kind)]);
      FlatMember(m) + [COMMA] + Body(kind, rest)
  }

  lemma {:induction false} RunMembers(s: Tracker, kind: Kind, ms: Members)
    requires WfMembers(kind, ms) && Idle(s) && s.depth >= 1 && s.hasOpened
    ensures Run(s, Body(kind, ms)) == s
    decreases ms, 2
  {
    hide Run, FlatMember, WfMember;
    match ms
    case Blank(pad) => WsQuiet(pad); RunQuiet(s, pad);
    case Last(m) => RunMember(s, kind, m);
    case More(m, rest) =>
      RunMember(s, kind, m);
      RunConcat(s, FlatMember(m) + [COMMA], Body(kind, rest));
      RunConcat(s, FlatMember(m), [COMMA]);
      RunOne(s, COMMA);
      RunMembers(s, kind, rest);
  }

  lemma WsQuiet(s: bytes)
    requires Ws(s)
    ensures Quiet(s)
  {
  }

  lemma {:induction false} RunMember(s: Tracker, kind: Kind, m: Member)
    requires WfMember(kind, m) && Idle(s) && s.depth >= 1 && s.hasOpened
    ensures Run(s, FlatMember(m)) == s
    decreases m, 1
  {
    hide Run, Flat, Wf, Ws, IsString, Quiet;
    RunConcat(s, Lead(m) + Flat(m.value), m.post);
    RunConcat(s, Lead(m), Flat(m.value));
    RunConcat(s, m.pre + m.key, m.colon);
    RunConcat(s, m.pre, m.key);
    WsQuiet(m.pre);
    RunQuiet(s, m.pre);
    RunValue(s, m.value);
    WsQuiet(m.post);
    RunQuiet(s, m.post);
    if kind.ObjectKind? {
      RunString(s, m.key);
      ColonQuiet(m.colon);
      RunQuiet(s, m.colon);
    } else {
      RunNothing(s);
    }
  }

  lemma RunNothing(s: Tracker)
    ensures Run(s, []) == s
  {
  }

  lemma ColonQuiet(s: bytes)
    requires IsColon(s)
    ensures Quiet(s)
  {
    var a: bytes, b: bytes :| Ws(a) && Ws(b) && s == a + [COLON] + b;
    WsQuiet(a);
    WsQuiet(b);
  }

  // ---- The tracker agrees with the grammar ----

  /**
   On a text that opens with a brace and that skip_value accepts up to `e`, the tracker is
   not closed after any prefix shorter than `e`, and is closed after the prefix of length `e`
   and after every longer one.
   */
  lemma ClosesWithTheObject(text: bytes, e: nat, k: nat)
    requires text != [] && text[0] == LBRACE && ValueEnd(text, 0) == Some(e) && k <= |text|
    ensures Run(INITIAL, text[..k]).closed <==> k >= e
  {
    hide ParseMembers, Run, Wf, Flat;
    var v := ParseValue(text, 0).value;
    ValueSound(text, 0);
    ObjectRun(v.tree);
    var whole := Flat(v.tree);
    assert text[..e] == text[0..e] == whole;
    if k >= e {
      assert text[..k] == whole + text[e..k];
      RunConcat(INITIAL, whole, text[e..k]);
      ClosedStays(Run(INITIAL, whole), text[e..k]);
    } else {
      var open := whole[..e - 1];
      assert open == text[..k] + text[k..e - 1];
      RunConcat(INITIAL, text[..k], text[k..e - 1]);
      if Run(INITIAL, text[..k]).closed {
        ClosedStays(Run(INITIAL, text[..k]), text[k..e - 1]);
      }
    }
  }

  lemma ObjectRun(t: Json)
    requires Wf(t) && t.Container? && t.kind.ObjectKind?
    ensures |Flat(t)| > 0
    ensures Run(INITIAL, Flat(t)).closed
    ensures !Run(INITIAL, Flat(t)[..|Flat(t)| - 1]).closed
  {
    hide Run, FlatMembers, WfMembers;
    var body := Body(ObjectKind, t.members);
    var open := [LBRACE] + body;
    assert Flat(t) == [LBRACE] + (body + [RBRACE]);
    Join3([LBRACE], body, [RBRACE]);
    assert Flat(t)[..|Flat(t)| - 1] == open;
    var inner := Tracker(1, false, false, true, false);
    RunOne(INITIAL, LBRACE);
    RunConcat(INITIAL, [LBRACE], body);
    RunMembers(inner, ObjectKind, t.members);
    RunConcat(INITIAL, open, [RBRACE]);
    RunOne(inner, RBRACE);
  }
}
