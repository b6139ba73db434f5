/**
 The scanners of Json.hpp read exactly the grammar: whatever they accept is a tree of
 the grammar, every tree of the grammar is read back whole, and so `valid` holds of
 exactly the JSON-texts of RFC 8259.
 */
module JsonParsing {
  import opened Bytes
  import opened JsonGrammar
  import opened JsonScan

  // ---- White space ----

  lemma {:induction false} WsSound(doc: bytes, pos: nat)
    requires pos <= |doc|
    ensures Ws(doc[pos..SkipWs(doc, pos)])
    decreases |doc| - pos
  {
    if pos < |doc| && IsWs(doc[pos]) {
      WsSound(doc, pos + 1);
      SliceHead(doc, pos, SkipWs(doc, pos));
    }
  }

  /** A run of white space that cannot be prolonged is skipped whole. */
  lemma {:induction false} WsComplete(doc: bytes, pos: nat, ws: bytes)
    requires At(doc, pos, ws) && Ws(ws)
    requires pos + |ws| < |doc| ==> !IsWs(doc[pos + |ws|])
    ensures SkipWs(doc, pos) == pos + |ws|
    decreases |ws|
  {
    if ws != [] {
      assert doc[pos] == ws[0];
      assert doc[pos + 1..pos + |ws|] == ws[1..];
      WsComplete(doc, pos + 1, ws[1..]);
    }
  }

  // ---- Strings ----

  lemma {:induction false} CharsSound(doc: bytes, pos: nat)
    requires pos <= |doc|
    requires CharsEnd(doc, pos).Some?
    ensures var e := CharsEnd(doc, pos).value; doc[e - 1] == QUOTE && Chars(doc[pos..e - 1])
    decreases |doc| - pos
  {
    var e := CharsEnd(doc, pos).value;
    var s := doc[pos..e - 1];
    if doc[pos] == QUOTE {
    } else if doc[pos] == BACKSLASH {
      if IsSimpleEscape(doc[pos + 1]) {
        CharsSound(doc, pos + 2);
        assert s[2..] == doc[pos + 2..e - 1];
      } else {
        CharsSound(doc, pos + 6);
        assert s[6..] == doc[pos + 6..e - 1];
        assert s[..6] == doc[pos..pos + 6];
      }
    } else {
      CharsSound(doc, pos + 1);
      assert s[1..] == doc[pos + 1..e - 1];
    }
  }

  lemma {:induction false} CharsComplete(doc: bytes, pos: nat, s: bytes)
    requires At(doc, pos, s) && Chars(s)
    requires pos + |s| < |doc| && doc[pos + |s|] == QUOTE
    ensures CharsEnd(doc, pos) == Some(pos + |s| + 1)
    decreases |s|
  {
    if s != [] {
      assert doc[pos] == s[0];
      if s[0] != BACKSLASH {
        assert At(doc, pos + 1, s[1..]);
        CharsComplete(doc, pos + 1, s[1..]);
      } else {
        assert doc[pos + 1] == s[1];
        if IsSimpleEscape(s[1]) {
          assert At(doc, pos + 2, s[2..]);
          CharsComplete(doc, pos + 2, s[2..]);
        } else {
          assert doc[pos..pos + 6] == s[..6];
          assert At(doc, pos + 6, s[6..]);
          CharsComplete(doc, pos + 6, s[6..]);
        }
      }
    }
  }

  lemma StringSound(doc: bytes, pos: nat)
    requires StringEnd(doc, pos).Some?
    ensures IsString(doc[pos..StringEnd(doc, pos).value])
  {
    var e := StringEnd(doc, pos).value;
    CharsSound(doc, pos + 1);
    assert doc[pos..e][1..e - pos - 1] == doc[pos + 1..e - 1];
  }

  lemma StringComplete(doc: bytes, pos: nat, s: bytes)
    requires At(doc, pos, s) && IsString(s)
    ensures StringEnd(doc, pos) == Some(pos + |s|)
  {
    AtByte(doc, pos, s, 0);
    AtByte(doc, pos, s, |s| - 1);
    AtSlice(doc, pos, s, 1, |s| - 1);
    CharsComplete(doc, pos + 1, s[1..|s| - 1]);
  }

  // ---- Numbers ----

  /** What may follow a value: nothing, white space, a comma or a closing bracket. */
  predicate Delimited(doc: bytes, pos: nat) {
    pos < |doc| ==> IsWs(doc[pos]) || doc[pos] == COMMA || doc[pos] == RBRACKET || doc[pos] == RBRACE
  }

  lemma {:induction false} DigitsSound(doc: bytes, pos: nat)
    requires pos <= |doc|
    ensures forall b <- doc[pos..DigitsEnd(doc, pos)] :: IsDigit(b)
    decreases |doc| - pos
  {
    if pos < |doc| && IsDigit(doc[pos]) {
      DigitsSound(doc, pos + 1);
      SliceHead(doc, pos, DigitsEnd(doc, pos));
    }
  }

  lemma {:induction false} DigitsComplete(doc: bytes, pos: nat, s: bytes)
    requires At(doc, pos, s) && forall b <- s :: IsDigit(b)
    requires pos + |s| < |doc| ==> !IsDigit(doc[pos + |s|])
    ensures DigitsEnd(doc, pos) == pos + |s|
    decreases |s|
  {
    if s != [] {
      assert doc[pos] == s[0];
      assert At(doc, pos + 1, s[1..]);
      DigitsComplete(doc, pos + 1, s[1..]);
    }
  }

  lemma SomeDigitsSound(doc: bytes, pos: nat)
    requires SomeDigits(doc, pos).Some?
    ensures Digits(doc[pos..SomeDigits(doc, pos).value])
  {
    DigitsSound(doc, pos);
  }

  lemma SomeDigitsComplete(doc: bytes, pos: nat, s: bytes)
    requires At(doc, pos, s) && Digits(s)
    requires pos + |s| < |doc| ==> !IsDigit(doc[pos + |s|])
    ensures SomeDigits(doc, pos) == Some(pos + |s|)
  {
    assert doc[pos] == s[0];
    DigitsComplete(doc, pos, s);
  }

  lemma ExponentSound(doc: bytes, pos: nat)
    requires pos <= |doc| && ExponentEnd(doc, pos).Some?
    ensures IsExponent(doc[pos..ExponentEnd(doc, pos).value])
  {
    var e := ExponentEnd(doc, pos).value;
    if e != pos {
      var d := SignEnd(doc, pos + 1);
      SomeDigitsSound(doc, d);
      assert doc[pos..e][d - pos..] == doc[d..e];
    }
  }

  lemma FractionSound(doc: bytes, pos: nat)
    requires pos <= |doc| && FractionEnd(doc, pos).Some?
    ensures IsFraction(doc[pos..FractionEnd(doc, pos).value])
  {
    var e := FractionEnd(doc, pos).value;
    if e != pos {
      SomeDigitsSound(doc, pos + 1);
      assert doc[pos..e][1..] == doc[pos + 1..e];
    }
  }

  lemma IntSound(doc: bytes, pos: nat)
    requires IntEnd(doc, pos).Some?
    ensures IsIntPart(doc[pos..IntEnd(doc, pos).value])
  {
    if doc[pos] != ZERO {
      SomeDigitsSound(doc, pos);
    }
  }

  lemma NumberSound(doc: bytes, pos: nat)
    requires NumberEnd(doc, pos).Some?
    ensures IsNumber(doc[pos..NumberEnd(doc, pos).value])
  {
    hide DigitsEnd, IntEnd, FractionEnd, ExponentEnd, IsIntPart, IsFraction, IsExponent;
    var m := MinusEnd(doc, pos);
    var i := IntEnd(doc, m).value;
    var f := FractionEnd(doc, i).value;
    var e := ExponentEnd(doc, f).value;
    IntSound(doc, m);
    FractionSound(doc, i);
    ExponentSound(doc, f);
    var parts := NumberParts(doc[pos..m], doc[m..i], doc[i..f], doc[f..e]);
    assert parts.Valid();
    Join4(doc, pos, m, i, f, e);
  }

  lemma ExponentComplete(doc: bytes, pos: nat, s: bytes)
    requires At(doc, pos, s) && IsExponent(s) && Delimited(doc, pos + |s|)
    ensures ExponentEnd(doc, pos) == Some(pos + |s|)
  {
    if s != [] {
      assert doc[pos] == s[0] && doc[pos + 1] == s[1];
      var d := if Digits(s[1..]) then 1 else 2;
      if d == 1 {
        assert s[1..][0] == s[1];
      }
      assert At(doc, pos + d, s[d..]);
      SomeDigitsComplete(doc, pos + d, s[d..]);
    }
  }

  lemma FractionComplete(doc: bytes, pos: nat, s: bytes)
    requires At(doc, pos, s) && IsFraction(s)
    requires pos + |s| < |doc| ==> !IsDigit(doc[pos + |s|]) && doc[pos + |s|] != DOT
    ensures FractionEnd(doc, pos) == Some(pos + |s|)
  {
    if s != [] {
      assert doc[pos] == s[0];
      assert At(doc, pos + 1, s[1..]);
      SomeDigitsComplete(doc, pos + 1, s[1..]);
    }
  }

  lemma IntComplete(doc: bytes, pos: nat, s: bytes)
    requires At(doc, pos, s) && IsIntPart(s)
    requires pos + |s| < |doc| ==> !IsDigit(doc[pos + |s|])
    ensures IntEnd(doc, pos) == Some(pos + |s|)
  {
    assert doc[pos] == s[0];
    if s != [ZERO] {
      SomeDigitsComplete(doc, pos, s);
    }
  }

  lemma SplitNumber(doc: bytes, pos: nat, parts: NumberParts)
    requires At(doc, pos, parts.Text())
    ensures |parts.Text()| == |parts.minus| + |parts.int_| + |parts.frac| + |parts.exp|
    ensures At(doc, pos, parts.minus)
    ensures At(doc, pos + |parts.minus|, parts.int_)
    ensures At(doc, pos + |parts.minus| + |parts.int_|, parts.frac)
    ensures At(doc, pos + |parts.minus| + |parts.int_| + |parts.frac|, parts.exp)
  {
    AtSplit(doc, pos, parts.minus + parts.int_ + parts.frac, parts.exp);
    AtSplit(doc, pos, parts.minus + parts.int_, parts.frac);
    AtSplit(doc, pos, parts.minus, parts.int_);
  }

  /** Greedy scanning loses no derivation: a number followed by a delimiter is read whole. */
  lemma NumberComplete(doc: bytes, pos: nat, parts: NumberParts)
    requires parts.Valid() && At(doc, pos, parts.Text())
    requires Delimited(doc, pos + |parts.Text()|)
    ensures NumberEnd(doc, pos) == Some(pos + |parts.Text()|)
  {
    hide IntEnd, FractionEnd, ExponentEnd, MinusEnd, IsMinus, IsIntPart, IsFraction, IsExponent, IsDigit, At, Delimited;
    var m := pos + |parts.minus|;
    var i := m + |parts.int_|;
    var f := i + |parts.frac|;
    SplitNumber(doc, pos, parts);
    StartOfExponent(doc, f, parts.exp);
    ExponentComplete(doc, f, parts.exp);
    StartOfFraction(doc, i, parts.frac);
    FractionComplete(doc, i, parts.frac);
    StartOfInt(doc, m, parts.int_);
    IntComplete(doc, m, parts.int_);
    MinusComplete(doc, pos, parts.minus);
  }

  lemma MinusComplete(doc: bytes, pos: nat, s: bytes)
    requires At(doc, pos, s) && IsMinus(s)
    requires pos + |s| < |doc| && IsDigit(doc[pos + |s|])
    ensures MinusEnd(doc, pos) == pos + |s|
  {
    assert s != [] ==> doc[pos] == s[0];
  }

  lemma StartOfInt(doc: bytes, pos: nat, s: bytes)
    requires At(doc, pos, s) && IsIntPart(s)
    ensures pos < |doc| && IsDigit(doc[pos])
  {
    assert doc[pos] == s[0];
  }

  lemma StartOfFraction(doc: bytes, pos: nat, s: bytes)
    requires At(doc, pos, s) && IsFraction(s)
    requires pos + |s| < |doc| ==> !IsDigit(doc[pos + |s|])
    ensures pos < |doc| ==> !IsDigit(doc[pos])
  {
    if s != [] {
      assert doc[pos] == s[0];
    }
  }

  lemma StartOfExponent(doc: bytes, pos: nat, s: bytes)
    requires At(doc, pos, s) && IsExponent(s) && Delimited(doc, pos + |s|)
    ensures pos < |doc| ==> !IsDigit(doc[pos]) && doc[pos] != DOT
  {
    if s != [] {
      assert doc[pos] == s[0];
    }
  }

  // ---- Scalars ----

  lemma ScalarSound(doc: bytes, pos: nat)
    requires ScalarEnd(doc, pos).Some?
    ensures IsScalar(doc[pos..ScalarEnd(doc, pos).value])
  {
    if doc[pos] == QUOTE {
      StringSound(doc, pos);
    } else if doc[pos] == MINUS || IsDigit(doc[pos]) {
      NumberSound(doc, pos);
    }
  }

  lemma StartOfNumber(parts: NumberParts)
    requires parts.Valid()
    ensures parts.Text() != [] && (parts.Text()[0] == MINUS || IsDigit(parts.Text()[0]))
  {
    StartOfInt(parts.int_, 0, parts.int_);
    assert parts.Text()[0] == (parts.minus + parts.int_)[0];
  }

  lemma ScalarComplete(doc: bytes, pos: nat, s: bytes)
    requires At(doc, pos, s) && IsScalar(s) && Delimited(doc, pos + |s|)
    ensures ScalarEnd(doc, pos) == Some(pos + |s|)
  {
    hide NumberEnd, StringEnd;
    if IsString(s) {
      StringComplete(doc, pos, s);
      assert doc[pos] == s[0];
    } else if IsNumber(s) {
      var parts: NumberParts :| parts.Valid() && parts.Text() == s;
      NumberComplete(doc, pos, parts);
      StartOfNumber(parts);
      assert doc[pos] == s[0];
    } else {
      assert doc[pos] == s[0];
    }
  }

  // ---- Trees: whatever is accepted is in the grammar ----

  lemma LabelSound(doc: bytes, pos: nat, kind: Kind)
    requires pos <= |doc| && ReadLabel(doc, pos, kind).Some?
    ensures var l := ReadLabel(doc, pos, kind).value;
      if kind.ArrayKind? then l == Label(pos, pos)
      else IsString(doc[pos..l.keyEnd]) && IsColon(doc[l.keyEnd..l.valueStart])
  {
    hide StringEnd, SkipWs, IsString, Ws;
    if kind.ObjectKind? {
      var l := ReadLabel(doc, pos, kind).value;
      StringSound(doc, pos);
      var c := SkipWs(doc, l.keyEnd);
      WsSound(doc, l.keyEnd);
      WsSound(doc, c + 1);
      assert doc[l.keyEnd..l.valueStart] == doc[l.keyEnd..c] + [COLON] + doc[c + 1..l.valueStart];
    }
  }

  lemma {:induction false} ValueSound(doc: bytes, pos: nat)
    requires ParseValue(doc, pos).Some?
    ensures var p := ParseValue(doc, pos).value; Wf(p.tree) && Flat(p.tree) == doc[pos..p.end]
    decreases |doc| - pos, 0
  {
    hide ParseMembers, ScalarEnd, IsScalar;
    var p := ParseValue(doc, pos).value;
    match p.tree
    case Scalar(text) => ScalarSound(doc, pos);
    case Container(kind, ms) =>
      MembersSound(doc, pos + 1, kind, true);
      SliceHead(doc, pos, p.end);
  }

  /** The member that ParseMembers builds. */
  function MemberOf(doc: bytes, pos: nat, p: nat, l: Label, v: Parsed<Json>): Member
    requires pos <= p <= l.keyEnd <= l.valueStart < v.end <= |doc|
  {
    Member(doc[pos..p], doc[p..l.keyEnd], doc[l.keyEnd..l.valueStart], v.tree, doc[v.end..SkipWs(doc, v.end)])
  }

  lemma MemberSound(doc: bytes, pos: nat, kind: Kind)
    requires pos <= |doc|
    requires var p := SkipWs(doc, pos); ReadLabel(doc, p, kind).Some? && ParseValue(doc, ReadLabel(doc, p, kind).value.valueStart).Some?
    requires var v := ParseValue(doc, ReadLabel(doc, SkipWs(doc, pos), kind).value.valueStart).value;
      Wf(v.tree) && Flat(v.tree) == doc[ReadLabel(doc, SkipWs(doc, pos), kind).value.valueStart..v.end]
    ensures var p := SkipWs(doc, pos);
      var l := ReadLabel(doc, p, kind).value;
      var v := ParseValue(doc, l.valueStart).value;
      var m := MemberOf(doc, pos, p, l, v);
      WfMember(kind, m) && FlatMember(m) == doc[pos..SkipWs(doc, v.end)]
  {
    hide ParseValue, ReadLabel, SkipWs, IsColon, IsString;
    var p := SkipWs(doc, pos);
    var l := ReadLabel(doc, p, kind).value;
    var v := ParseValue(doc, l.valueStart).value;
    var q := SkipWs(doc, v.end);
    WsSound(doc, pos);
    LabelSound(doc, p, kind);
    WsSound(doc, v.end);
    Join4(doc, pos, p, l.keyEnd, l.valueStart, v.end);
    SliceJoin(doc, pos, v.end, q);
  }

  lemma {:induction false} MembersSound(doc: bytes, pos: nat, kind: Kind, first: bool)
    requires pos <= |doc| && ParseMembers(doc, pos, kind, first).Some?
    ensures var p := ParseMembers(doc, pos, kind, first).value;
      WfMembers(kind, p.tree) && FlatMembers(kind, p.tree) == doc[pos..p.end] && (p.tree.Blank? ==> first)
    decreases |doc| - pos, 1
  {
    hide ParseValue, ParseTail, ReadLabel, SkipWs, Wf, Flat;
    var p := SkipWs(doc, pos);
    var r := ParseMembers(doc, pos, kind, first).value;
    if first && doc[p] == Close(kind) {
      WsSound(doc, pos);
      assert doc[pos..p + 1] == doc[pos..p] + [doc[p]];
    } else {
      var l := ReadLabel(doc, p, kind).value;
      var v := ParseValue(doc, l.valueStart).value;
      ValueSound(doc, l.valueStart);
      MemberSound(doc, pos, kind);
      var m := MemberOf(doc, pos, p, l, v);
      var q := SkipWs(doc, v.end);
      TailSound(doc, q, kind, m);
      SliceJoin(doc, pos, q, r.end);
    }
  }

  lemma {:induction false} TailSound(doc: bytes, pos: nat, kind: Kind, m: Member)
    requires pos <= |doc| && WfMember(kind, m) && ParseTail(doc, pos, kind, m).Some?
    ensures var p := ParseTail(doc, pos, kind, m).value;
      WfMembers(kind, p.tree) && FlatMembers(kind, p.tree) == FlatMember(m) + doc[pos..p.end] && !p.tree.Blank?
    decreases |doc| - pos, 2
  {
    hide ParseMembers, WfMember, FlatMember;
    var p := ParseTail(doc, pos, kind, m).value;
    if doc[pos] == COMMA {
      MembersSound(doc, pos + 1, kind, false);
      SliceHead(doc, pos, p.end);
      assert FlatMember(m) + [COMMA] + doc[pos + 1..p.end] == FlatMember(m) + doc[pos..p.end];
    } else {
      assert doc[pos..p.end] == [Close(kind)];
    }
  }

  // ---- Trees: every tree of the grammar is read back ----

  lemma LabelComplete(doc: bytes, pos: nat, kind: Kind, m: Member)
    requires WfMember(kind, m)
    requires At(doc, pos, m.key + m.colon)
    requires pos + |m.key + m.colon| < |doc| && !IsWs(doc[pos + |m.key + m.colon|])
    ensures ReadLabel(doc, pos, kind) == Some(Label(pos + |m.key|, pos + |m.key| + |m.colon|))
  {
    hide StringEnd, IsString, Wf, SkipWs, IsColon;
    if kind.ObjectKind? {
      AtSplit(doc, pos, m.key, m.colon);
      StringComplete(doc, pos, m.key);
      ColonComplete(doc, pos + |m.key|, m.colon);
    }
  }

  lemma ColonComplete(doc: bytes, pos: nat, colon: bytes)
    requires IsColon(colon) && At(doc, pos, colon)
    requires pos + |colon| < |doc| && !IsWs(doc[pos + |colon|])
    ensures var c := SkipWs(doc, pos); c < |doc| && doc[c] == COLON && SkipWs(doc, c + 1) == pos + |colon|
  {
    hide SkipWs, Ws;
    var a: bytes, b: bytes :| Ws(a) && Ws(b) && colon == a + [COLON] + b;
    AtSplit(doc, pos, a + [COLON], b);
    AtSplit(doc, pos, a, [COLON]);
    assert doc[pos + |a|] == COLON && !IsWs(COLON);
    WsComplete(doc, pos, a);
    WsComplete(doc, pos + |a| + 1, b);
  }

  lemma {:induction false} ValueComplete(doc: bytes, pos: nat, t: Json)
    requires Wf(t) && At(doc, pos, Flat(t)) && Delimited(doc, pos + |Flat(t)|)
    ensures ParseValue(doc, pos) == Some(Parsed(t, pos + |Flat(t)|))
    decreases t, 0
  {
    hide ParseMembers, ScalarEnd, IsScalar, FlatMembers;
    FlatNonEmpty(t);
    assert doc[pos] == Flat(t)[0];
    match t
    case Scalar(text) =>
      ScalarComplete(doc, pos, text);
      assert doc[pos..pos + |text|] == text;
    case Container(kind, ms) =>
      AtSplit(doc, pos, [Open(kind)], FlatMembers(kind, ms));
      MembersComplete(doc, pos + 1, kind, ms, true);
  }

  lemma BlankComplete(doc: bytes, pos: nat, kind: Kind, pad: bytes)
    requires Ws(pad) && At(doc, pos, pad + [Close(kind)])
    ensures ParseMembers(doc, pos, kind, true) == Some(Parsed(Blank(pad), pos + |pad| + 1))
  {
    hide ReadLabel, ParseValue, SkipWs;
    AtSplit(doc, pos, pad, [Close(kind)]);
    assert doc[pos + |pad|] == Close(kind);
    WsComplete(doc, pos, pad);
  }

  lemma {:induction false} MembersComplete(doc: bytes, pos: nat, kind: Kind, ms: Members, first: bool)
    requires WfMembers(kind, ms) && (ms.Blank? ==> first)
    requires At(doc, pos, FlatMembers(kind, ms))
    ensures ParseMembers(doc, pos, kind, first) == Some(Parsed(ms, pos + |FlatMembers(kind, ms)|))
    decreases ms, 2
  {
    hide ParseMembers, ReadLabel, ParseValue, SkipWs, FlatMember, WfMember;
    match ms
    case Blank(pad) => BlankComplete(doc, pos, kind, pad);
    case Last(m) =>
      AtSplit(doc, pos, FlatMember(m), [Close(kind)]);
      var q := pos + |FlatMember(m)|;
      assert doc[q] == Close(kind);
      MemberComplete(doc, pos, kind, m, first);
    case More(m, rest) =>
      AtSplit(doc, pos, FlatMember(m) + [COMMA], FlatMembers(kind, rest));
      AtSplit(doc, pos, FlatMember(m), [COMMA]);
      var q := pos + |FlatMember(m)|;
      assert doc[q] == COMMA;
      MembersComplete(doc, q + 1, kind, rest, false);
      MemberComplete(doc, pos, kind, m, first);
  }

  /** Reading one member leaves only its tail to read. */
  lemma {:induction false} MemberComplete(doc: bytes, pos: nat, kind: Kind, m: Member, first: bool)
    requires WfMember(kind, m) && At(doc, pos, FlatMember(m))
    requires var q := pos + |FlatMember(m)|; q < |doc| && (doc[q] == COMMA || doc[q] == Close(kind))
    ensures ParseMembers(doc, pos, kind, first) == ParseTail(doc, pos + |FlatMember(m)|, kind, m)
    decreases m, 1
  {
    hide ParseTail, ParseValue, ReadLabel, SkipWs, WfMember, FlatMember, Flat, Wf, Lead, Ws, Delimited, At;
    var p := pos + |m.pre|;
    var l := Label(p + |m.key|, p + |m.key| + |m.colon|);
    var e := l.valueStart + |Flat(m.value)|;
    SplitMember(doc, pos, m);
    AtMeans(doc, pos, m.pre);
    AtMeans(doc, e, m.post);
    MemberBytes(doc, pos, kind, m);
    WsComplete(doc, e, m.post);
    ValueComplete(doc, l.valueStart, m.value);
    LabelComplete(doc, p, kind, m);
    WsComplete(doc, pos, m.pre);
    SliceLabel(doc, p, m.key, m.colon);
  }

  /** The bytes at the seams of a member. */
  lemma MemberBytes(doc: bytes, pos: nat, kind: Kind, m: Member)
    requires WfMember(kind, m) && At(doc, pos, FlatMember(m))
    requires var q := pos + |FlatMember(m)|; q < |doc| && (doc[q] == COMMA || doc[q] == Close(kind))
    ensures var p := pos + |m.pre|; var v := p + |m.key| + |m.colon|; var e := v + |Flat(m.value)|;
      && Ws(m.pre) && Ws(m.post) && Wf(m.value)
      && p <= v < e < |doc| && Delimited(doc, e) && !IsWs(doc[v])
      && !IsWs(doc[p]) && doc[p] != RBRACKET && doc[p] != RBRACE
      && !IsWs(doc[pos + |FlatMember(m)|])
  {
    hide Flat, Wf, FlatMember;
    var p := pos + |m.pre|;
    var v := p + |m.key| + |m.colon|;
    var e := v + |Flat(m.value)|;
    SplitMember(doc, pos, m);
    FlatNonEmpty(m.value);
    assert doc[v] == Flat(m.value)[0];
    if m.post != [] {
      assert doc[e] == m.post[0];
    }
    StartOfLabel(doc, p, kind, m);
  }

  lemma SliceLabel(doc: bytes, p: nat, key: bytes, colon: bytes)
    requires At(doc, p, key + colon)
    ensures doc[p..p + |key|] == key && doc[p + |key|..p + |key| + |colon|] == colon
  {
    AtSplit(doc, p, key, colon);
  }

  lemma SplitMember(doc: bytes, pos: nat, m: Member)
    requires At(doc, pos, FlatMember(m))
    ensures |FlatMember(m)| == |m.pre| + |m.key| + |m.colon| + |Flat(m.value)| + |m.post|
    ensures At(doc, pos, m.pre)
    ensures At(doc, pos + |m.pre|, m.key + m.colon)
    ensures At(doc, pos + |m.pre| + |m.key| + |m.colon|, Flat(m.value))
    ensures At(doc, pos + |m.pre| + |m.key| + |m.colon| + |Flat(m.value)|, m.post)
  {
    hide Flat;
    AtSplit(doc, pos, Lead(m) + Flat(m.value), m.post);
    AtSplit(doc, pos, Lead(m), Flat(m.value));
    assert Lead(m) == m.pre + (m.key + m.colon);
    AtSplit(doc, pos, m.pre, m.key + m.colon);
  }

  lemma StartOfLabel(doc: bytes, p: nat, kind: Kind, m: Member)
    requires WfMember(kind, m) && At(doc, p, m.key + m.colon)
    requires At(doc, p + |m.key| + |m.colon|, Flat(m.value))
    ensures p < |doc| && !IsWs(doc[p]) && doc[p] != RBRACKET && doc[p] != RBRACE
  {
    if kind.ArrayKind? {
      FlatNonEmpty(m.value);
      assert doc[p] == Flat(m.value)[0];
    } else {
      assert doc[p] == (m.key + m.colon)[0] == m.key[0];
    }
  }

  // ---- valid() ----

  /** `valid` holds of exactly the JSON-texts. */
  lemma ValidIffJsonText(doc: bytes)
    ensures IsValid(doc) <==> IsJsonText(doc)
  {
    if IsValid(doc) {
      ValidIsText(doc);
    }
    if IsJsonText(doc) {
      var pre, t, post :| IsText(doc, pre, t, post);
      TextIsValid(doc, pre, t, post);
    }
  }

  lemma ValidIsText(doc: bytes)
    requires IsValid(doc)
    ensures ParseValue(doc, SkipWs(doc, 0)).Some?
    ensures var p := ParseValue(doc, SkipWs(doc, 0)).value; IsText(doc, doc[..SkipWs(doc, 0)], p.tree, doc[p.end..])
  {
    hide ParseValue;
    var start := SkipWs(doc, 0);
    SkipWsTwice(doc, 0);
    var p := ParseValue(doc, start).value;
    WsSound(doc, 0);
    WsSound(doc, p.end);
    ValueSound(doc, start);
    SliceJoin(doc, 0, start, p.end);
    SliceJoin(doc, 0, p.end, |doc|);
  }

  lemma TextIsValid(doc: bytes, pre: bytes, t: Json, post: bytes)
    requires IsText(doc, pre, t, post)
    ensures IsValid(doc)
    ensures SkipWs(doc, 0) == |pre|
    ensures ParseValue(doc, |pre|) == Some(Parsed(t, |pre| + |Flat(t)|))
  {
    hide ParseValue, Wf, Flat, SkipWs, Ws;
    FlatNonEmpty(t);
    TextParts(pre, Flat(t), post);
    var e := |pre| + |Flat(t)|;
    assert e < |doc| ==> doc[e] == post[0];
    assert Delimited(doc, e) by { StartOfWs(post); }
    assert doc[|pre|] == Flat(t)[0];
    WsComplete(doc, 0, pre);
    ValueComplete(doc, |pre|, t);
    SkipWsTwice(doc, 0);
    WsComplete(doc, e, post);
  }

  lemma StartOfWs(s: bytes)
    requires Ws(s)
    ensures s != [] ==> IsWs(s[0])
  {
  }

  lemma TextParts(a: bytes, b: bytes, c: bytes)
    ensures At(a + b + c, 0, a) && At(a + b + c, |a|, b) && At(a + b + c, |a| + |b|, c)
  {
    assert a + b + c == a + (b + c);
  }

  /** The grammar is unambiguous: a document has one reading. */
  lemma OneReading(doc: bytes, pre1: bytes, t1: Json, post1: bytes, pre2: bytes, t2: Json, post2: bytes)
    requires IsText(doc, pre1, t1, post1) && IsText(doc, pre2, t2, post2)
    ensures pre1 == pre2 && t1 == t2 && post1 == post2
  {
    TextIsValid(doc, pre1, t1, post1);
    TextIsValid(doc, pre2, t2, post2);
    assert pre1 == doc[..|pre1|] && pre2 == doc[..|pre2|];
    assert post1 == doc[|pre1| + |Flat(t1)|..] && post2 == doc[|pre2| + |Flat(t2)|..];
  }
}
