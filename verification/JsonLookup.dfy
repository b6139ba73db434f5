/**
 Path lookup by byte span: find_value, find_value_in and array_elements of Json.hpp.
 On any document a lookup is a lookup in the tree that was read, and lookups compose.
 */
module JsonLookup {
  import opened Bytes
  import opened JsonGrammar
  import opened JsonScan
  import opened JsonParsing
  import JsonStrings

  /** One step of a path: an object key (decoded), or an array index. */
  datatype Seg = Key(key: bytes) | Index(index: nat)

  type Path = seq<Seg>

  /** The bytes `[start, end)` of one value. */
  datatype Span = Span(start: nat, end: nat, isString: bool)

  function KindFor(seg: Seg): Kind {
    if seg.Key? then ObjectKind else ArrayKind
  }

  /** Whether a member with this key literal is the one `seg` asks for. */
  predicate Hits(key: bytes, seg: Seg) {
    match seg
    case Key(k) => JsonStrings.Decode(key) == k
    case Index(i) => i == 0
  }

  /** What to look for after a member that was not it. */
  function NextSeg(seg: Seg): Seg {
    match seg
    case Key(_) => seg
    case Index(i) => if i == 0 then seg else Index(i - 1)
  }

  // ---- Lookup in a document ----

  /** The start of the first member value that `seg` asks for, among the members from `pos` on. */
  function FindMember(doc: bytes, pos: nat, seg: Seg): (r: Option<nat>)
    ensures r.Some? ==> pos <= r.value < |doc| && ParseValue(doc, r.value).Some?
    decreases |doc| - pos
  {
    var kind := KindFor(seg);
    var p := SkipWs(doc, pos);
    if p >= |doc| || doc[p] == Close(kind) then None
    else
      match ReadLabel(doc, p, kind)
      case None => None
      case Some(l) =>
        match ParseValue(doc, l.valueStart)
        case None => None
        case Some(v) =>
          if Hits(doc[p..l.keyEnd], seg) then Some(l.valueStart)
          else
            var q := SkipWs(doc, v.end);
            if q < |doc| && doc[q] == COMMA then FindMember(doc, q + 1, NextSeg(seg)) else None
  }

  function FindAt(doc: bytes, pos: nat, path: Path): (r: Option<Span>)
    ensures r.Some? ==> pos <= r.value.start < r.value.end <= |doc|
    decreases |path|
  {
    if path == [] then
      match ParseValue(doc, pos)
      case None => None
      case Some(v) => Some(Span(pos, v.end, doc[pos] == QUOTE))
    else if pos < |doc| && doc[pos] == Open(KindFor(path[0])) then
      match FindMember(doc, pos + 1, path[0])
      case None => None
      case Some(v) => FindAt(doc, v, path[1..])
    else None
  }

  /** What find_value returns. */
  function Find(doc: bytes, path: Path): Option<Span> {
    FindAt(doc, SkipWs(doc, 0), path)
  }

  function Shift(s: Option<Span>, base: nat): Option<Span> {
    match s
    case None => None
    case Some(v) => Some(Span(v.start + base, v.end + base, v.isString))
  }

  /** What find_value_in returns. */
  function FindIn(doc: bytes, container: Span, path: Path): Option<Span> {
    if container.start > container.end || container.end > |doc| then None
    else Shift(Find(doc[container.start..container.end], path), container.start)
  }

  // ---- The lookups as loops ----

  lemma ValueStartsHere(doc: bytes, pos: nat)
    requires ParseValue(doc, pos).Some?
    ensures SkipWs(doc, pos) == pos
  {
  }

  /** The index branch of find_value: the element's start and end. */
  method FindElement(doc: bytes, start: nat, index: nat) returns (r: Option<Label>)
    ensures r.Some? <==> FindMember(doc, start, Index(index)).Some?
    ensures r.Some? ==> r.value.keyEnd == FindMember(doc, start, Index(index)).value
    ensures r.Some? ==> EndOf(ParseValue(doc, r.value.keyEnd)) == Some(r.value.valueStart)
  {
    hide ParseValue;
    var pos, idx := start, 0;
    while true
      invariant idx <= index
      invariant FindMember(doc, pos, Index(index - idx)) == FindMember(doc, start, Index(index))
      decreases |doc| - pos
    {
      ghost var from := pos;
      pos := SkipWhitespace(doc, pos);
      if pos >= |doc| {
        return None;
      }
      if doc[pos] == RBRACKET {
        return None;
      }
      SkipWsTwice(doc, from);
      var ve := SkipValue(doc, pos);
      if ve.None? {
        return None;
      }
      if idx == index {
        return Some(Label(pos, ve.value));
      }
      pos := SkipWhitespace(doc, ve.value);
      if pos >= |doc| || doc[pos] != COMMA {
        return None;
      }
      pos := pos + 1;
      idx := idx + 1;
    }
  }

  /** A key, the colon after it and the white space around: the label of an object member. */
  method ReadKey(doc: bytes, start: nat) returns (r: Option<Label>)
    requires start < |doc|
    ensures r == ReadLabel(doc, start, ObjectKind)
  {
    hide SkipWs;
    if doc[start] != QUOTE {
      return None;
    }
    var ke := SkipString(doc, start);
    if ke.None? {
      return None;
    }
    var pos := SkipWhitespace(doc, ke.value);
    if pos >= |doc| || doc[pos] != COLON {
      return None;
    }
    pos := SkipWhitespace(doc, pos + 1);
    return Some(Label(ke.value, pos));
  }

  /** The key branch of find_value: the first member with this key wins. */
  method FindKey(doc: bytes, start: nat, key: bytes) returns (r: Option<Label>)
    ensures r.Some? <==> FindMember(doc, start, Key(key)).Some?
    ensures r.Some? ==> r.value.keyEnd == FindMember(doc, start, Key(key)).value
    ensures r.Some? ==> EndOf(ParseValue(doc, r.value.keyEnd)) == Some(r.value.valueStart)
  {
    hide ParseValue, ReadLabel, SkipWs, FindMember;
    var pos := start;
    while true
      invariant FindMember(doc, pos, Key(key)) == FindMember(doc, start, Key(key))
      decreases |doc| - pos
    {
      FindMemberUnfolds(doc, pos, Key(key));
      pos := SkipWhitespace(doc, pos);
      if pos >= |doc| {
        return None;
      }
      if doc[pos] == RBRACE {
        return None;
      }
      var l := ReadKey(doc, pos);
      if l.None? {
        return None;
      }
      var found := JsonStrings.DecodeString(doc[pos..l.value.keyEnd]);
      var valueStart := l.value.valueStart;
      if valueStart >= |doc| {
        NoValueAtEnd(doc, valueStart);
        return None;
      }
      LabelEndsInWs(doc, pos);
      var ve := SkipValue(doc, valueStart);
      if ve.None? {
        return None;
      }
      if found == key {
        return Some(Label(valueStart, ve.value));
      }
      pos := SkipWhitespace(doc, ve.value);
      if pos >= |doc| || doc[pos] != COMMA {
        return None;
      }
      pos := pos + 1;
    }
  }

  lemma LabelEndsInWs(doc: bytes, pos: nat)
    requires ReadLabel(doc, pos, ObjectKind).Some?
    ensures var v := ReadLabel(doc, pos, ObjectKind).value.valueStart; SkipWs(doc, v) == v
  {
    hide StringEnd;
  }

  /** FindMember's definition, with the member it looks at named. */
  lemma FindMemberUnfolds(doc: bytes, pos: nat, seg: Seg)
    ensures var p := SkipWs(doc, pos);
      && (p >= |doc| || doc[p] == Close(KindFor(seg)) ==> FindMember(doc, pos, seg) == None)
      && (p < |doc| && doc[p] != Close(KindFor(seg)) ==>
            match ReadLabel(doc, p, KindFor(seg))
            case None => FindMember(doc, pos, seg) == None
            case Some(l) =>
              match ParseValue(doc, l.valueStart)
              case None => FindMember(doc, pos, seg) == None
              case Some(v) => FindMember(doc, pos, seg) == AfterMember(doc, p, l, v.end, seg))
  {
    hide ParseValue, ReadLabel, SkipWs, Hits;
  }

  /** The rest of a lookup once a member with label `l` has been read up to `end`. */
  function AfterMember(doc: bytes, p: nat, l: Label, end: nat, seg: Seg): Option<nat>
    requires p <= l.keyEnd <= |doc| && end <= |doc|
  {
    if Hits(doc[p..l.keyEnd], seg) then Some(l.valueStart)
    else
      var q := SkipWs(doc, end);
      if q < |doc| && doc[q] == COMMA then FindMember(doc, q + 1, NextSeg(seg)) else None
  }

  lemma NoValueAtEnd(doc: bytes, pos: nat)
    requires pos >= |doc|
    ensures ParseValue(doc, pos) == None
  {
  }

  method FindValue(doc: bytes, path: Path) returns (r: Option<Span>)
    ensures r == Find(doc, path)
  {
    hide ParseValue, FindMember;
    var pos := SkipWhitespace(doc, 0);
    SkipWsTwice(doc, 0);
    if pos >= |doc| {
      NoValueAtEnd(doc, pos);
      return None;
    }
    for si := 0 to |path|
      invariant 0 <= pos < |doc| && SkipWs(doc, pos) == pos
      invariant FindAt(doc, pos, path[si..]) == Find(doc, path)
    {
      var seg := path[si];
      assert path[si..][1..] == path[si + 1..];
      pos := SkipWhitespace(doc, pos);
      if doc[pos] != Open(KindFor(seg)) {
        return None;
      }
      var found: Option<Label>;
      match seg {
        case Index(i) => found := FindElement(doc, pos + 1, i);
        case Key(k) => found := FindKey(doc, pos + 1, k);
      }
      if found.None? {
        return None;
      }
      pos := found.value.keyEnd;
      ValueStartsHere(doc, pos);
      if si + 1 == |path| {
        return Some(Span(pos, found.value.valueStart, doc[pos] == QUOTE));
      }
    }
    var ve := SkipValue(doc, pos);
    if ve.None? {
      return None;
    }
    return Some(Span(pos, ve.value, doc[pos] == QUOTE));
  }

  method FindValueIn(doc: bytes, container: Span, path: Path) returns (r: Option<Span>)
    ensures r == FindIn(doc, container, path)
  {
    hide FindAt;
    if container.start > container.end || container.end > |doc| {
      return None;
    }
    var found := FindValue(doc[container.start..container.end], path);
    if found.None? {
      return None;
    }
    return Some(Span(found.value.start + container.start, found.value.end + container.start, found.value.isString));
  }

  // ---- Lookup in a tree ----

  /** A value inside another, and where its bytes start there. */
  datatype Place = Place(offset: nat, value: Json)

  /** The member value `seg` asks for, with its offset among the bytes of the members. */
  function FindInMembers(ms: Members, seg: Seg): (r: Option<Place>)
    ensures r.Some? ==> r.value.value < ms
    decreases ms
  {
    match ms
    case Blank(_) => None
    case Last(m) => if Hits(m.key, seg) then Some(Place(|Lead(m)|, m.value)) else None
    case More(m, rest) =>
      if Hits(m.key, seg) then Some(Place(|Lead(m)|, m.value))
      else
        match FindInMembers(rest, NextSeg(seg))
        case None => None
        case Some(p) => Some(Place(|FlatMember(m)| + 1 + p.offset, p.value))
  }

  function Locate(t: Json, path: Path): Option<Place>
    decreases |path|
  {
    if path == [] then Some(Place(0, t))
    else if t.Container? && t.kind == KindFor(path[0]) then
      match FindInMembers(t.members, path[0])
      case None => None
      case Some(p) =>
        match Locate(p.value, path[1..])
        case None => None
        case Some(q) => Some(Place(1 + p.offset + q.offset, q.value))
    else None
  }

  /** The span of a place in a tree whose bytes start at `base`. */
  function SpanOf(base: nat, p: Option<Place>): Option<Span> {
    match p
    case None => None
    case Some(v) => Some(Span(base + v.offset, base + v.offset + |Flat(v.value)|, IsStr(v.value)))
  }

  // ---- A lookup in a document is a lookup in the tree read from it ----

  /** `value` is read at `pos`, up to `end`. */
  predicate ReadsAs(doc: bytes, pos: nat, value: Json, end: nat) {
    ParseValue(doc, pos) == Some(Parsed(value, end))
  }

  lemma ReadLength(doc: bytes, pos: nat, value: Json, end: nat)
    requires ReadsAs(doc, pos, value, end)
    ensures pos < end <= |doc| && Wf(value) && doc[pos..end] == Flat(value) && end == pos + |Flat(value)|
    ensures IsStr(value) <==> doc[pos] == QUOTE
    ensures value.Container? ==> doc[pos] == Open(value.kind)
    ensures doc[pos] == LBRACE || doc[pos] == LBRACKET ==> value.Container?
  {
    hide ParseMembers;
    ValueSound(doc, pos);
    assert Flat(value)[0] == doc[pos];
  }

  lemma {:induction false} FindMemberInTree(doc: bytes, pos: nat, first: bool, seg: Seg)
    requires pos <= |doc| && ParseMembers(doc, pos, KindFor(seg), first).Some?
    ensures var ms := ParseMembers(doc, pos, KindFor(seg), first).value.tree;
      match FindInMembers(ms, seg)
      case None => FindMember(doc, pos, seg) == None
      case Some(pl) => FindMember(doc, pos, seg) == Some(pos + pl.offset)
                       && ReadsAs(doc, pos + pl.offset, pl.value, pos + pl.offset + |Flat(pl.value)|)
    decreases |doc| - pos
  {
    hide ParseValue, ParseMembers, ReadLabel, SkipWs, Hits, Flat, FlatMember, Lead, FindMember, MemberOf, ReadsAs;
    var kind := KindFor(seg);
    FindMemberUnfolds(doc, pos, seg);
    MembersUnfold(doc, pos, kind, first);
    var p := SkipWs(doc, pos);
    if doc[p] == Close(kind) {
      NoLabelAtClose(doc, p, kind);
    } else {
      var l := ReadLabel(doc, p, kind).value;
      var v := ParseValue(doc, l.valueStart).value;
      var m := MemberOf(doc, pos, p, l, v);
      var q := SkipWs(doc, v.end);
      MemberLengths(doc, pos, kind);
      if !Hits(m.key, seg) && doc[q] == COMMA {
        FindMemberInTree(doc, q + 1, false, NextSeg(seg));
      }
    }
  }

  /** ParseMembers' definition, with the member it reads named. */
  lemma MembersUnfold(doc: bytes, pos: nat, kind: Kind, first: bool)
    requires pos <= |doc| && ParseMembers(doc, pos, kind, first).Some?
    ensures var p := SkipWs(doc, pos);
      && p < |doc|
      && (first && doc[p] == Close(kind) ==> ParseMembers(doc, pos, kind, first).value.tree.Blank?)
      && (!(first && doc[p] == Close(kind)) ==>
            && ReadLabel(doc, p, kind).Some?
            && var l := ReadLabel(doc, p, kind).value;
            && ParseValue(doc, l.valueStart).Some?
            && var v := ParseValue(doc, l.valueStart).value;
            && ParseMembers(doc, pos, kind, first) == ParseTail(doc, SkipWs(doc, v.end), kind, MemberOf(doc, pos, p, l, v)))
  {
    hide ParseValue, ParseTail, ReadLabel, SkipWs;
  }

  /** The member read at `pos` takes the bytes up to the separator, its value those in the middle. */
  lemma MemberLengths(doc: bytes, pos: nat, kind: Kind)
    requires pos <= |doc|
    requires var p := SkipWs(doc, pos); ReadLabel(doc, p, kind).Some? && ParseValue(doc, ReadLabel(doc, p, kind).value.valueStart).Some?
    ensures var p := SkipWs(doc, pos);
      var l := ReadLabel(doc, p, kind).value;
      var v := ParseValue(doc, l.valueStart).value;
      var m := MemberOf(doc, pos, p, l, v);
      && m.key == doc[p..l.keyEnd] && m.value == v.tree
      && |Lead(m)| == l.valueStart - pos
      && |FlatMember(m)| == SkipWs(doc, v.end) - pos
      && ReadsAs(doc, l.valueStart, v.tree, l.valueStart + |Flat(v.tree)|)
  {
    hide ParseValue, ReadLabel, SkipWs, Flat, FlatMember, WfMember, Wf;
    var p := SkipWs(doc, pos);
    var l := ReadLabel(doc, p, kind).value;
    var v := ParseValue(doc, l.valueStart).value;
    ValueSound(doc, l.valueStart);
    MemberSound(doc, pos, kind);
  }

  lemma NoLabelAtClose(doc: bytes, p: nat, kind: Kind)
    requires p < |doc| && doc[p] == Close(kind)
    ensures kind.ObjectKind? ==> ReadLabel(doc, p, kind) == None
    ensures kind.ArrayKind? && ReadLabel(doc, p, kind).Some? ==> ParseValue(doc, ReadLabel(doc, p, kind).value.valueStart) == None
  {
  }

  lemma {:induction false} FindInTree(doc: bytes, pos: nat, path: Path)
    requires ParseValue(doc, pos).Some?
    ensures var t := ParseValue(doc, pos).value.tree;
      && FindAt(doc, pos, path) == SpanOf(pos, Locate(t, path))
      && (Locate(t, path).Some? ==>
            var pl := Locate(t, path).value;
            ReadsAs(doc, pos + pl.offset, pl.value, pos + pl.offset + |Flat(pl.value)|))
    decreases |path|
  {
    hide ParseValue, ParseMembers, FindMember, FindInMembers, FindAt, Locate, Flat, IsStr, ReadsAs;
    var v := ParseValue(doc, pos).value;
    var t := v.tree;
    ReadsItself(doc, pos);
    ReadLength(doc, pos, t, v.end);
    FindAtUnfolds(doc, pos, path);
    LocateUnfolds(t, path);
    if path != [] && t.Container? && t.kind == KindFor(path[0]) {
      ContainerMembers(doc, pos);
      FindMemberInTree(doc, pos + 1, true, path[0]);
      var child := FindInMembers(t.members, path[0]);
      if child.Some? {
        var at := pos + 1 + child.value.offset;
        ReadsAsTree(doc, at, child.value.value, at + |Flat(child.value.value)|);
        FindInTree(doc, at, path[1..]);
      }
    }
  }

  lemma ReadsItself(doc: bytes, pos: nat)
    requires ParseValue(doc, pos).Some?
    ensures ReadsAs(doc, pos, ParseValue(doc, pos).value.tree, ParseValue(doc, pos).value.end)
  {
  }

  lemma ReadsAsTree(doc: bytes, pos: nat, value: Json, end: nat)
    requires ReadsAs(doc, pos, value, end)
    ensures ParseValue(doc, pos) == Some(Parsed(value, end))
  {
  }

  lemma ContainerMembers(doc: bytes, pos: nat)
    requires ParseValue(doc, pos).Some? && ParseValue(doc, pos).value.tree.Container?
    ensures var v := ParseValue(doc, pos).value;
      ParseMembers(doc, pos + 1, v.tree.kind, true) == Some(Parsed(v.tree.members, v.end))
  {
    hide ParseMembers, ScalarEnd;
  }

  lemma FindAtUnfolds(doc: bytes, pos: nat, path: Path)
    requires ParseValue(doc, pos).Some?
    ensures path == [] ==> FindAt(doc, pos, path) == Some(Span(pos, ParseValue(doc, pos).value.end, doc[pos] == QUOTE))
    ensures path != [] && doc[pos] != Open(KindFor(path[0])) ==> FindAt(doc, pos, path) == None
    ensures path != [] && doc[pos] == Open(KindFor(path[0])) ==>
      match FindMember(doc, pos + 1, path[0])
      case None => FindAt(doc, pos, path) == None
      case Some(v) => FindAt(doc, pos, path) == FindAt(doc, v, path[1..])
  {
    hide ParseValue, FindMember;
  }

  lemma LocateUnfolds(t: Json, path: Path)
    ensures path == [] ==> Locate(t, path) == Some(Place(0, t))
    ensures path != [] && !(t.Container? && t.kind == KindFor(path[0])) ==> Locate(t, path) == None
    ensures path != [] && t.Container? && t.kind == KindFor(path[0]) ==>
      match FindInMembers(t.members, path[0])
      case None => Locate(t, path) == None
      case Some(p) =>
        match Locate(p.value, path[1..])
        case None => Locate(t, path) == None
        case Some(q) => Locate(t, path) == Some(Place(1 + p.offset + q.offset, q.value))
  {
    hide FindInMembers;
  }

  // ---- Lookups compose ----

  lemma {:induction false} FindAppend(doc: bytes, pos: nat, p: Path, q: Path)
    requires FindAt(doc, pos, p).Some?
    ensures var s := FindAt(doc, pos, p).value;
      && FindAt(doc, pos, p + q) == FindAt(doc, s.start, q)
      && EndOf(ParseValue(doc, s.start)) == Some(s.end)
      && s.isString == (doc[s.start] == QUOTE)
    decreases |p|
  {
    hide ParseValue, FindMember;
    if p == [] {
      assert p + q == q;
    } else {
      assert (p + q)[1..] == p[1..] + q;
      FindAppend(doc, FindMember(doc, pos + 1, p[0]).value, p[1..], q);
    }
  }

  /** The bytes of a value on their own, after any white space, are read as the same value. */
  lemma ReadAlone(doc: bytes, from: nat, pos: nat, value: Json, end: nat)
    requires from <= pos && SkipWs(doc, from) == pos && ReadsAs(doc, pos, value, end)
    ensures var sub := doc[from..end]; SkipWs(sub, 0) == pos - from && ReadsAs(sub, pos - from, value, end - from)
  {
    hide ParseValue, SkipWs;
    var sub := doc[from..end];
    ReadLength(doc, pos, value, end);
    FlatNonEmpty(value);
    WsSound(doc, from);
    assert sub[..pos - from] == doc[from..pos];
    assert sub[pos - from..] == Flat(value);
    WsComplete(sub, 0, sub[..pos - from]);
    ValueComplete(sub, pos - from, value);
  }

  /** Looking up inside a span is looking up below the place it was read from. */
  lemma FindInSpan(doc: bytes, from: nat, pos: nat, value: Json, end: nat, q: Path)
    requires from <= pos && SkipWs(doc, from) == pos && ReadsAs(doc, pos, value, end)
    ensures forall b: bool :: FindIn(doc, Span(from, end, b), q) == FindAt(doc, pos, q)
  {
    hide ParseValue, SkipWs, Locate, FindAt;
    ReadLength(doc, pos, value, end);
    ReadAlone(doc, from, pos, value, end);
    FindInTree(doc[from..end], pos - from, q);
    FindInTree(doc, pos, q);
  }

  /** find_value(doc, p + q) is find_value_in(doc, s, q) for the span s of p, on every document. */
  lemma LookupComposes(doc: bytes, p: Path, q: Path)
    requires Find(doc, p).Some?
    ensures Find(doc, p + q) == FindIn(doc, Find(doc, p).value, q)
  {
    hide ParseValue, FindAt, FindIn;
    FindAppend(doc, SkipWs(doc, 0), p, q);
    var s := Find(doc, p).value;
    var v := ParseValue(doc, s.start).value;
    ValueStartsHere(doc, s.start);
    FindInSpan(doc, s.start, s.start, v.tree, s.end, q);
    assert s == Span(s.start, s.end, s.isString);
  }

  // ---- One forward pass over an array ----

  function ElementsFrom(doc: bytes, pos: nat): (r: seq<Span>)
    decreases |doc| - pos
  {
    match ValueEnd(doc, pos)
    case None => []
    case Some(e) =>
      var q := SkipWs(doc, e);
      [Span(pos, e, pos < |doc| && doc[pos] == QUOTE)]
      + if q < |doc| && doc[q] == COMMA then ElementsFrom(doc, q + 1) else []
  }

  /** What array_elements returns. */
  function Elements(doc: bytes, s: Span): seq<Span> {
    if s.start > s.end || s.end > |doc| || s.isString || s.start >= s.end || doc[s.start] != LBRACKET then []
    else
      var pos := SkipWs(doc, s.start + 1);
      if pos >= |doc| || doc[pos] == RBRACKET then [] else ElementsFrom(doc, pos)
  }

  method ArrayElements(doc: bytes, s: Span) returns (result: seq<Span>)
    ensures result == Elements(doc, s)
  {
    hide ParseValue, SkipWs, Elements, ElementsFrom;
    ElementsUnfold(doc, s);
    result := [];
    if s.start > s.end || s.end > |doc| {
      return;
    }
    if s.isString || s.start >= s.end || doc[s.start] != LBRACKET {
      return;
    }
    var pos := SkipWhitespace(doc, s.start + 1);
    if pos >= |doc| {
      return;
    }
    if doc[pos] == RBRACKET {
      return;
    }
    assert Elements(doc, s) == ElementsFrom(doc, pos);
    while true
      invariant pos <= |doc|
      invariant result + ElementsFrom(doc, pos) == Elements(doc, s)
      decreases |doc| - pos
    {
      ghost var from, before := pos, result;
      var ve := SkipValue(doc, pos);
      if ve.None? {
        NoElements(doc, pos);
        return;
      }
      ElementsFromUnfolds(doc, pos, ve.value);
      assert pos < |doc| by { ValueNotAtEnd(doc, pos); }
      result := result + [Span(pos, ve.value, doc[pos] == QUOTE)];
      pos := SkipWhitespace(doc, ve.value);
      if pos >= |doc| || doc[pos] != COMMA {
        return;
      }
      pos := pos + 1;
      assert result + ElementsFrom(doc, pos) == before + ElementsFrom(doc, from);
    }
  }

  lemma NoElements(doc: bytes, pos: nat)
    requires ValueEnd(doc, pos) == None
    ensures ElementsFrom(doc, pos) == []
  {
  }

  lemma ElementsUnfold(doc: bytes, s: Span)
    ensures if s.start > s.end || s.end > |doc| || s.isString || s.start >= s.end || doc[s.start] != LBRACKET then Elements(doc, s) == []
      else var pos := SkipWs(doc, s.start + 1);
        Elements(doc, s) == if pos >= |doc| || doc[pos] == RBRACKET then [] else ElementsFrom(doc, pos)
  {
    hide ElementsFrom, SkipWs;
  }

  lemma ValueNotAtEnd(doc: bytes, pos: nat)
    requires ValueEnd(doc, pos).Some?
    ensures pos < |doc|
  {
  }

  function Count(ms: Members): nat {
    match ms
    case Blank(_) => 0
    case Last(_) => 1
    case More(_, rest) => 1 + Count(rest)
  }

  /** The span found for element `i` ends where the element ends, and holds only white space before it. */
  predicate Covers(doc: bytes, base: nat, place: Option<Place>, s: Span) {
    && place.Some?
    && s.start <= base + place.value.offset == SkipWs(doc, s.start)
    && ReadsAs(doc, base + place.value.offset, place.value.value, s.end)
  }

  lemma {:induction false} CountPlaces(ms: Members, i: nat)
    ensures FindInMembers(ms, Index(i)).Some? <==> i < Count(ms)
    decreases ms
  {
    match ms
    case Blank(_) =>
    case Last(_) =>
    case More(_, rest) => if i > 0 { CountPlaces(rest, i - 1); }
  }

  /** Member `i`, counted from the first. */
  function Nth(ms: Members, i: nat): Option<Member> {
    match ms
    case Blank(_) => None
    case Last(m) => if i == 0 then Some(m) else None
    case More(m, rest) => if i == 0 then Some(m) else Nth(rest, i - 1)
  }

  /** An index leads to the member it counts, if there are that many. */
  lemma {:induction false} IndexFindsNth(ms: Members, i: nat)
    ensures match Nth(ms, i)
      case None => FindInMembers(ms, Index(i)) == None
      case Some(m) => FindInMembers(ms, Index(i)).Some? && FindInMembers(ms, Index(i)).value.value == m.value
    decreases ms
  {
    match ms
    case Blank(_) =>
    case Last(_) =>
    case More(_, rest) => if i > 0 { IndexFindsNth(rest, i - 1); }
  }

  /** Member `i` is there, and its key means `k`. */
  predicate KeyedAt(ms: Members, i: nat, k: bytes) {
    Nth(ms, i).Some? && JsonStrings.Decode(Nth(ms, i).value.key) == k
  }

  /** A key leads to the first member whose key means it, escapes or not. */
  lemma {:induction false} KeyFindsFirst(ms: Members, k: bytes)
    ensures match FindInMembers(ms, Key(k))
      case None => forall i: nat :: !KeyedAt(ms, i, k)
      case Some(p) => exists i: nat :: KeyedAt(ms, i, k) && Nth(ms, i).value.value == p.value && forall j: nat | j < i :: !KeyedAt(ms, j, k)
    decreases ms
  {
    hide JsonStrings.Decode;
    match ms
    case Blank(_) =>
    case Last(m) =>
      assert KeyedAt(ms, 0, k) <==> JsonStrings.Decode(m.key) == k;
    case More(m, rest) =>
      assert KeyedAt(ms, 0, k) <==> JsonStrings.Decode(m.key) == k;
      KeyFindsFirst(rest, k);
      forall i: nat | i > 0 ensures KeyedAt(ms, i, k) == KeyedAt(rest, i - 1, k) && Nth(ms, i) == Nth(rest, i - 1) {
      }
      if JsonStrings.Decode(m.key) != k && FindInMembers(rest, Key(k)).Some? {
        var p := FindInMembers(rest, Key(k)).value;
        var i: nat :| KeyedAt(rest, i, k) && Nth(rest, i).value.value == p.value && forall j: nat | j < i :: !KeyedAt(rest, j, k);
        assert KeyedAt(ms, i + 1, k);
        assert forall j: nat | j < i + 1 :: !KeyedAt(ms, j, k);
      }
  }

  lemma {:induction false} ElementsInTree(doc: bytes, pos: nat, from: nat, first: bool, i: nat)
    requires pos <= from <= |doc| && SkipWs(doc, from) == SkipWs(doc, pos)
    requires ParseMembers(doc, pos, ArrayKind, first).Some? && !ParseMembers(doc, pos, ArrayKind, first).value.tree.Blank?
    ensures var ms := ParseMembers(doc, pos, ArrayKind, first).value.tree;
      && |ElementsFrom(doc, from)| == Count(ms)
      && (i < Count(ms) ==> Covers(doc, pos, FindInMembers(ms, Index(i)), ElementsFrom(doc, from)[i]))
    decreases |doc| - pos
  {
    hide ParseValue, ParseMembers, SkipWs, Flat, FlatMember, Lead, MemberOf, ElementsFrom, ReadsAs;
    MembersUnfold(doc, pos, ArrayKind, first);
    var p := SkipWs(doc, pos);
    var v := ParseValue(doc, p).value;
    var q := SkipWs(doc, v.end);
    MemberLengths(doc, pos, ArrayKind);
    ElementsFromUnfolds(doc, from, v.end);
    ReadsItself(doc, p);
    if doc[q] == COMMA {
      var j := if i == 0 then 0 else i - 1;
      NeverBlankAfterComma(doc, q + 1, ArrayKind);
      ElementsInTree(doc, q + 1, q + 1, false, j);
      CountPlaces(ParseMembers(doc, q + 1, ArrayKind, false).value.tree, j);
    }
  }

  lemma NeverBlankAfterComma(doc: bytes, pos: nat, kind: Kind)
    requires pos <= |doc| && ParseMembers(doc, pos, kind, false).Some?
    ensures !ParseMembers(doc, pos, kind, false).value.tree.Blank?
  {
    hide ParseValue, ReadLabel, SkipWs;
  }

  lemma ElementsFromUnfolds(doc: bytes, from: nat, end: nat)
    requires ValueEnd(doc, from) == Some(end)
    ensures var q := SkipWs(doc, end);
      ElementsFrom(doc, from)
      == [Span(from, end, from < |doc| && doc[from] == QUOTE)]
         + if q < |doc| && doc[q] == COMMA then ElementsFrom(doc, q + 1) else []
  {
    hide ParseValue, SkipWs;
  }

  /**
   For the span of an array found in any document: there are as many element spans as
   indexes that resolve, and a lookup inside the i-th is a lookup below index i.
   */
  lemma ElementsAreIndexes(doc: bytes, p: Path, i: nat, q: Path)
    requires Find(doc, p).Some? && doc[Find(doc, p).value.start] == LBRACKET
    ensures var s := Find(doc, p).value;
      && (i < |Elements(doc, s)| <==> FindIn(doc, s, [Index(i)]).Some?)
      && (i < |Elements(doc, s)| ==> FindIn(doc, Elements(doc, s)[i], q) == FindIn(doc, s, [Index(i)] + q))
  {
    hide FindIn, ParseMembers, ParseValue, FindMember, Elements;
    FindAppend(doc, SkipWs(doc, 0), p, q);
    var s := Find(doc, p).value;
    ArrayElementPlaces(doc, s.start, s.end, i);
    var ms := ParseValue(doc, s.start).value.tree.members;
    CountPlaces(ms, i);
    ChildLookup(doc, s, i, q);
    ChildLookup(doc, s, i, []);
    assert [Index(i)] + [] == [Index(i)];
    if i < Count(ms) {
      var e := Elements(doc, s)[i];
      var place := FindInMembers(ms, Index(i)).value;
      FindInSpan(doc, e.start, s.start + 1 + place.offset, place.value, e.end, q);
      assert e == Span(e.start, e.end, e.isString);
    }
  }

  lemma ArrayElementPlaces(doc: bytes, pos: nat, end: nat, i: nat)
    requires EndOf(ParseValue(doc, pos)) == Some(end) && doc[pos] == LBRACKET
    ensures var t := ParseValue(doc, pos).value.tree;
      var elems := Elements(doc, Span(pos, end, false));
      && t.Container? && t.kind.ArrayKind?
      && |elems| == Count(t.members)
      && (i < |elems| ==> Covers(doc, pos + 1, FindInMembers(t.members, Index(i)), elems[i]))
  {
    hide ElementsFrom, ParseMembers, SkipWs;
    var ms := ParseMembers(doc, pos + 1, ArrayKind, true).value.tree;
    MembersUnfold(doc, pos + 1, ArrayKind, true);
    if !ms.Blank? {
      SkipWsTwice(doc, pos + 1);
      NotBlank(doc, pos + 1);
      ElementsInTree(doc, pos + 1, SkipWs(doc, pos + 1), true, i);
    } else {
      IsBlank(doc, pos + 1);
    }
  }

  lemma NotBlank(doc: bytes, pos: nat)
    requires pos <= |doc| && ParseMembers(doc, pos, ArrayKind, true).Some?
    requires !ParseMembers(doc, pos, ArrayKind, true).value.tree.Blank?
    ensures SkipWs(doc, pos) < |doc| && doc[SkipWs(doc, pos)] != RBRACKET
  {
  }

  lemma IsBlank(doc: bytes, pos: nat)
    requires pos <= |doc| && ParseMembers(doc, pos, ArrayKind, true).Some?
    requires ParseMembers(doc, pos, ArrayKind, true).value.tree.Blank?
    ensures SkipWs(doc, pos) < |doc| && doc[SkipWs(doc, pos)] == RBRACKET
  {
    hide SkipWs, ParseValue;
  }

  lemma ChildLookup(doc: bytes, s: Span, i: nat, q: Path)
    requires EndOf(ParseValue(doc, s.start)) == Some(s.end) && doc[s.start] == LBRACKET
    requires ParseValue(doc, s.start).value.tree.Container?
    ensures var ms := ParseValue(doc, s.start).value.tree.members;
      FindIn(doc, s, [Index(i)] + q)
      == match FindInMembers(ms, Index(i))
         case None => None
         case Some(place) => FindAt(doc, s.start + 1 + place.offset, q)
  {
    hide ParseMembers, FindMember, FindInMembers, FindIn, SkipWs;
    var v := ParseValue(doc, s.start).value;
    ValueStartsHere(doc, s.start);
    FindInSpan(doc, s.start, s.start, v.tree, s.end, [Index(i)] + q);
    FindMemberInTree(doc, s.start + 1, true, Index(i));
    assert ([Index(i)] + q)[1..] == q;
    assert s == Span(s.start, s.end, s.isString);
  }
}
