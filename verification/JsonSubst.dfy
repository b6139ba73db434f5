/**
 What editing does to a whole valid document: splicing a value over the span of a path
 is substitution in the tree, and splicing string literals over string values is a
 rewriting of the tree that leaves every path where it was.
 */
module JsonSubst {
  import opened Bytes
  import opened JsonGrammar
  import opened JsonScan
  import opened JsonParsing
  import opened JsonLookup
  import opened JsonSplice
  import opened JsonLeaves

  // ---- Substitution in a tree ----

  function Subst(t: Json, path: Path, new_: Json): Json
    decreases |path|, 1
  {
    if path == [] then new_
    else if t.Container? && t.kind == KindFor(path[0]) then
      Container(t.kind, SubstMembers(t.members, path[0], path[1..], new_))
    else t
  }

  function SubstMembers(ms: Members, seg: Seg, rest: Path, new_: Json): Members
    decreases |rest| + 1, 0, ms
  {
    match ms
    case Blank(_) => ms
    case Last(m) => if Hits(m.key, seg) then Last(SubstMember(m, rest, new_)) else ms
    case More(m, others) =>
      if Hits(m.key, seg) then More(SubstMember(m, rest, new_), others)
      else More(m, SubstMembers(others, NextSeg(seg), rest, new_))
  }

  function SubstMember(m: Member, rest: Path, new_: Json): Member
    decreases |rest|, 2
  {
    m.(value := Subst(m.value, rest, new_))
  }

  lemma ReplacedInside<T>(x: seq<T>, s: seq<T>, y: seq<T>, a: nat, b: nat, r: seq<T>)
    requires a <= b <= |s|
    ensures Replaced(x + s + y, |x| + a, |x| + b, r) == x + Replaced(s, a, b, r) + y
  {
    var w := x + s + y;
    assert w[..|x| + a] == x + s[..a];
    assert w[|x| + b..] == s[b..] + y;
  }

  /** The bytes of a substituted tree are the bytes of the tree, spliced. */
  lemma {:induction false} SubstFlat(t: Json, path: Path, new_: Json)
    requires Locate(t, path).Some?
    ensures var p := Locate(t, path).value;
      && p.offset + |Flat(p.value)| <= |Flat(t)|
      && Flat(Subst(t, path, new_)) == Replaced(Flat(t), p.offset, p.offset + |Flat(p.value)|, Flat(new_))
    decreases |path|, 1
  {
    hide FindInMembers, SubstMembers, FlatMembers;
    PlaceInTree(t, path);
    if path != [] {
      var c := FindInMembers(t.members, path[0]).value;
      var q := Locate(c.value, path[1..]).value;
      SubstMembersFlat(t.kind, t.members, path[0], path[1..], new_);
      var a := c.offset + q.offset;
      ReplacedInside([Open(t.kind)], FlatMembers(t.kind, t.members), [], a, a + |Flat(q.value)|, Flat(new_));
    }
  }

  lemma {:induction false} SubstMembersFlat(kind: Kind, ms: Members, seg: Seg, rest: Path, new_: Json)
    requires FindInMembers(ms, seg).Some? && Locate(FindInMembers(ms, seg).value.value, rest).Some?
    ensures var c := FindInMembers(ms, seg).value;
      var q := Locate(c.value, rest).value;
      var a := c.offset + q.offset;
      && a + |Flat(q.value)| <= |FlatMembers(kind, ms)|
      && FlatMembers(kind, SubstMembers(ms, seg, rest, new_)) == Replaced(FlatMembers(kind, ms), a, a + |Flat(q.value)|, Flat(new_))
    decreases |rest| + 1, 0, ms
  {
    hide Flat, Locate, Hits, FlatMember, SubstMember, Subst, Lead, Replaced;
    match ms
    case Last(m) =>
      SubstMemberFlat(m, rest, new_, [Close(kind)]);
    case More(m, others) =>
      FlatMore(kind, m, others);
      if Hits(m.key, seg) {
        SubstMemberFlat(m, rest, new_, [COMMA] + FlatMembers(kind, others));
        FlatMore(kind, SubstMember(m, rest, new_), others);
      } else {
        SubstMembersFlat(kind, others, NextSeg(seg), rest, new_);
        var c := FindInMembers(others, NextSeg(seg)).value;
        var q := Locate(c.value, rest).value;
        ReplacedAfter(FlatMember(m) + [COMMA], FlatMembers(kind, others), c.offset + q.offset, c.offset + q.offset + |Flat(q.value)|, Flat(new_));
      }
  }

  lemma FlatMore(kind: Kind, m: Member, others: Members)
    ensures FlatMembers(kind, More(m, others)) == FlatMember(m) + ([COMMA] + FlatMembers(kind, others))
  {
    hide FlatMember;
    Join3(FlatMember(m), [COMMA], FlatMembers(kind, others));
  }

  lemma ReplacedAfter(x: bytes, s: bytes, a: nat, b: nat, r: bytes)
    requires a <= b <= |s|
    ensures Replaced(x + s, |x| + a, |x| + b, r) == x + Replaced(s, a, b, r)
  {
    ReplacedInside(x, s, [], a, b, r);
    assert x + s + [] == x + s;
    assert x + Replaced(s, a, b, r) + [] == x + Replaced(s, a, b, r);
  }

  lemma {:induction false} SubstMemberFlat(m: Member, rest: Path, new_: Json, tail: bytes)
    requires Locate(m.value, rest).Some?
    ensures var q := Locate(m.value, rest).value;
      var a := |Lead(m)| + q.offset;
      && a + |Flat(q.value)| <= |FlatMember(m) + tail|
      && FlatMember(SubstMember(m, rest, new_)) + tail == Replaced(FlatMember(m) + tail, a, a + |Flat(q.value)|, Flat(new_))
    decreases |rest|, 2
  {
    hide Flat, Locate, Subst;
    var q := Locate(m.value, rest).value;
    SubstFlat(m.value, rest, new_);
    ReplacedInside(Lead(m), Flat(m.value), m.post + tail, q.offset, q.offset + |Flat(q.value)|, Flat(new_));
    Join3(Lead(m) + Flat(m.value), m.post, tail);
    assert Lead(SubstMember(m, rest, new_)) == Lead(m);
    Join3(Lead(m) + Flat(Subst(m.value, rest, new_)), m.post, tail);
  }

  lemma {:induction false} SubstWf(t: Json, path: Path, new_: Json)
    requires Wf(t) && Wf(new_)
    ensures Wf(Subst(t, path, new_))
    decreases |path|, 1
  {
    if path != [] && t.Container? && t.kind == KindFor(path[0]) {
      SubstMembersWf(t.kind, t.members, path[0], path[1..], new_);
    }
  }

  lemma {:induction false} SubstMembersWf(kind: Kind, ms: Members, seg: Seg, rest: Path, new_: Json)
    requires WfMembers(kind, ms) && Wf(new_)
    ensures WfMembers(kind, SubstMembers(ms, seg, rest, new_))
    ensures SubstMembers(ms, seg, rest, new_).Blank? <==> ms.Blank?
    decreases |rest| + 1, 0, ms
  {
    match ms
    case Blank(_) =>
    case Last(m) => SubstWf(m.value, rest, new_);
    case More(m, others) =>
      if Hits(m.key, seg) {
        SubstWf(m.value, rest, new_);
      } else {
        SubstMembersWf(kind, others, NextSeg(seg), rest, new_);
      }
  }

  /** The path leads to the new value, which starts where the old one did. */
  lemma {:induction false} LocateSubst(t: Json, path: Path, new_: Json)
    requires Locate(t, path).Some?
    ensures Locate(Subst(t, path, new_), path) == Some(Place(Locate(t, path).value.offset, new_))
    decreases |path|, 1
  {
    hide FindInMembers, SubstMembers;
    LocateUnfolds(t, path);
    LocateUnfolds(Subst(t, path, new_), path);
    if path != [] {
      var c := FindInMembers(t.members, path[0]).value;
      FindInSubstMembers(t.members, path[0], path[1..], new_);
      LocateSubst(c.value, path[1..], new_);
    }
  }

  lemma {:induction false} FindInSubstMembers(ms: Members, seg: Seg, rest: Path, new_: Json)
    requires FindInMembers(ms, seg).Some?
    ensures var c := FindInMembers(ms, seg).value;
      FindInMembers(SubstMembers(ms, seg, rest, new_), seg) == Some(Place(c.offset, Subst(c.value, rest, new_)))
    decreases ms
  {
    hide Subst, Hits, Flat;
    match ms
    case Last(m) =>
    case More(m, others) =>
      if !Hits(m.key, seg) {
        FindInSubstMembers(others, NextSeg(seg), rest, new_);
      }
  }

  /** Neither path goes through the place the other leads to. */
  predicate Diverge(p: Path, q: Path) {
    p != [] && q != [] && (p[0] != q[0] || Diverge(p[1..], q[1..]))
  }

  /** The value a path leads to, wherever it stands. */
  function ValueAt(t: Json, path: Path): Option<Json> {
    match Locate(t, path)
    case None => None
    case Some(p) => Some(p.value)
  }

  function MemberValue(ms: Members, seg: Seg): Option<Json> {
    match FindInMembers(ms, seg)
    case None => None
    case Some(p) => Some(p.value)
  }

  lemma {:induction false} OtherMember(ms: Members, seg: Seg, other: Seg, rest: Path, new_: Json)
    requires seg != other && KindFor(seg) == KindFor(other)
    ensures MemberValue(SubstMembers(ms, seg, rest, new_), other) == MemberValue(ms, other)
    decreases ms
  {
    hide Subst, Flat;
    match ms
    case Blank(_) =>
    case Last(m) =>
    case More(m, others) =>
      if !Hits(m.key, seg) && !Hits(m.key, other) {
        OtherMember(others, NextSeg(seg), NextSeg(other), rest, new_);
      }
  }

  lemma SameMember(ms: Members, seg: Seg, rest: Path, new_: Json)
    ensures FindInMembers(ms, seg) == None ==> SubstMembers(ms, seg, rest, new_) == ms
    decreases ms
  {
  }

  /** A path that diverges from the substituted one leads to the value it led to before. */
  lemma {:induction false} ValueAtOther(t: Json, p: Path, q: Path, new_: Json)
    requires Diverge(p, q)
    ensures ValueAt(Subst(t, p, new_), q) == ValueAt(t, q)
    decreases |p|
  {
    hide FindInMembers, SubstMembers;
    var u := Subst(t, p, new_);
    LocateUnfolds(t, q);
    LocateUnfolds(u, q);
    if t.Container? && t.kind == KindFor(p[0]) && t.kind == KindFor(q[0]) {
      if p[0] != q[0] {
        OtherMember(t.members, p[0], q[0], p[1..], new_);
      } else {
        SameMember(t.members, p[0], p[1..], new_);
        if FindInMembers(t.members, p[0]).Some? {
          FindInSubstMembers(t.members, p[0], p[1..], new_);
          ValueAtOther(FindInMembers(t.members, p[0]).value.value, p[1..], q[1..], new_);
        }
      }
    }
  }

  // ---- Valid documents ----

  function Start(doc: bytes): nat {
    SkipWs(doc, 0)
  }

  /** The value of a valid document. */
  function TreeOf(doc: bytes): Json
    requires IsValid(doc)
  {
    SkipWsTwice(doc, 0);
    ParseValue(doc, Start(doc)).value.tree
  }

  lemma ValidParts(doc: bytes)
    requires IsValid(doc)
    ensures Start(doc) <= Start(doc) + |Flat(TreeOf(doc))| <= |doc|
    ensures var e := Start(doc) + |Flat(TreeOf(doc))|;
      && IsText(doc, doc[..Start(doc)], TreeOf(doc), doc[e..])
      && At(doc, Start(doc), Flat(TreeOf(doc)))
      && ReadsAs(doc, Start(doc), TreeOf(doc), e)
  {
    hide ParseValue, SkipWs, Wf, Flat;
    SkipWsTwice(doc, 0);
    ValidIsText(doc);
    var v := ParseValue(doc, Start(doc)).value;
    ReadsItself(doc, Start(doc));
    ReadLength(doc, Start(doc), v.tree, v.end);
  }

  /** The same white space around another value. */
  lemma Rewrap(doc: bytes, t: Json, out: bytes)
    requires IsValid(doc) && Wf(t)
    requires var e := Start(doc) + |Flat(TreeOf(doc))|; e <= |doc| && Start(doc) <= |doc| && out == doc[..Start(doc)] + Flat(t) + doc[e..]
    ensures IsValid(out) && Start(out) == Start(doc) && TreeOf(out) == t
  {
    hide ParseValue, SkipWs, Wf, Flat;
    ValidParts(doc);
    var e := Start(doc) + |Flat(TreeOf(doc))|;
    TextIsValid(out, doc[..Start(doc)], t, doc[e..]);
    SkipWsTwice(out, 0);
  }

  lemma FindInValid(doc: bytes, path: Path)
    requires IsValid(doc)
    ensures Find(doc, path) == SpanOf(Start(doc), Locate(TreeOf(doc), path))
  {
    hide ParseValue, SkipWs, FindAt, Locate;
    SkipWsTwice(doc, 0);
    ValidIsText(doc);
    FindInTree(doc, Start(doc), path);
  }

  /** `v` is one value with no white space around it. */
  ghost predicate IsValueText(v: bytes) {
    exists t :: Wf(t) && Flat(t) == v
  }

  /**
   Substitution keeps the document: splicing one complete value over the span found for
   a path gives a valid document in which the path leads to exactly the new value, every
   byte outside the span is kept, and every diverging path leads to the bytes it led to.
   */
  lemma SubstitutionKeepsDocument(doc: bytes, path: Path, v: bytes)
    requires IsValid(doc) && Find(doc, path).Some? && IsValueText(v)
    ensures var s := Find(doc, path).value;
      && InBounds(doc, s)
      && var out := Replaced(doc, s.start, s.end, v);
      && IsValid(out)
      && Find(out, path) == Some(Span(s.start, s.start + |v|, v[0] == QUOTE))
      && out[..s.start] == doc[..s.start] && out[s.start + |v|..] == doc[s.end..]
      && (forall q | Diverge(path, q) :: SameBytes(doc, Find(doc, q), out, Find(out, q)))
  {
    hide ParseValue, SkipWs, FindAt, Wf, Flat, Locate, Subst;
    var s := Find(doc, path).value;
    var t :| Wf(t) && Flat(t) == v;
    SubstituteTree(doc, path, t);
    var out := Replaced(doc, s.start, s.end, v);
    FlatNonEmpty(t);
    FindInValid(doc, path);
    FindInValid(out, path);
    LocateSubst(TreeOf(doc), path, t);
    forall q | Diverge(path, q) ensures SameBytes(doc, Find(doc, q), out, Find(out, q)) {
      ValueAtOther(TreeOf(doc), path, q, t);
      FoundBytes(doc, q);
      FoundBytes(out, q);
      SameValueSameBytes(doc, out, q);
    }
  }

  lemma SameValueSameBytes(doc: bytes, out: bytes, q: Path)
    requires IsValid(doc) && IsValid(out) && ValueAt(TreeOf(out), q) == ValueAt(TreeOf(doc), q)
    requires FoundAs(doc, q, ValueAt(TreeOf(doc), q)) && FoundAs(out, q, ValueAt(TreeOf(out), q))
    ensures SameBytes(doc, Find(doc, q), out, Find(out, q))
  {
    hide FindAt, SkipWs, TreeOf, ValueAt;
  }

  /** Two lookups that both fail, or find the same bytes. */
  predicate SameBytes(doc: bytes, a: Option<Span>, out: bytes, b: Option<Span>) {
    match (a, b)
    case (None, None) => true
    case (Some(s), Some(u)) => InBounds(doc, s) && InBounds(out, u) && doc[s.start..s.end] == out[u.start..u.end] && s.isString == u.isString
    case _ => false
  }

  predicate FoundAs(doc: bytes, q: Path, v: Option<Json>) {
    match (Find(doc, q), v)
    case (None, None) => true
    case (Some(s), Some(t)) => InBounds(doc, s) && doc[s.start..s.end] == Flat(t) && s.isString == IsStr(t)
    case _ => false
  }

  lemma FoundBytes(doc: bytes, q: Path)
    requires IsValid(doc)
    ensures FoundAs(doc, q, ValueAt(TreeOf(doc), q))
  {
    hide ParseValue, SkipWs, FindAt, Wf, Flat, Locate;
    FindInValid(doc, q);
    ValidParts(doc);
    if Locate(TreeOf(doc), q).Some? {
      var p := Locate(TreeOf(doc), q).value;
      FindInTree(doc, Start(doc), q);
      ReadLength(doc, Start(doc) + p.offset, p.value, Start(doc) + p.offset + |Flat(p.value)|);
    }
  }

  lemma TextAround(doc: bytes)
    requires IsValid(doc)
    ensures var e := Start(doc) + |Flat(TreeOf(doc))|;
      Start(doc) <= e <= |doc| && doc == doc[..Start(doc)] + Flat(TreeOf(doc)) + doc[e..] && Wf(TreeOf(doc))
  {
    hide ParseValue, SkipWs, Wf, Flat, ReadsAs;
    ValidParts(doc);
  }

  lemma SubstituteTree(doc: bytes, path: Path, t: Json)
    requires IsValid(doc) && Find(doc, path).Some? && Wf(t)
    ensures var s := Find(doc, path).value;
      && InBounds(doc, s)
      && var out := Replaced(doc, s.start, s.end, Flat(t));
      && IsValid(out) && Start(out) == Start(doc) && TreeOf(out) == Subst(TreeOf(doc), path, t)
  {
    hide ParseValue, SkipWs, FindAt, Wf, Flat, Locate, Subst, IsText, ReadsAs, IsValid, Start, TreeOf;
    FindInValid(doc, path);
    ValidParts(doc);
    TextAround(doc);
    var tree := TreeOf(doc);
    var p := Locate(tree, path).value;
    var a := Start(doc);
    var e := a + |Flat(tree)|;
    SubstFlat(tree, path, t);
    ReplacedInside(doc[..a], Flat(tree), doc[e..], p.offset, p.offset + |Flat(p.value)|, Flat(t));
    SubstWf(tree, path, t);
    Rewrap(doc, Subst(tree, path, t), Replaced(doc, a + p.offset, a + p.offset + |Flat(p.value)|, Flat(t)));
  }

  /** Patching string values of a valid document rewrites its tree, and nothing else. */
  lemma PatchDocument(doc: bytes, g: Texts)
    requires IsValid(doc) && forall o <- g :: IsString(g[o])
    ensures var edits := EditsFor(Leaves(TreeOf(doc), Start(doc), []), g);
      && InOrder(edits, 0, |doc|)
      && var out := Patch(doc, 0, |doc|, edits);
      && IsValid(out) && Start(out) == Start(doc) && TreeOf(out) == Rewrite(TreeOf(doc), Start(doc), g)
  {
    hide ParseValue, SkipWs, Wf, Flat, Leaves, Rewrite, InOrder, Patch;
    ValidParts(doc);
    var t := TreeOf(doc);
    var a := Start(doc);
    var e := a + |Flat(t)|;
    var edits := EditsFor(Leaves(t, a, []), g);
    PatchTree(doc, a, t, [], g);
    PatchSuffix(doc, a, e, |doc|, edits);
    PatchPrefix(doc, 0, a, |doc|, edits);
    RewriteWf(t, a, g);
    Join3(doc[..a], Flat(Rewrite(t, a, g)), doc[e..]);
    Rewrap(doc, Rewrite(t, a, g), Patch(doc, 0, |doc|, edits));
  }
}
