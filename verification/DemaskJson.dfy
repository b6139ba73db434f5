/**
 demask_json_arguments of demask/Demasker.hpp. The demasking of one text is a parameter
 (it may fail, as demask_all may throw), so what is proved here holds of the exact pass
 and of the tolerant pass alike.
 */
module DemaskJson {
  import opened Bytes
  import opened JsonGrammar
  import opened JsonScan
  import opened JsonLookup
  import opened JsonSplice
  import opened JsonLeaves
  import opened JsonSubst
  import JsonStrings

  /** One whole-text demask; None when a pass throws. */
  type Demask = bytes -> Option<bytes>

  // ---- Leaves come in order ----

  predicate LeavesWithin(leaves: seq<Leaf>, from: nat, to: nat) {
    && (forall leaf <- leaves :: from <= leaf.span.start < leaf.span.end <= to)
    && (forall i, j | 0 <= i < j < |leaves| :: leaves[i].span.end <= leaves[j].span.start)
  }

  lemma WithinConcat(a: seq<Leaf>, b: seq<Leaf>, from: nat, mid: nat, to: nat)
    requires LeavesWithin(a, from, mid) && LeavesWithin(b, mid, to) && from <= mid <= to
    ensures LeavesWithin(a + b, from, to)
  {
    var c := a + b;
    forall i, j | 0 <= i < j < |c| ensures c[i].span.end <= c[j].span.start {
      if i < |a| <= j {
        assert a[i] in a && b[j - |a|] in b;
      } else if i >= |a| {
        assert b[i - |a|].span.end <= b[j - |a|].span.start;
      }
    }
  }

  /** string_leaves visits string values in document order, with increasing spans that share no byte. */
  lemma {:induction false} LeavesInOrder(t: Json, base: nat, path: Path)
    requires Wf(t)
    ensures LeavesWithin(Leaves(t, base, path), base, base + |Flat(t)|)
    decreases t, 0
  {
    hide FlatMembers, LeavesOfMembers, WfMembers, IsScalar;
    match t
    case Scalar(text) =>
    case Container(kind, ms) =>
      assert WfMembers(kind, ms) by { WfContainer(t); }
      LeavesOfMembersInOrder(kind, ms, base + 1, path, 0);
  }

  lemma {:induction false} LeavesOfMembersInOrder(kind: Kind, ms: Members, base: nat, path: Path, i: nat)
    requires WfMembers(kind, ms)
    ensures LeavesWithin(LeavesOfMembers(kind, ms, base, path, i), base, base + |FlatMembers(kind, ms)|)
    decreases ms, 1
  {
    hide Flat, Leaves, LeavesWithin, Wf, SegOf, IsString, IsColon;
    match ms
    case Blank(_) => NoLeaves(base, base + |FlatMembers(kind, ms)|);
    case Last(m) =>
      var v := base + |Lead(m)|;
      LeavesInOrder(m.value, v, path + [SegOf(kind, m, i)]);
      assert FlatMembers(kind, ms) == Lead(m) + Flat(m.value) + m.post + [Close(kind)];
      Widen(Leaves(m.value, v, path + [SegOf(kind, m, i)]), v, v + |Flat(m.value)|, base, base + |FlatMembers(kind, ms)|);
    case More(m, rest) =>
      var v := base + |Lead(m)|;
      var q := base + |FlatMember(m)| + 1;
      LeavesInOrder(m.value, v, path + [SegOf(kind, m, i)]);
      var mine := Leaves(m.value, v, path + [SegOf(kind, m, i)]);
      Widen(mine, v, v + |Flat(m.value)|, base, q);
      LeavesOfMembersInOrder(kind, rest, q, path, i + 1);
      WithinConcat(mine, LeavesOfMembers(kind, rest, q, path, i + 1), base, q, q + |FlatMembers(kind, rest)|);
  }

  lemma NoLeaves(from: nat, to: nat)
    ensures LeavesWithin([], from, to)
  {
  }

  lemma Widen(leaves: seq<Leaf>, a: nat, b: nat, from: nat, to: nat)
    requires LeavesWithin(leaves, a, b) && from <= a && b <= to
    ensures LeavesWithin(leaves, from, to)
  {
  }

  // ---- What the structural pass does ----

  function TextAt(doc: bytes, s: Span): bytes {
    if InBounds(doc, s) then doc[s.start..s.end] else []
  }

  /** The literal that replaces a string literal: itself when demasking changes nothing. */
  function Image(f: Demask, text: bytes): bytes {
    var decoded := JsonStrings.Decode(text);
    match f(decoded)
    case None => text
    case Some(d) => if d == decoded then text else JsonStrings.Encode(d, true)
  }

  /** Every string value replaced by the image of its literal; keys and all other bytes kept. */
  function MapStrings(f: Demask, t: Json): Json
    decreases t, 0
  {
    match t
    case Scalar(text) => if IsStr(t) then Scalar(Image(f, text)) else t
    case Container(kind, ms) => Container(kind, MapMembers(f, ms))
  }

  function MapMembers(f: Demask, ms: Members): Members
    decreases ms, 2
  {
    match ms
    case Blank(_) => ms
    case Last(m) => Last(MapMember(f, m))
    case More(m, rest) => More(MapMember(f, m), MapMembers(f, rest))
  }

  function MapMember(f: Demask, m: Member): Member
    decreases m, 1
  {
    m.(value := MapStrings(f, m.value))
  }

  /** Decoded, the image of a string value is the demasked string. */
  lemma ImageDecodes(f: Demask, text: bytes)
    requires IsString(text) && f(JsonStrings.Decode(text)).Some?
    ensures JsonStrings.Decode(Image(f, text)) == f(JsonStrings.Decode(text)).value
    ensures IsString(Image(f, text))
    ensures f(JsonStrings.Decode(text)).value == JsonStrings.Decode(text) ==> Image(f, text) == text
  {
    JsonStrings.EncodeDecode(f(JsonStrings.Decode(text)).value);
  }

  /** No string value makes a pass throw. */
  predicate NoThrow(f: Demask, doc: bytes, leaves: seq<Leaf>) {
    forall leaf <- leaves :: f(JsonStrings.Decode(TextAt(doc, leaf.span))).Some?
  }

  /** `g` has exactly the changed leaves, each with its image. */
  predicate Collects(f: Demask, doc: bytes, leaves: seq<Leaf>, g: Texts) {
    && (forall leaf <- leaves ::
          if leaf.span.start in g then g[leaf.span.start] == Image(f, TextAt(doc, leaf.span))
          else Image(f, TextAt(doc, leaf.span)) == TextAt(doc, leaf.span))
    && (forall o <- g :: IsString(g[o]))
  }

  lemma {:induction false} EditsForKeepsPrefix(leaves: seq<Leaf>, g: Texts, o: nat, text: bytes)
    requires forall leaf <- leaves :: leaf.span.start != o
    ensures EditsFor(leaves, g[o := text]) == EditsFor(leaves, g)
    decreases |leaves|
  {
    if leaves != [] {
      assert leaves[0] in leaves;
      assert forall leaf <- leaves[1..] :: leaf in leaves;
      EditsForKeepsPrefix(leaves[1..], g, o, text);
    }
  }

  lemma EditsForSnoc(leaves: seq<Leaf>, leaf: Leaf, g: Texts)
    ensures EditsFor(leaves + [leaf], g)
         == EditsFor(leaves, g) + if leaf.span.start in g then [Edit(leaf.span, g[leaf.span.start])] else []
  {
    EditsForConcat(leaves, [leaf], g);
    assert [leaf][1..] == [];
    assert EditsFor([leaf], g) == if leaf.span.start in g then [Edit(leaf.span, g[leaf.span.start])] else [];
  }

  /** All starts in `g` come before `limit`. */
  predicate Before(g: Texts, limit: nat) {
    forall o <- g :: o < limit
  }

  /** One more leaf that demasking leaves alone. */
  lemma CollectSame(f: Demask, doc: bytes, leaves: seq<Leaf>, leaf: Leaf, g: Texts)
    requires Collects(f, doc, leaves, g) && Before(g, leaf.span.start)
    requires Image(f, TextAt(doc, leaf.span)) == TextAt(doc, leaf.span)
    ensures Collects(f, doc, leaves + [leaf], g)
    ensures EditsFor(leaves + [leaf], g) == EditsFor(leaves, g)
  {
    hide Image, IsString, TextAt, EditsFor;
    EditsForSnoc(leaves, leaf, g);
    assert forall l <- leaves + [leaf] :: l in leaves || l == leaf;
  }

  /** One more leaf that changes. */
  lemma CollectChanged(f: Demask, doc: bytes, leaves: seq<Leaf>, leaf: Leaf, g: Texts, literal: bytes)
    requires Collects(f, doc, leaves, g) && Before(g, leaf.span.start)
    requires forall l <- leaves :: l.span.start < leaf.span.start
    requires Image(f, TextAt(doc, leaf.span)) == literal && IsString(literal)
    ensures Collects(f, doc, leaves + [leaf], g[leaf.span.start := literal])
    ensures EditsFor(leaves + [leaf], g[leaf.span.start := literal]) == EditsFor(leaves, g) + [Edit(leaf.span, literal)]
  {
    hide Image, IsString, TextAt, EditsFor;
    EditsForKeepsPrefix(leaves, g, leaf.span.start, literal);
    EditsForSnoc(leaves, leaf, g[leaf.span.start := literal]);
    assert forall l <- leaves + [leaf] :: l in leaves || l == leaf;
  }

  lemma NoThrowSnoc(f: Demask, doc: bytes, leaves: seq<Leaf>, leaf: Leaf)
    requires NoThrow(f, doc, leaves) && f(JsonStrings.Decode(TextAt(doc, leaf.span))).Some?
    ensures NoThrow(f, doc, leaves + [leaf])
  {
    hide TextAt;
    assert forall l <- leaves + [leaf] :: l in leaves || l == leaf;
  }

  lemma Throws(f: Demask, doc: bytes, leaves: seq<Leaf>, leaf: Leaf)
    requires leaf in leaves && f(JsonStrings.Decode(TextAt(doc, leaf.span))).None?
    ensures !NoThrow(f, doc, leaves)
  {
  }

  /** The leaves before index `i` all start before leaf `i`. */
  lemma StartsBefore(leaves: seq<Leaf>, i: nat, from: nat, to: nat)
    requires LeavesWithin(leaves, from, to) && i < |leaves|
    ensures forall l <- leaves[..i] :: l.span.start < leaves[i].span.start
    ensures from <= leaves[i].span.start < leaves[i].span.end <= to
    ensures i + 1 < |leaves| ==> leaves[i].span.end <= leaves[i + 1].span.start
  {
    forall l | l in leaves[..i] ensures l.span.start < leaves[i].span.start {
      var k :| 0 <= k < i && leaves[k] == l;
      assert leaves[k] in leaves;
    }
    assert leaves[i] in leaves;
  }

  /** The loop over the leaves: the edits for the strings that change, or None when a pass throws. */
  method CollectEdits(f: Demask, doc: bytes, leaves: seq<Leaf>) returns (edits: Option<seq<Edit>>, ghost g: Texts)
    requires LeavesWithin(leaves, 0, |doc|)
    ensures edits.Some? <==> NoThrow(f, doc, leaves)
    ensures edits.Some? ==> edits.value == EditsFor(leaves, g) && Collects(f, doc, leaves, g)
    ensures edits.Some? && edits.value == [] ==> g == map[]
  {
    hide JsonStrings.Decode, JsonStrings.Encode, IsString, Collects, NoThrow, LeavesWithin, EditsFor;
    var out: seq<Edit> := [];
    g := map[];
    CollectNothing(f, doc, g);
    for i := 0 to |leaves|
      invariant out == EditsFor(leaves[..i], g)
      invariant Collects(f, doc, leaves[..i], g)
      invariant NoThrow(f, doc, leaves[..i])
      invariant i < |leaves| ==> Before(g, leaves[i].span.start)
      invariant out == [] ==> g == map[]
    {
      var leaf := leaves[i];
      StartsBefore(leaves, i, 0, |doc|);
      assert leaves[..i + 1] == leaves[..i] + [leaf];
      var quoted := doc[leaf.span.start..leaf.span.end];
      var decoded := JsonStrings.DecodeString(quoted);
      var demasked := f(decoded);
      if demasked.None? {
        Throws(f, doc, leaves, leaf);
        return None, g;
      }
      NoThrowSnoc(f, doc, leaves[..i], leaf);
      if demasked.value != decoded {
        var literal := JsonStrings.EncodeString(demasked.value, true);
        JsonStrings.EncodeDecode(demasked.value);
        CollectChanged(f, doc, leaves[..i], leaf, g, literal);
        out := out + [Edit(leaf.span, literal)];
        g := g[leaf.span.start := literal];
      } else {
        CollectSame(f, doc, leaves[..i], leaf, g);
      }
    }
    assert leaves[..|leaves|] == leaves;
    return Some(out), g;
  }

  lemma CollectNothing(f: Demask, doc: bytes, g: Texts)
    requires g == map[]
    ensures Collects(f, doc, [], g) && NoThrow(f, doc, []) && EditsFor([], g) == []
  {
  }

  /** Rewriting by offset with the collected literals is replacing every string value by its image. */
  lemma {:induction false} RewriteIsMap(f: Demask, doc: bytes, pos: nat, t: Json, path: Path, g: Texts)
    requires At(doc, pos, Flat(t)) && Collects(f, doc, Leaves(t, pos, path), g)
    ensures Rewrite(t, pos, g) == MapStrings(f, t)
    decreases t, 0
  {
    hide Image, IsString;
    match t
    case Scalar(text) =>
      if IsStr(t) {
        assert Leaves(t, pos, path)[0] in Leaves(t, pos, path);
        assert TextAt(doc, Span(pos, pos + |text|, true)) == text;
      }
    case Container(kind, ms) =>
      AtSplit(doc, pos, [Open(kind)], FlatMembers(kind, ms));
      RewriteMembersIsMap(f, doc, pos + 1, kind, ms, path, 0, g);
  }

  lemma {:induction false} RewriteMembersIsMap(f: Demask, doc: bytes, pos: nat, kind: Kind, ms: Members, path: Path, i: nat, g: Texts)
    requires At(doc, pos, FlatMembers(kind, ms)) && Collects(f, doc, LeavesOfMembers(kind, ms, pos, path, i), g)
    ensures RewriteMembers(ms, pos, g) == MapMembers(f, ms)
    decreases ms, 2
  {
    hide Image, IsString, Flat, Leaves, SegOf, Collects, FlatMember, Lead, At;
    match ms
    case Blank(_) =>
    case Last(m) =>
      ValueIsAt(doc, pos, m, Close(kind));
      RewriteIsMap(f, doc, pos + |Lead(m)|, m.value, path + [SegOf(kind, m, i)], g);
    case More(m, rest) =>
      var mine := Leaves(m.value, pos + |Lead(m)|, path + [SegOf(kind, m, i)]);
      var q := pos + |FlatMember(m)| + 1;
      CollectsParts(f, doc, mine, LeavesOfMembers(kind, rest, q, path, i + 1), g);
      AtSplit(doc, pos, FlatMember(m) + [COMMA], FlatMembers(kind, rest));
      ValueIsAt(doc, pos, m, COMMA);
      RewriteIsMap(f, doc, pos + |Lead(m)|, m.value, path + [SegOf(kind, m, i)], g);
      RewriteMembersIsMap(f, doc, q, kind, rest, path, i + 1, g);
  }

  lemma ValueIsAt(doc: bytes, pos: nat, m: Member, sep: byte)
    requires At(doc, pos, FlatMember(m) + [sep])
    ensures At(doc, pos + |Lead(m)|, Flat(m.value))
  {
    hide At, Flat, Lead;
    AtSplit(doc, pos, FlatMember(m), [sep]);
    AtSplit(doc, pos, Lead(m) + Flat(m.value), m.post);
    AtSplit(doc, pos, Lead(m), Flat(m.value));
  }

  lemma CollectsParts(f: Demask, doc: bytes, a: seq<Leaf>, b: seq<Leaf>, g: Texts)
    requires Collects(f, doc, a + b, g)
    ensures Collects(f, doc, a, g) && Collects(f, doc, b, g)
  {
    hide Image, IsString, TextAt;
    assert forall leaf <- a :: leaf in a + b;
    assert forall leaf <- b :: leaf in a + b;
  }

  // ---- The whole function ----

  /** The string values of the document's value. */
  function AllLeaves(doc: bytes): seq<Leaf> {
    LeavesAt(doc, [])
  }

  lemma AllLeavesOfValid(doc: bytes)
    requires IsValid(doc)
    ensures AllLeaves(doc) == Leaves(TreeOf(doc), Start(doc), [])
    ensures At(doc, Start(doc), Flat(TreeOf(doc)))
  {
    hide ParseValue, SkipWs, Flat, Leaves;
    SkipWsTwice(doc, 0);
    ValidParts(doc);
    LeavesAtUnfolds(doc, []);
  }

  lemma AllLeavesInOrder(doc: bytes)
    ensures LeavesWithin(AllLeaves(doc), 0, |doc|)
  {
    hide ParseValue, FindAt, Flat, Leaves, LeavesWithin;
    LeavesAtUnfolds(doc, []);
    var s := Find(doc, []);
    if s.Some? {
      var v := ParseValue(doc, s.value.start).value;
      ReadsItself(doc, s.value.start);
      ReadLength(doc, s.value.start, v.tree, v.end);
      LeavesInOrder(v.tree, s.value.start, []);
      Widen(Leaves(v.tree, s.value.start, []), s.value.start, v.end, 0, |doc|);
    } else {
      NoLeaves(0, |doc|);
    }
  }

  /** Whether the fast path, a raw demask of the whole document, is taken. */
  predicate NaiveWorks(f: Demask, raw: bytes) {
    f(raw).Some? && IsValid(f(raw).value)
  }

  /**
   Never broken JSON: the result is valid or it is the input. On valid input whose fast path
   fails, the structural pass is all or nothing: when no string value makes a pass throw, the
   result is valid and its tree is the input's with every string value replaced by its image,
   so the final validity check never rejects it.
   */
  method DemaskJsonArguments(f: Demask, raw: bytes) returns (out: bytes)
    ensures out == raw || IsValid(out)
    ensures raw != [] && NaiveWorks(f, raw) ==> out == f(raw).value
    ensures raw != [] && !NaiveWorks(f, raw) && !NoThrow(f, raw, AllLeaves(raw)) ==> out == raw
    ensures IsValid(raw) && !NaiveWorks(f, raw) && NoThrow(f, raw, AllLeaves(raw)) ==>
      IsValid(out) && TreeOf(out) == MapStrings(f, TreeOf(raw)) && Start(out) == Start(raw)
  {
    hide ParseValue, FindAt, Leaves, MapStrings, Patch, InOrder, LeavesAt, NoThrow, Collects, Flat, Applied;
    if raw == [] {
      EmptyIsInvalid();
      return raw;
    }
    var naive := f(raw);
    if naive.Some? {
      var ok := Valid(naive.value);
      if ok {
        return naive.value;
      }
    }
    var leaves := StringLeaves(raw, []);
    AllLeavesInOrder(raw);
    var edits, g := CollectEdits(f, raw, leaves);
    if edits.None? {
      return raw;
    }
    if edits.value == [] {
      if IsValid(raw) {
        NothingChanged(f, raw, g);
      }
      return raw;
    }
    var spliced := SpliceAll(raw, edits.value);
    ghost var order: seq<Edit> :| IsSortOf(order, edits.value) && spliced == Applied(raw, order);
    if IsValid(raw) {
      StructuralPass(f, raw, edits.value, order, g);
    }
    if spliced.Err? {
      return raw;
    }
    var ok := Valid(spliced.value);
    if !ok {
      return raw;
    }
    return spliced.value;
  }

  lemma EmptyIsInvalid()
    ensures !IsValid([])
  {
  }

  lemma NothingChanged(f: Demask, raw: bytes, g: Texts)
    requires IsValid(raw) && Collects(f, raw, AllLeaves(raw), g)
    requires g == map[]
    ensures MapStrings(f, TreeOf(raw)) == TreeOf(raw)
  {
    hide ParseValue, SkipWs, Flat, Leaves, MapStrings, Rewrite, Image, Collects, LeavesAt;
    AllLeavesOfValid(raw);
    var t, a := TreeOf(raw), Start(raw);
    RewriteIsMap(f, raw, a, t, [], g);
    RewriteNothing(t, a, [], g);
  }

  lemma {:induction false} RewriteNothing(t: Json, base: nat, path: Path, g: Texts)
    requires forall leaf <- Leaves(t, base, path) :: leaf.span.start !in g
    ensures Rewrite(t, base, g) == t
    decreases t, 0
  {
    match t
    case Scalar(_) => if IsStr(t) { assert Leaves(t, base, path)[0] in Leaves(t, base, path); }
    case Container(kind, ms) => RewriteNothingMembers(kind, ms, base + 1, path, 0, g);
  }

  lemma {:induction false} RewriteNothingMembers(kind: Kind, ms: Members, base: nat, path: Path, i: nat, g: Texts)
    requires forall leaf <- LeavesOfMembers(kind, ms, base, path, i) :: leaf.span.start !in g
    ensures RewriteMembers(ms, base, g) == ms
    decreases ms, 1
  {
    hide Leaves, Flat, SegOf;
    match ms
    case Blank(_) =>
    case Last(m) => RewriteNothing(m.value, base + |Lead(m)|, path + [SegOf(kind, m, i)], g);
    case More(m, rest) =>
      var mine := Leaves(m.value, base + |Lead(m)|, path + [SegOf(kind, m, i)]);
      var others := LeavesOfMembers(kind, rest, base + |FlatMember(m)| + 1, path, i + 1);
      assert forall leaf <- mine :: leaf in mine + others;
      assert forall leaf <- others :: leaf in mine + others;
      RewriteNothing(m.value, base + |Lead(m)|, path + [SegOf(kind, m, i)], g);
      RewriteNothingMembers(kind, rest, base + |FlatMember(m)| + 1, path, i + 1, g);
  }

  /** On valid JSON, splicing the collected literals gives valid JSON with the mapped tree. */
  lemma StructuralPass(f: Demask, raw: bytes, edits: seq<Edit>, order: seq<Edit>, g: Texts)
    requires IsValid(raw) && Collects(f, raw, AllLeaves(raw), g)
    requires edits == EditsFor(AllLeaves(raw), g) && IsSortOf(order, edits)
    ensures Applied(raw, order).Ok?
    ensures var out := Applied(raw, order).value;
      IsValid(out) && TreeOf(out) == MapStrings(f, TreeOf(raw)) && Start(out) == Start(raw)
  {
    hide ParseValue, SkipWs, Flat, Leaves, MapStrings, Rewrite, Image, LeavesAt, Applied, Patch, InOrder, EditsFor;
    AllLeavesOfValid(raw);
    AllLeavesInOrder(raw);
    var t, a := TreeOf(raw), Start(raw);
    RewriteIsMap(f, raw, a, t, [], g);
    PatchDocument(raw, g);
    EditsNonEmpty(AllLeaves(raw), g);
    SpliceAllPatches(raw, edits, edits, order);
  }

  lemma {:induction false} EditsNonEmpty(leaves: seq<Leaf>, g: Texts)
    requires forall leaf <- leaves :: leaf.span.start < leaf.span.end
    ensures NonEmpty(EditsFor(leaves, g))
    decreases |leaves|
  {
    if leaves != [] {
      assert leaves[0] in leaves;
      assert forall leaf <- leaves[1..] :: leaf in leaves;
      EditsNonEmpty(leaves[1..], g);
    }
  }
}
