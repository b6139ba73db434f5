/**
 The string values of a document: string_leaves of Json.hpp, and what rewriting some of
 them by span does to the document and to every lookup in it.
 */
module JsonLeaves {
  import opened Bytes
  import opened JsonGrammar
  import opened JsonScan
  import opened JsonParsing
  import opened JsonLookup
  import opened JsonSplice
  import JsonStrings

  /** One string value, with its path and its span. */
  datatype Leaf = Leaf(path: Path, span: Span)

  /** The path segment of a member: its decoded key, or its index `i`. */
  function SegOf(kind: Kind, m: Member, i: nat): Seg {
    if kind.ArrayKind? then Index(i) else Key(JsonStrings.Decode(m.key))
  }

  // ---- String values in document order, keys left out ----

  function Leaves(t: Json, base: nat, path: Path): seq<Leaf>
    decreases t, 0
  {
    match t
    case Scalar(text) => if IsStr(t) then [Leaf(path, Span(base, base + |text|, true))] else []
    case Container(kind, ms) => LeavesOfMembers(kind, ms, base + 1, path, 0)
  }

  function LeavesOfMembers(kind: Kind, ms: Members, base: nat, path: Path, i: nat): seq<Leaf>
    decreases ms, 1
  {
    match ms
    case Blank(_) => []
    case Last(m) => Leaves(m.value, base + |Lead(m)|, path + [SegOf(kind, m, i)])
    case More(m, rest) =>
      Leaves(m.value, base + |Lead(m)|, path + [SegOf(kind, m, i)])
      + LeavesOfMembers(kind, rest, base + |FlatMember(m)| + 1, path, i + 1)
  }

  // ---- Rewriting string values ----

  /** New literals for string values, by the offset of the old ones. */
  type Texts = map<nat, bytes>

  function Rewrite(t: Json, base: nat, g: Texts): Json
    decreases t, 0
  {
    match t
    case Scalar(text) => if IsStr(t) && base in g then Scalar(g[base]) else t
    case Container(kind, ms) => Container(kind, RewriteMembers(ms, base + 1, g))
  }

  function RewriteMembers(ms: Members, base: nat, g: Texts): Members
    decreases ms, 2
  {
    match ms
    case Blank(_) => ms
    case Last(m) => Last(RewriteMember(m, base, g))
    case More(m, rest) => More(RewriteMember(m, base, g), RewriteMembers(rest, base + |FlatMember(m)| + 1, g))
  }

  function RewriteMember(m: Member, base: nat, g: Texts): Member
    decreases m, 1
  {
    m.(value := Rewrite(m.value, base + |Lead(m)|, g))
  }

  /** The edits that put the new literals in, in the order of the leaves. */
  function EditsFor(leaves: seq<Leaf>, g: Texts): seq<Edit> {
    if leaves == [] then []
    else
      (if leaves[0].span.start in g then [Edit(leaves[0].span, g[leaves[0].span.start])] else [])
      + EditsFor(leaves[1..], g)
  }

  lemma {:induction false} EditsForConcat(a: seq<Leaf>, b: seq<Leaf>, g: Texts)
    ensures EditsFor(a + b, g) == EditsFor(a, g) + EditsFor(b, g)
    decreases |a|
  {
    if a == [] {
      assert a + b == b;
    } else {
      assert (a + b)[1..] == a[1..] + b;
      EditsForConcat(a[1..], b, g);
    }
  }

  lemma {:induction false} PatchConcat(doc: bytes, a: nat, b: nat, c: nat, e1: seq<Edit>, e2: seq<Edit>)
    requires InOrder(e1, a, b) && InOrder(e2, b, c) && b <= c <= |doc|
    ensures InOrder(e1 + e2, a, c)
    ensures Patch(doc, a, c, e1 + e2) == Patch(doc, a, b, e1) + Patch(doc, b, c, e2)
    decreases |e1|
  {
    if e1 == [] {
      assert e1 + e2 == e2;
      PatchPrefix(doc, a, b, c, e2);
    } else {
      var e := e1[0];
      assert (e1 + e2)[1..] == e1[1..] + e2 && (e1 + e2)[0] == e;
      PatchConcat(doc, e.span.end, b, c, e1[1..], e2);
      Join3(doc[a..e.span.start] + e.text, Patch(doc, e.span.end, b, e1[1..]), Patch(doc, b, c, e2));
    }
  }

  /** Bytes before the first edit are kept. */
  lemma PatchPrefix(doc: bytes, a: nat, b: nat, c: nat, edits: seq<Edit>)
    requires a <= b && InOrder(edits, b, c) && c <= |doc|
    ensures b <= c && InOrder(edits, a, c)
    ensures Patch(doc, a, c, edits) == doc[a..b] + Patch(doc, b, c, edits)
  {
    OrderedBounds(edits, b, c);
    if edits == [] {
      SliceJoin(doc, a, b, c);
    } else {
      var s, text := edits[0].span.start, edits[0].text;
      var tail := Patch(doc, edits[0].span.end, c, edits[1..]);
      SliceJoin(doc, a, b, s);
      Associative(doc[a..b], doc[b..s], text, tail);
    }
  }

  lemma Associative(a: bytes, b: bytes, c: bytes, d: bytes)
    ensures (a + b) + c + d == a + (b + c + d)
  {
  }

  /** Bytes after the last edit are kept. */
  lemma {:induction false} PatchSuffix(doc: bytes, a: nat, b: nat, c: nat, edits: seq<Edit>)
    requires InOrder(edits, a, b) && b <= c <= |doc|
    ensures InOrder(edits, a, c)
    ensures Patch(doc, a, c, edits) == Patch(doc, a, b, edits) + doc[b..c]
  {
    PatchConcat(doc, a, b, c, edits, []);
    assert edits + [] == edits;
  }

  /** Patching the leaves of the tree at `pos` writes the rewritten tree. */
  lemma {:induction false} PatchTree(doc: bytes, pos: nat, t: Json, path: Path, g: Texts)
    requires At(doc, pos, Flat(t)) && Wf(t)
    ensures var edits := EditsFor(Leaves(t, pos, path), g);
      InOrder(edits, pos, pos + |Flat(t)|) && Patch(doc, pos, pos + |Flat(t)|, edits) == Flat(Rewrite(t, pos, g))
    decreases t, 0
  {
    hide Wf, FlatMembers, LeavesOfMembers, RewriteMembers;
    match t
    case Scalar(text) =>
      var leaves := Leaves(t, pos, path);
      if IsStr(t) && pos in g {
        assert leaves[1..] == [];
        assert EditsFor(leaves, g) == [Edit(Span(pos, pos + |text|, true), g[pos])];
      } else if IsStr(t) {
        assert leaves[1..] == [];
        assert EditsFor(leaves, g) == [];
      }
    case Container(kind, ms) =>
      assert WfMembers(kind, ms) by { WfContainer(t); }
      AtSplit(doc, pos, [Open(kind)], FlatMembers(kind, ms));
      PatchMembers(doc, pos + 1, kind, ms, path, 0, g);
      PatchPrefix(doc, pos, pos + 1, pos + |Flat(t)|, EditsFor(Leaves(t, pos, path), g));
      assert doc[pos..pos + 1] == [Open(kind)];
  }

  lemma WfContainer(t: Json)
    requires Wf(t) && t.Container?
    ensures WfMembers(t.kind, t.members)
  {
  }

  lemma {:induction false} PatchMembers(doc: bytes, pos: nat, kind: Kind, ms: Members, path: Path, i: nat, g: Texts)
    requires At(doc, pos, FlatMembers(kind, ms)) && WfMembers(kind, ms)
    ensures var edits := EditsFor(LeavesOfMembers(kind, ms, pos, path, i), g);
      var end := pos + |FlatMembers(kind, ms)|;
      InOrder(edits, pos, end) && Patch(doc, pos, end, edits) == FlatMembers(kind, RewriteMembers(ms, pos, g))
    decreases ms, 2
  {
    hide Flat, Wf, Leaves, Rewrite, InOrder, Patch, FlatMember, WfMember, RewriteMember, Lead, SegOf, FlatMembers, LeavesOfMembers, RewriteMembers;
    match ms
    case Blank(pad) =>
      BlankUnfolds(kind, pad, pos, path, i, g);
      PatchNone(doc, pos, pos + |FlatMembers(kind, ms)|);
    case Last(m) =>
      LastUnfolds(kind, m, pos, path, i, g);
      PatchMemberThen(doc, pos, kind, m, Close(kind), path + [SegOf(kind, m, i)], g);
    case More(m, rest) =>
      MoreUnfolds(kind, m, rest, pos, path, i, g);
      var here := path + [SegOf(kind, m, i)];
      var q := pos + |FlatMember(m)| + 1;
      AtSplit(doc, pos, FlatMember(m) + [COMMA], FlatMembers(kind, rest));
      PatchMemberThen(doc, pos, kind, m, COMMA, here, g);
      PatchMembers(doc, q, kind, rest, path, i + 1, g);
      var mine := Leaves(m.value, pos + |Lead(m)|, here);
      var others := LeavesOfMembers(kind, rest, q, path, i + 1);
      EditsForConcat(mine, others, g);
      PatchConcat(doc, pos, q, q + |FlatMembers(kind, rest)|, EditsFor(mine, g), EditsFor(others, g));
  }

  lemma BlankUnfolds(kind: Kind, pad: bytes, pos: nat, path: Path, i: nat, g: Texts)
    ensures FlatMembers(kind, Blank(pad)) == pad + [Close(kind)]
    ensures LeavesOfMembers(kind, Blank(pad), pos, path, i) == []
    ensures RewriteMembers(Blank(pad), pos, g) == Blank(pad)
  {
  }

  lemma LastUnfolds(kind: Kind, m: Member, pos: nat, path: Path, i: nat, g: Texts)
    ensures FlatMembers(kind, Last(m)) == FlatMember(m) + [Close(kind)]
    ensures LeavesOfMembers(kind, Last(m), pos, path, i) == Leaves(m.value, pos + |Lead(m)|, path + [SegOf(kind, m, i)])
    ensures RewriteMembers(Last(m), pos, g) == Last(RewriteMember(m, pos, g))
    ensures FlatMembers(kind, RewriteMembers(Last(m), pos, g)) == FlatMember(RewriteMember(m, pos, g)) + [Close(kind)]
  {
    hide FlatMember, RewriteMember, Leaves;
  }

  lemma MoreUnfolds(kind: Kind, m: Member, rest: Members, pos: nat, path: Path, i: nat, g: Texts)
    ensures FlatMembers(kind, More(m, rest)) == FlatMember(m) + [COMMA] + FlatMembers(kind, rest)
    ensures LeavesOfMembers(kind, More(m, rest), pos, path, i)
         == Leaves(m.value, pos + |Lead(m)|, path + [SegOf(kind, m, i)])
            + LeavesOfMembers(kind, rest, pos + |FlatMember(m)| + 1, path, i + 1)
    ensures FlatMembers(kind, RewriteMembers(More(m, rest), pos, g))
         == FlatMember(RewriteMember(m, pos, g)) + [COMMA] + FlatMembers(kind, RewriteMembers(rest, pos + |FlatMember(m)| + 1, g))
  {
    hide FlatMember, RewriteMember, Leaves;
  }

  /** A member and the byte after it. */
  lemma {:induction false} PatchMemberThen(doc: bytes, pos: nat, kind: Kind, m: Member, sep: byte, path: Path, g: Texts)
    requires At(doc, pos, FlatMember(m) + [sep]) && WfMember(kind, m)
    ensures var edits := EditsFor(Leaves(m.value, pos + |Lead(m)|, path), g);
      var end := pos + |FlatMember(m)| + 1;
      InOrder(edits, pos, end) && Patch(doc, pos, end, edits) == FlatMember(RewriteMember(m, pos, g)) + [sep]
    decreases m, 2
  {
    hide Flat, Leaves, Rewrite, InOrder, Patch, FlatMember, WfMember, RewriteMember, Lead;
    var q := pos + |FlatMember(m)|;
    AtSplit(doc, pos, FlatMember(m), [sep]);
    AtMeans(doc, q, [sep]);
    PatchMember(doc, pos, kind, m, path, g);
    PatchSuffix(doc, pos, q, q + 1, EditsFor(Leaves(m.value, pos + |Lead(m)|, path), g));
  }

  lemma PatchNone(doc: bytes, from: nat, to: nat)
    requires from <= to <= |doc|
    ensures InOrder([], from, to) && Patch(doc, from, to, []) == doc[from..to]
  {
  }

  lemma {:induction false} PatchMember(doc: bytes, pos: nat, kind: Kind, m: Member, path: Path, g: Texts)
    requires At(doc, pos, FlatMember(m)) && WfMember(kind, m)
    ensures var edits := EditsFor(Leaves(m.value, pos + |Lead(m)|, path), g);
      var end := pos + |FlatMember(m)|;
      InOrder(edits, pos, end) && Patch(doc, pos, end, edits) == FlatMember(RewriteMember(m, pos, g))
    decreases m, 1
  {
    hide Flat, Leaves, Rewrite, InOrder, Patch, Wf, Lead, EditsFor, RewriteMember, Ws, IsString, IsColon;
    var v := pos + |Lead(m)|;
    var e := v + |Flat(m.value)|;
    var end := e + |m.post|;
    assert FlatMember(m) == Lead(m) + Flat(m.value) + m.post;
    AtSplit(doc, pos, Lead(m) + Flat(m.value), m.post);
    AtSplit(doc, pos, Lead(m), Flat(m.value));
    AtMeans(doc, pos, Lead(m));
    AtMeans(doc, e, m.post);
    PatchTree(doc, v, m.value, path, g);
    var edits := EditsFor(Leaves(m.value, v, path), g);
    var r := Flat(Rewrite(m.value, v, g));
    PatchSuffix(doc, v, e, end, edits);
    PatchPrefix(doc, pos, v, end, edits);
    LeadKept(m, pos, g);
    Join3(Lead(m), r, m.post);
  }

  lemma LeadKept(m: Member, base: nat, g: Texts)
    ensures Lead(RewriteMember(m, base, g)) == Lead(m)
    ensures RewriteMember(m, base, g).value == Rewrite(m.value, base + |Lead(m)|, g)
    ensures RewriteMember(m, base, g).post == m.post && RewriteMember(m, base, g).key == m.key
  {
  }

  lemma {:induction false} RewriteWf(t: Json, base: nat, g: Texts)
    requires Wf(t) && forall o <- g :: IsString(g[o])
    ensures Wf(Rewrite(t, base, g))
    ensures IsStr(Rewrite(t, base, g)) <==> IsStr(t)
    decreases t, 0
  {
    hide IsString;
    match t
    case Scalar(_) => if IsStr(t) && base in g { StringStarts(g[base]); }
    case Container(kind, ms) => RewriteMembersWf(kind, ms, base + 1, g);
  }

  lemma StringStarts(s: bytes)
    requires IsString(s)
    ensures |s| > 0 && s[0] == QUOTE
  {
  }

  lemma {:induction false} RewriteMembersWf(kind: Kind, ms: Members, base: nat, g: Texts)
    requires WfMembers(kind, ms) && forall o <- g :: IsString(g[o])
    ensures WfMembers(kind, RewriteMembers(ms, base, g))
    decreases ms, 2
  {
    match ms
    case Blank(_) =>
    case Last(m) => RewriteWf(m.value, base + |Lead(m)|, g);
    case More(m, rest) =>
      RewriteWf(m.value, base + |Lead(m)|, g);
      RewriteMembersWf(kind, rest, base + |FlatMember(m)| + 1, g);
  }

  // ---- Lookups in a rewritten tree ----

  lemma {:induction false} FindInRewrittenMembers(ms: Members, base: nat, g: Texts, seg: Seg)
    ensures match FindInMembers(ms, seg)
      case None => FindInMembers(RewriteMembers(ms, base, g), seg) == None
      case Some(p) =>
        var q := FindInMembers(RewriteMembers(ms, base, g), seg);
        q.Some? && q.value.value == Rewrite(p.value, base + p.offset, g)
    decreases ms
  {
    hide Rewrite, Flat, Lead, Hits, FlatMember;
    match ms
    case Blank(_) =>
    case Last(m) => LeadKept(m, base, g);
    case More(m, rest) =>
      LeadKept(m, base, g);
      if !Hits(m.key, seg) {
        FindInRewrittenMembers(rest, base + |FlatMember(m)| + 1, g, NextSeg(seg));
      }
  }

  /** Every path leads to the rewritten value it led to before: structure and keys are kept. */
  lemma {:induction false} LocateRewritten(t: Json, base: nat, g: Texts, path: Path)
    ensures match Locate(t, path)
      case None => Locate(Rewrite(t, base, g), path) == None
      case Some(p) =>
        var q := Locate(Rewrite(t, base, g), path);
        q.Some? && q.value.value == Rewrite(p.value, base + p.offset, g)
    decreases |path|
  {
    hide FindInMembers, RewriteMembers;
    LocateUnfolds(t, path);
    LocateUnfolds(Rewrite(t, base, g), path);
    if path != [] && t.Container? && t.kind == KindFor(path[0]) {
      FindInRewrittenMembers(t.members, base + 1, g, path[0]);
      var p := FindInMembers(t.members, path[0]);
      if p.Some? {
        LocateRewritten(p.value.value, base + 1 + p.value.offset, g, path[1..]);
      }
    }
  }

  // ---- Different paths to string values lead to different bytes ----

  lemma {:induction false} PlaceInMembers(kind: Kind, ms: Members, seg: Seg)
    requires FindInMembers(ms, seg).Some?
    ensures var p := FindInMembers(ms, seg).value; p.offset + |Flat(p.value)| <= |FlatMembers(kind, ms)|
    decreases ms
  {
    hide Flat, Hits;
    match ms
    case Last(m) =>
    case More(m, rest) =>
      if !Hits(m.key, seg) {
        PlaceInMembers(kind, rest, NextSeg(seg));
      }
  }

  lemma {:induction false} PlaceInTree(t: Json, path: Path)
    requires Locate(t, path).Some?
    ensures var p := Locate(t, path).value; p.offset + |Flat(p.value)| <= |Flat(t)|
    decreases |path|
  {
    hide FindInMembers, FlatMembers;
    if path != [] {
      var p := FindInMembers(t.members, path[0]).value;
      PlaceInMembers(t.kind, t.members, path[0]);
      PlaceInTree(p.value, path[1..]);
    }
  }

  predicate DisjointPlaces(p: Place, q: Place) {
    p.offset + |Flat(p.value)| <= q.offset || q.offset + |Flat(q.value)| <= p.offset
  }

  lemma {:induction false} DisjointMembers(kind: Kind, ms: Members, s1: Seg, s2: Seg)
    requires s1 != s2 && KindFor(s1) == KindFor(s2)
    requires FindInMembers(ms, s1).Some? && FindInMembers(ms, s2).Some?
    ensures DisjointPlaces(FindInMembers(ms, s1).value, FindInMembers(ms, s2).value)
    decreases ms
  {
    hide Flat;
    match ms
    case Last(_) =>
    case More(m, rest) =>
      if !Hits(m.key, s1) && !Hits(m.key, s2) {
        DisjointMembers(kind, rest, NextSeg(s1), NextSeg(s2));
      }
  }

  /** Two different paths to scalars lead to places that share no byte. */
  lemma {:induction false} DisjointPaths(t: Json, p: Path, q: Path)
    requires p != q
    requires Locate(t, p).Some? && Locate(t, p).value.value.Scalar?
    requires Locate(t, q).Some? && Locate(t, q).value.value.Scalar?
    ensures DisjointPlaces(Locate(t, p).value, Locate(t, q).value)
    decreases |p|
  {
    hide FindInMembers, Flat;
    LocateUnfolds(t, p);
    LocateUnfolds(t, q);
    assert p != [] && q != [];
    var c := FindInMembers(t.members, p[0]).value;
    var d := FindInMembers(t.members, q[0]).value;
    if p[0] == q[0] {
      assert p == [p[0]] + p[1..] && q == [q[0]] + q[1..];
      DisjointPaths(c.value, p[1..], q[1..]);
    } else {
      DisjointMembers(t.kind, t.members, p[0], q[0]);
      PlaceInTree(c.value, p[1..]);
      PlaceInTree(d.value, q[1..]);
    }
  }

  // ---- string_leaves, with its explicit stack of pending values ----

  /** A value still to be visited. */
  datatype Task = Task(path: Path, pos: nat)

  function ChildTasks(kind: Kind, ms: Members, base: nat, path: Path, i: nat): seq<Task>
    decreases ms
  {
    match ms
    case Blank(_) => []
    case Last(m) => [Task(path + [SegOf(kind, m, i)], base + |Lead(m)|)]
    case More(m, rest) =>
      [Task(path + [SegOf(kind, m, i)], base + |Lead(m)|)]
      + ChildTasks(kind, rest, base + |FlatMember(m)| + 1, path, i + 1)
  }

  predicate Readable(doc: bytes, tasks: seq<Task>) {
    forall task <- tasks :: ParseValue(doc, task.pos).Some?
  }

  function TaskLeaves(doc: bytes, task: Task): seq<Leaf>
    requires ParseValue(doc, task.pos).Some?
  {
    Leaves(ParseValue(doc, task.pos).value.tree, task.pos, task.path)
  }

  /** The leaves of tasks visited from the first to the last. */
  function InTurn(doc: bytes, tasks: seq<Task>): seq<Leaf>
    requires Readable(doc, tasks)
  {
    if tasks == [] then [] else TaskLeaves(doc, tasks[0]) + InTurn(doc, tasks[1..])
  }

  /** The leaves of a stack of tasks, whose top is its last element. */
  function Pending(doc: bytes, stack: seq<Task>): seq<Leaf>
    requires Readable(doc, stack)
  {
    if stack == [] then []
    else TaskLeaves(doc, stack[|stack| - 1]) + Pending(doc, stack[..|stack| - 1])
  }

  function Reverse(tasks: seq<Task>): (r: seq<Task>)
    ensures |r| == |tasks| && forall i | 0 <= i < |r| :: r[i] == tasks[|tasks| - 1 - i]
  {
    if tasks == [] then [] else Reverse(tasks[1..]) + [tasks[0]]
  }

  lemma StackTop(doc: bytes, stack: seq<Task>, task: Task)
    requires Readable(doc, stack) && ParseValue(doc, task.pos).Some?
    ensures Readable(doc, stack + [task])
    ensures Pending(doc, stack + [task]) == TaskLeaves(doc, task) + Pending(doc, stack)
    ensures Weight(doc, stack + [task]) == ParseValue(doc, task.pos).value.end - task.pos + Weight(doc, stack)
  {
    hide TaskLeaves, ParseValue;
    assert (stack + [task])[..|stack|] == stack;
  }

  lemma {:induction false} PushChildren(doc: bytes, stack: seq<Task>, children: seq<Task>)
    requires Readable(doc, stack) && Readable(doc, children)
    ensures Readable(doc, stack + Reverse(children))
    ensures Pending(doc, stack + Reverse(children)) == InTurn(doc, children) + Pending(doc, stack)
    decreases |children|
  {
    hide TaskLeaves, ParseValue, Pending;
    if children == [] {
      assert stack + Reverse(children) == stack;
      assert InTurn(doc, children) + Pending(doc, stack) == Pending(doc, stack);
    } else {
      PushChildren(doc, stack, children[1..]);
      Join3(stack, Reverse(children[1..]), [children[0]]);
      StackTop(doc, stack + Reverse(children[1..]), children[0]);
      Join3(TaskLeaves(doc, children[0]), InTurn(doc, children[1..]), Pending(doc, stack));
    }
  }

  /** How many bytes the pending values take: what the loop uses up. */
  function Weight(doc: bytes, stack: seq<Task>): nat
    requires Readable(doc, stack)
  {
    if stack == [] then 0
    else ParseValue(doc, stack[|stack| - 1].pos).value.end - stack[|stack| - 1].pos + Weight(doc, stack[..|stack| - 1])
  }

  function TotalWidth(doc: bytes, tasks: seq<Task>): nat
    requires Readable(doc, tasks)
  {
    if tasks == [] then 0 else ParseValue(doc, tasks[0].pos).value.end - tasks[0].pos + TotalWidth(doc, tasks[1..])
  }

  lemma {:induction false} PushWeight(doc: bytes, stack: seq<Task>, children: seq<Task>)
    requires Readable(doc, stack) && Readable(doc, children)
    ensures Readable(doc, stack + Reverse(children))
    ensures Weight(doc, stack + Reverse(children)) == TotalWidth(doc, children) + Weight(doc, stack)
    decreases |children|
  {
    hide ParseValue, Weight;
    if children == [] {
      assert stack + Reverse(children) == stack;
    } else {
      PushWeight(doc, stack, children[1..]);
      Join3(stack, Reverse(children[1..]), [children[0]]);
      StackTop(doc, stack + Reverse(children[1..]), children[0]);
    }
  }

  /** The child tasks of the members read at `pos`: readable, holding their leaves, within the bytes read. */
  lemma {:induction false} ChildTasksCover(doc: bytes, pos: nat, kind: Kind, first: bool, path: Path, i: nat)
    requires pos <= |doc| && ParseMembers(doc, pos, kind, first).Some?
    ensures var p := ParseMembers(doc, pos, kind, first).value;
      var tasks := ChildTasks(kind, p.tree, pos, path, i);
      && Readable(doc, tasks)
      && InTurn(doc, tasks) == LeavesOfMembers(kind, p.tree, pos, path, i)
      && TotalWidth(doc, tasks) <= p.end - pos
    decreases |doc| - pos
  {
    hide ParseValue, ParseMembers, ReadLabel, SkipWs, ChildTasks, LeavesOfMembers, Leaves;
    MembersUnfold(doc, pos, kind, first);
    ChildTasksStep(doc, pos, kind, first, path, i);
    LeavesStep(doc, pos, kind, first, path, i);
    var p := SkipWs(doc, pos);
    if !(first && doc[p] == Close(kind)) {
      var l := ReadLabel(doc, p, kind).value;
      var q := SkipWs(doc, ParseValue(doc, l.valueStart).value.end);
      var tasks := ChildTasks(kind, ParseMembers(doc, pos, kind, first).value.tree, pos, path, i);
      if doc[q] == COMMA {
        ChildTasksCover(doc, q + 1, kind, false, path, i + 1);
        TailEnds(doc, pos, kind, first);
        assert tasks[1..] == ChildTasks(kind, ParseMembers(doc, q + 1, kind, false).value.tree, q + 1, path, i + 1);
      } else {
        assert tasks[1..] == [];
      }
    }
  }

  lemma TailEnds(doc: bytes, pos: nat, kind: Kind, first: bool)
    requires pos <= |doc| && ParseMembers(doc, pos, kind, first).Some? && !(first && doc[SkipWs(doc, pos)] == Close(kind))
    ensures ReadLabel(doc, SkipWs(doc, pos), kind).Some?
    ensures ParseValue(doc, ReadLabel(doc, SkipWs(doc, pos), kind).value.valueStart).Some?
    ensures var q := SkipWs(doc, ParseValue(doc, ReadLabel(doc, SkipWs(doc, pos), kind).value.valueStart).value.end);
      q < |doc| && doc[q] == COMMA && ParseMembers(doc, q + 1, kind, false).Some?
      ==> ParseMembers(doc, pos, kind, first).value.end == ParseMembers(doc, q + 1, kind, false).value.end
  {
    hide ParseValue, ParseMembers, ReadLabel, SkipWs, MemberOf;
    MembersUnfold(doc, pos, kind, first);
  }

  /** The leaves of members that are read one more at a time. */
  lemma LeavesStep(doc: bytes, pos: nat, kind: Kind, first: bool, path: Path, i: nat)
    requires pos <= |doc| && ParseMembers(doc, pos, kind, first).Some?
    ensures var p := SkipWs(doc, pos);
      var leaves := LeavesOfMembers(kind, ParseMembers(doc, pos, kind, first).value.tree, pos, path, i);
      && p < |doc|
      && (first && doc[p] == Close(kind) ==> leaves == [])
      && (!(first && doc[p] == Close(kind)) ==>
            && ReadLabel(doc, p, kind).Some?
            && var l := ReadLabel(doc, p, kind).value;
            && ParseValue(doc, l.valueStart).Some?
            && var v := ParseValue(doc, l.valueStart).value;
            && var q := SkipWs(doc, v.end);
            && var seg := if kind.ArrayKind? then Index(i) else Key(JsonStrings.Decode(doc[p..l.keyEnd]));
            && q < |doc|
            && (doc[q] != COMMA ==> leaves == Leaves(v.tree, l.valueStart, path + [seg]))
            && (doc[q] == COMMA ==>
                  ParseMembers(doc, q + 1, kind, false).Some?
                  && leaves == Leaves(v.tree, l.valueStart, path + [seg])
                     + LeavesOfMembers(kind, ParseMembers(doc, q + 1, kind, false).value.tree, q + 1, path, i + 1)))
  {
    hide ParseValue, ParseMembers, ReadLabel, SkipWs, Lead, FlatMember, MemberOf, ReadsAs, Leaves;
    MembersUnfold(doc, pos, kind, first);
    if !(first && doc[SkipWs(doc, pos)] == Close(kind)) {
      MemberLengths(doc, pos, kind);
    }
  }

  /** The walk over one container: a task for every member value. */
  method ChildrenOf(doc: bytes, start: nat, kind: Kind, path: Path) returns (children: seq<Task>)
    requires start <= |doc| && ParseMembers(doc, start, kind, true).Some?
    ensures children == ChildTasks(kind, ParseMembers(doc, start, kind, true).value.tree, start, path, 0)
  {
    hide ParseValue, ParseMembers, ReadLabel, SkipWs, ChildTasks;
    children := [];
    var p, i, first := start, 0, true;
    ghost var all := ChildTasks(kind, ParseMembers(doc, start, kind, true).value.tree, start, path, 0);
    while true
      invariant 0 <= p <= |doc| && ParseMembers(doc, p, kind, first).Some?
      invariant 0 <= i
      invariant children + ChildTasks(kind, ParseMembers(doc, p, kind, first).value.tree, p, path, i) == all
      decreases |doc| - p
    {
      ChildTasksStep(doc, p, kind, first, path, i);
      ghost var before := children;
      ghost var rest := ChildTasks(kind, ParseMembers(doc, p, kind, first).value.tree, p, path, i);
      p := SkipWhitespace(doc, p);
      if first && doc[p] == Close(kind) {
        return;
      }
      var l := Label(p, p);
      var seg := Index(i);
      if kind.ObjectKind? {
        var key := ReadKey(doc, p);
        l := key.value;
        var name := JsonStrings.DecodeString(doc[p..l.keyEnd]);
        seg := Key(name);
      } else {
        ArrayLabel(doc, p);
      }
      ValueStartsHere(doc, l.valueStart);
      var ve := SkipValue(doc, l.valueStart);
      children := children + [Task(path + [seg], l.valueStart)];
      p := SkipWhitespace(doc, ve.value);
      if doc[p] != COMMA {
        return;
      }
      p := p + 1;
      i := i + 1;
      first := false;
      Join3(before, [children[|children| - 1]], ChildTasks(kind, ParseMembers(doc, p, kind, false).value.tree, p, path, i));
    }
  }

  /** The child tasks of members that are read one more at a time. */
  lemma ChildTasksStep(doc: bytes, pos: nat, kind: Kind, first: bool, path: Path, i: nat)
    requires pos <= |doc| && ParseMembers(doc, pos, kind, first).Some?
    ensures var p := SkipWs(doc, pos);
      var tasks := ChildTasks(kind, ParseMembers(doc, pos, kind, first).value.tree, pos, path, i);
      && p < |doc|
      && (first && doc[p] == Close(kind) ==> tasks == [])
      && (!(first && doc[p] == Close(kind)) ==>
            && ReadLabel(doc, p, kind).Some?
            && var l := ReadLabel(doc, p, kind).value;
            && ParseValue(doc, l.valueStart).Some?
            && var q := SkipWs(doc, ParseValue(doc, l.valueStart).value.end);
            && var seg := if kind.ArrayKind? then Index(i) else Key(JsonStrings.Decode(doc[p..l.keyEnd]));
            && var task := Task(path + [seg], l.valueStart);
            && q < |doc|
            && (doc[q] != COMMA ==> tasks == [task])
            && (doc[q] == COMMA ==>
                  ParseMembers(doc, q + 1, kind, false).Some?
                  && tasks == [task] + ChildTasks(kind, ParseMembers(doc, q + 1, kind, false).value.tree, q + 1, path, i + 1)))
  {
    hide ParseValue, ParseMembers, ReadLabel, SkipWs, Lead, FlatMember, MemberOf, ReadsAs;
    MembersUnfold(doc, pos, kind, first);
    if !(first && doc[SkipWs(doc, pos)] == Close(kind)) {
      MemberLengths(doc, pos, kind);
    }
  }

  lemma ArrayLabel(doc: bytes, p: nat)
    ensures ReadLabel(doc, p, ArrayKind) == Some(Label(p, p))
  {
  }

  /** What string_leaves returns: nothing when the root is not found, else its string values in document order. */
  function LeavesAt(doc: bytes, root: Path): seq<Leaf> {
    match Find(doc, root)
    case None => []
    case Some(s) =>
      FindAppend(doc, SkipWs(doc, 0), root, []);
      Leaves(ParseValue(doc, s.start).value.tree, s.start, root)
  }

  method StringLeaves(doc: bytes, root: Path) returns (result: seq<Leaf>)
    ensures result == LeavesAt(doc, root)
  {
    hide ParseValue, ParseMembers, FindAt, Pending, TaskLeaves, Weight, LeavesOfMembers, ChildTasks, InTurn, SkipWs, StringEnd, LeavesAt;
    result := [];
    var rootSpan := FindValue(doc, root);
    LeavesAtUnfolds(doc, root);
    if rootSpan.None? {
      return;
    }
    FindAppend(doc, SkipWs(doc, 0), root, []);
    var stack := [Task(root, rootSpan.value.start)];
    PendingOne(doc, stack[0]);
    while stack != []
      invariant Readable(doc, stack)
      invariant result + Pending(doc, stack) == LeavesAt(doc, root)
      decreases Weight(doc, stack)
    {
      var task := stack[|stack| - 1];
      PendingPop(doc, stack);
      stack := stack[..|stack| - 1];
      ghost var before := result;
      ghost var v := ParseValue(doc, task.pos).value;
      ReadsItself(doc, task.pos);
      ReadLength(doc, task.pos, v.tree, v.end);
      ValueStartsHere(doc, task.pos);
      var pos := SkipWhitespace(doc, task.pos);
      if doc[pos] == QUOTE {
        var e := SkipString(doc, pos);
        StringTask(doc, task);
        result := result + [Leaf(task.path, Span(pos, e.value, true))];
      } else if doc[pos] == LBRACE || doc[pos] == LBRACKET {
        var kind := if doc[pos] == LBRACE then ObjectKind else ArrayKind;
        ContainerMembers(doc, pos);
        var children := ChildrenOf(doc, pos + 1, kind, task.path);
        ChildTasksCover(doc, pos + 1, kind, true, task.path, 0);
        ContainerTask(doc, task);
        PushChildren(doc, stack, children);
        PushWeight(doc, stack, children);
        stack := stack + Reverse(children);
      } else {
        OtherTask(doc, task);
      }
      assert result + Pending(doc, stack) == LeavesAt(doc, root);
    }
    PendingNone(doc);
  }

  lemma LeavesAtUnfolds(doc: bytes, root: Path)
    ensures match Find(doc, root)
      case None => LeavesAt(doc, root) == []
      case Some(s) => ParseValue(doc, s.start).Some? && LeavesAt(doc, root) == Leaves(ParseValue(doc, s.start).value.tree, s.start, root)
  {
    hide ParseValue, FindAt;
    if Find(doc, root).Some? {
      FindAppend(doc, SkipWs(doc, 0), root, []);
    }
  }

  lemma PendingNone(doc: bytes)
    ensures Pending(doc, []) == []
  {
  }

  lemma PendingOne(doc: bytes, task: Task)
    requires ParseValue(doc, task.pos).Some?
    ensures Pending(doc, [task]) == TaskLeaves(doc, task) == Leaves(ParseValue(doc, task.pos).value.tree, task.pos, task.path)
  {
    assert [task][..0] == [];
  }

  lemma PendingPop(doc: bytes, stack: seq<Task>)
    requires stack != [] && Readable(doc, stack)
    ensures var top := stack[|stack| - 1];
      var rest := stack[..|stack| - 1];
      && Readable(doc, rest) && ParseValue(doc, top.pos).Some?
      && Pending(doc, stack) == TaskLeaves(doc, top) + Pending(doc, rest)
      && Weight(doc, stack) == ParseValue(doc, top.pos).value.end - top.pos + Weight(doc, rest)
  {
    hide ParseValue, TaskLeaves;
  }

  lemma StringTask(doc: bytes, task: Task)
    requires ParseValue(doc, task.pos).Some? && doc[task.pos] == QUOTE
    ensures StringEnd(doc, task.pos).Some?
    ensures TaskLeaves(doc, task) == [Leaf(task.path, Span(task.pos, StringEnd(doc, task.pos).value, true))]
  {
  }

  lemma ContainerTask(doc: bytes, task: Task)
    requires ParseValue(doc, task.pos).Some? && ParseValue(doc, task.pos).value.tree.Container?
    ensures var t := ParseValue(doc, task.pos).value.tree;
      TaskLeaves(doc, task) == LeavesOfMembers(t.kind, t.members, task.pos + 1, task.path, 0)
  {
    hide ParseValue;
  }

  lemma OtherTask(doc: bytes, task: Task)
    requires ParseValue(doc, task.pos).Some?
    requires ParseValue(doc, task.pos).value.tree.Scalar? && !IsStr(ParseValue(doc, task.pos).value.tree)
    ensures TaskLeaves(doc, task) == []
  {
    hide ParseValue;
  }
}
