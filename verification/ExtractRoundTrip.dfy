/**
 Patching the extracted fields: their spans share no byte, and after any new texts are
 spliced over them the same paths are extracted again, with exactly those texts.
 */
module ExtractRoundTrip {
  import opened Bytes
  import opened JsonGrammar
  import opened JsonScan
  import opened JsonLookup
  import opened JsonSplice
  import opened JsonLeaves
  import opened JsonSubst
  import opened ChatCompletions
  import opened ExtractPatch
  import DemaskJson
  import JsonStrings

  // ---- The entries of a tree stand at different paths ----

  predicate Distinct(es: seq<Entry>) {
    forall i, j | 0 <= i < j < |es| :: es[i].path != es[j].path
  }

  predicate Below(es: seq<Entry>, p: Path) {
    forall e <- es :: p <= e.path
  }

  /** The segment after the first `d` is an index from `j` on. */
  predicate IndexFrom(es: seq<Entry>, d: nat, j: nat) {
    forall e <- es :: |e.path| > d && e.path[d].Index? && e.path[d].index >= j
  }

  lemma DistinctConcat(a: seq<Entry>, b: seq<Entry>)
    requires Distinct(a) && Distinct(b)
    requires forall x <- a, y <- b :: x.path != y.path
    ensures Distinct(a + b)
  {
    var c := a + b;
    forall i, j | 0 <= i < j < |c| ensures c[i].path != c[j].path {
      if i < |a| <= j {
        assert a[i] in a && b[j - |a|] in b;
      } else if i >= |a| {
        assert b[i - |a|].path != b[j - |a|].path;
      }
    }
  }

  lemma BelowConcat(a: seq<Entry>, b: seq<Entry>, p: Path)
    requires Below(a, p) && Below(b, p)
    ensures Below(a + b, p)
  {
    assert forall e <- a + b :: e in a || e in b;
  }

  lemma BelowWeaker(es: seq<Entry>, p: Path, s: Seg)
    requires Below(es, p + [s])
    ensures Below(es, p)
    ensures forall e <- es :: |e.path| > |p| && e.path[|p|] == s
  {
    forall e <- es ensures p <= e.path && |e.path| > |p| && e.path[|p|] == s {
      assert p + [s] <= e.path;
      assert (p + [s])[|p|] == s;
    }
  }

  lemma ApartBySeg(a: seq<Entry>, b: seq<Entry>, p: Path, s: Seg, u: Seg)
    requires Below(a, p + [s]) && Below(b, p + [u]) && s != u
    ensures forall x <- a, y <- b :: x.path != y.path
  {
    BelowWeaker(a, p, s);
    BelowWeaker(b, p, u);
  }

  /** The entries of element `j`, then those of later elements. */
  lemma OneMoreElement(a: seq<Entry>, b: seq<Entry>, p: Path, j: nat)
    requires Distinct(a) && Below(a, p + [Index(j)])
    requires Distinct(b) && Below(b, p) && IndexFrom(b, |p|, j + 1)
    ensures Distinct(a + b) && Below(a + b, p) && IndexFrom(a + b, |p|, j)
  {
    BelowWeaker(a, p, Index(j));
    DistinctConcat(a, b);
    BelowConcat(a, b, p);
    assert forall e <- a + b :: e in a || e in b;
  }

  lemma EntryAtPlace(t: Json, p: Path, q: Path)
    requires q <= p
    ensures Distinct(EntryAt(t, p)) && Below(EntryAt(t, p), q)
  {
  }

  lemma {:induction false} PartsDistinct(t: Json, content: Path, j: nat, n: nat)
    ensures var es := PartEntries(t, content, j, n); Distinct(es) && Below(es, content) && IndexFrom(es, |content|, j)
    decreases n - j
  {
    hide EntryAt, StrAt, Distinct, Below, IndexFrom;
    Nothing(content, |content|, j);
    if j < n {
      PartsDistinct(t, content, j + 1, n);
      var p := content + [Index(j)];
      EntryAtPlace(t, p + [TEXT], p);
      Nothing(p, 0, 0);
      var mine := if StrAt(t, p + [TYPE]) == Some(TEXT_TYPE) then EntryAt(t, p + [TEXT]) else [];
      OneMoreElement(mine, PartEntries(t, content, j + 1, n), content, j);
    }
  }

  lemma Nothing(p: Path, d: nat, j: nat)
    ensures Distinct([]) && Below([], p) && IndexFrom([], d, j)
  {
  }

  lemma {:induction false} CallsDistinct(t: Json, calls: Path, j: nat, n: nat)
    ensures var es := CallEntries(t, calls, j, n); Distinct(es) && Below(es, calls) && IndexFrom(es, |calls|, j)
    decreases n - j
  {
    hide EntryAt, Distinct, Below, IndexFrom;
    Nothing(calls, |calls|, j);
    if j < n {
      CallsDistinct(t, calls, j + 1, n);
      var p := calls + [Index(j)];
      EntryAtPlace(t, p + [FUNCTION] + [ARGUMENTS], p);
      OneMoreElement(EntryAt(t, p + [FUNCTION] + [ARGUMENTS]), CallEntries(t, calls, j + 1, n), calls, j);
    }
  }

  lemma ContentDistinct(t: Json, msg: Path)
    ensures Distinct(ContentEntries(t, msg)) && Below(ContentEntries(t, msg), msg + [CONTENT])
  {
    hide EntryAt, StrAt, ArrayCount, Distinct, Below, IndexFrom, PartEntries;
    EntryAtPlace(t, msg + [CONTENT], msg + [CONTENT]);
    PartsDistinct(t, msg + [CONTENT], 0, ArrayCount(t, msg + [CONTENT]));
  }

  lemma KeysDiffer()
    ensures CONTENT != FUNCTION_CALL && CONTENT != TOOL_CALLS && FUNCTION_CALL != TOOL_CALLS
    ensures TYPE != CONTENT && TYPE != TEXT && TYPE != ARGUMENTS
  {
    assert |CONTENT.key| == 7 && |FUNCTION_CALL.key| == 13 && |TOOL_CALLS.key| == 10;
    assert |TYPE.key| == 4 && |ARGUMENTS.key| == 9;
    assert TYPE.key[1] as int == 'y' as int && TEXT.key[1] as int == 'e' as int;
  }

  lemma MessageDistinct(t: Json, msg: Path)
    ensures Distinct(MessageEntries(t, msg)) && Below(MessageEntries(t, msg), msg)
  {
    hide EntryAt, ArrayCount, Distinct, Below, IndexFrom, ContentEntries, CallEntries;
    var a := ContentEntries(t, msg);
    var b := EntryAt(t, msg + [FUNCTION_CALL] + [ARGUMENTS]);
    var c := CallEntries(t, msg + [TOOL_CALLS], 0, ArrayCount(t, msg + [TOOL_CALLS]));
    KeysDiffer();
    ContentDistinct(t, msg);
    EntryAtPlace(t, msg + [FUNCTION_CALL] + [ARGUMENTS], msg + [FUNCTION_CALL]);
    CallsDistinct(t, msg + [TOOL_CALLS], 0, ArrayCount(t, msg + [TOOL_CALLS]));
    ApartBySeg(a, b, msg, CONTENT, FUNCTION_CALL);
    ApartBySeg(a, c, msg, CONTENT, TOOL_CALLS);
    ApartBySeg(b, c, msg, FUNCTION_CALL, TOOL_CALLS);
    BelowWeaker(a, msg, CONTENT);
    BelowWeaker(b, msg, FUNCTION_CALL);
    BelowWeaker(c, msg, TOOL_CALLS);
    DistinctConcat(a, b);
    BelowConcat(a, b, msg);
    assert forall x <- a + b :: x in a || x in b;
    DistinctConcat(a + b, c);
    BelowConcat(a + b, c, msg);
  }

  lemma {:induction false} AllDistinct(t: Json, i: nat, n: nat)
    ensures var es := AllEntries(t, i, n); Distinct(es) && Below(es, [MESSAGES]) && IndexFrom(es, 1, i)
    decreases n - i
  {
    hide MessageEntries, Distinct, Below, IndexFrom;
    Nothing([MESSAGES], 1, i);
    if i < n {
      AllDistinct(t, i + 1, n);
      MessageDistinct(t, [MESSAGES] + [Index(i)]);
      OneMoreElement(MessageEntries(t, [MESSAGES] + [Index(i)]), AllEntries(t, i + 1, n), [MESSAGES], i);
    }
  }

  // ---- Entries are non-empty strings of the tree ----

  predicate IsEntry(t: Json, e: Entry) {
    StrAt(t, e.path) == Some(e.text) && e.text != [] && e.path != [] && e.path[|e.path| - 1] != TYPE
  }

  predicate AreEntries(t: Json, es: seq<Entry>) {
    forall e <- es :: IsEntry(t, e)
  }

  lemma EntriesConcat(t: Json, a: seq<Entry>, b: seq<Entry>)
    requires AreEntries(t, a) && AreEntries(t, b)
    ensures AreEntries(t, a + b)
  {
    hide IsEntry;
    assert forall e <- a + b :: e in a || e in b;
  }

  lemma OneEntry(t: Json, p: Path, s: Seg)
    requires s != TYPE
    ensures AreEntries(t, EntryAt(t, p + [s])) && AreEntries(t, [])
  {
  }

  lemma {:induction false} PartsAreEntries(t: Json, content: Path, j: nat, n: nat)
    ensures AreEntries(t, PartEntries(t, content, j, n))
    decreases n - j
  {
    hide EntryAt, StrAt, AreEntries;
    KeysDiffer();
    OneEntry(t, content + [Index(j)], TEXT);
    if j < n {
      PartsAreEntries(t, content, j + 1, n);
      var p := content + [Index(j)];
      EntriesConcat(t, if StrAt(t, p + [TYPE]) == Some(TEXT_TYPE) then EntryAt(t, p + [TEXT]) else [], PartEntries(t, content, j + 1, n));
    }
  }

  lemma {:induction false} CallsAreEntries(t: Json, calls: Path, j: nat, n: nat)
    ensures AreEntries(t, CallEntries(t, calls, j, n))
    decreases n - j
  {
    hide EntryAt, StrAt, AreEntries;
    KeysDiffer();
    var p := calls + [Index(j)] + [FUNCTION];
    OneEntry(t, p, ARGUMENTS);
    if j < n {
      CallsAreEntries(t, calls, j + 1, n);
      EntriesConcat(t, EntryAt(t, p + [ARGUMENTS]), CallEntries(t, calls, j + 1, n));
    }
  }

  lemma MessageAreEntries(t: Json, msg: Path)
    ensures AreEntries(t, MessageEntries(t, msg))
  {
    hide EntryAt, StrAt, AreEntries, ArrayCount, PartEntries, CallEntries;
    KeysDiffer();
    OneEntry(t, msg, CONTENT);
    PartsAreEntries(t, msg + [CONTENT], 0, ArrayCount(t, msg + [CONTENT]));
    OneEntry(t, msg + [FUNCTION_CALL], ARGUMENTS);
    CallsAreEntries(t, msg + [TOOL_CALLS], 0, ArrayCount(t, msg + [TOOL_CALLS]));
    EntriesConcat(t, ContentEntries(t, msg), EntryAt(t, msg + [FUNCTION_CALL] + [ARGUMENTS]));
    EntriesConcat(t, ContentEntries(t, msg) + EntryAt(t, msg + [FUNCTION_CALL] + [ARGUMENTS]),
      CallEntries(t, msg + [TOOL_CALLS], 0, ArrayCount(t, msg + [TOOL_CALLS])));
  }

  lemma {:induction false} AllAreEntries(t: Json, i: nat, n: nat)
    ensures AreEntries(t, AllEntries(t, i, n))
    decreases n - i
  {
    hide MessageEntries, IsEntry;
    if i < n {
      AllAreEntries(t, i + 1, n);
      MessageAreEntries(t, [MESSAGES] + [Index(i)]);
      EntriesConcat(t, MessageEntries(t, [MESSAGES] + [Index(i)]), AllEntries(t, i + 1, n));
    }
  }

  // ---- A tree in which some strings have new texts ----

  type NewTexts = map<Path, bytes>

  /** `u` is `t` with new texts at the paths of `m`: every lookup sees just that. */
  ghost predicate Retexted(t: Json, u: Json, m: NewTexts) {
    && (forall p :: ArrayCount(u, p) == ArrayCount(t, p))
    && (forall p :: StrAt(u, p) == if StrAt(t, p).Some? && p in m then Some(m[p]) else StrAt(t, p))
  }

  predicate GoodTexts(t: Json, m: NewTexts) {
    forall p <- m :: m[p] != [] && p != [] && p[|p| - 1] != TYPE && StrAt(t, p).Some? && StrAt(t, p).value != []
  }

  function WithTexts(es: seq<Entry>, m: NewTexts): seq<Entry> {
    if es == [] then []
    else [Entry(es[0].path, if es[0].path in m then m[es[0].path] else es[0].text)] + WithTexts(es[1..], m)
  }

  lemma {:induction false} WithTextsConcat(a: seq<Entry>, b: seq<Entry>, m: NewTexts)
    ensures WithTexts(a + b, m) == WithTexts(a, m) + WithTexts(b, m)
    decreases |a|
  {
    if a == [] {
      assert a + b == b;
    } else {
      assert (a + b)[1..] == a[1..] + b;
      WithTextsConcat(a[1..], b, m);
    }
  }

  lemma EntryRetexted(t: Json, u: Json, m: NewTexts, p: Path)
    requires Retexted(t, u, m) && GoodTexts(t, m)
    ensures EntryAt(u, p) == WithTexts(EntryAt(t, p), m)
    ensures WithTexts([], m) == []
  {
    hide StrAt, ArrayCount;
    assert StrAt(u, p) == if StrAt(t, p).Some? && p in m then Some(m[p]) else StrAt(t, p);
    if StrAt(t, p).Some? && StrAt(t, p).value != [] {
      var e := Entry(p, StrAt(t, p).value);
      assert [e][1..] == [];
    }
  }

  lemma TypeRetexted(t: Json, u: Json, m: NewTexts, p: Path)
    requires Retexted(t, u, m) && GoodTexts(t, m)
    ensures StrAt(u, p + [TYPE]) == StrAt(t, p + [TYPE])
  {
    hide StrAt, ArrayCount;
    var q := p + [TYPE];
    assert q[|q| - 1] == TYPE;
  }

  lemma {:induction false} PartsRetexted(t: Json, u: Json, m: NewTexts, content: Path, j: nat, n: nat)
    requires Retexted(t, u, m) && GoodTexts(t, m)
    ensures PartEntries(u, content, j, n) == WithTexts(PartEntries(t, content, j, n), m)
    decreases n - j
  {
    hide StrAt, EntryAt, Retexted, GoodTexts, WithTexts;
    var p := content + [Index(j)];
    EntryRetexted(t, u, m, p + [TEXT]);
    if j < n {
      TypeRetexted(t, u, m, p);
      PartsRetexted(t, u, m, content, j + 1, n);
      WithTextsConcat(if StrAt(t, p + [TYPE]) == Some(TEXT_TYPE) then EntryAt(t, p + [TEXT]) else [], PartEntries(t, content, j + 1, n), m);
    }
  }

  lemma {:induction false} CallsRetexted(t: Json, u: Json, m: NewTexts, calls: Path, j: nat, n: nat)
    requires Retexted(t, u, m) && GoodTexts(t, m)
    ensures CallEntries(u, calls, j, n) == WithTexts(CallEntries(t, calls, j, n), m)
    decreases n - j
  {
    hide StrAt, EntryAt, Retexted, GoodTexts, WithTexts;
    var p := calls + [Index(j)] + [FUNCTION] + [ARGUMENTS];
    EntryRetexted(t, u, m, p);
    if j < n {
      CallsRetexted(t, u, m, calls, j + 1, n);
      WithTextsConcat(EntryAt(t, p), CallEntries(t, calls, j + 1, n), m);
    }
  }

  lemma CountRetexted(t: Json, u: Json, m: NewTexts, p: Path)
    requires Retexted(t, u, m)
    ensures ArrayCount(u, p) == ArrayCount(t, p)
    ensures StrAt(u, p).Some? <==> StrAt(t, p).Some?
  {
    hide StrAt, ArrayCount;
  }

  lemma MessageRetexted(t: Json, u: Json, m: NewTexts, msg: Path)
    requires Retexted(t, u, m) && GoodTexts(t, m)
    ensures MessageEntries(u, msg) == WithTexts(MessageEntries(t, msg), m)
  {
    hide StrAt, EntryAt, Retexted, GoodTexts, WithTexts, ArrayCount, PartEntries, CallEntries;
    var c, f, k := msg + [CONTENT], msg + [FUNCTION_CALL] + [ARGUMENTS], msg + [TOOL_CALLS];
    CountRetexted(t, u, m, c);
    CountRetexted(t, u, m, k);
    EntryRetexted(t, u, m, c);
    PartsRetexted(t, u, m, c, 0, ArrayCount(t, c));
    EntryRetexted(t, u, m, f);
    CallsRetexted(t, u, m, k, 0, ArrayCount(t, k));
    WithTextsConcat(ContentEntries(t, msg), EntryAt(t, f), m);
    WithTextsConcat(ContentEntries(t, msg) + EntryAt(t, f), CallEntries(t, k, 0, ArrayCount(t, k)), m);
  }

  /** New texts at entries change the entries' texts, and no other thing about the entries. */
  lemma {:induction false} AllRetexted(t: Json, u: Json, m: NewTexts, i: nat, n: nat)
    requires Retexted(t, u, m) && GoodTexts(t, m)
    ensures AllEntries(u, i, n) == WithTexts(AllEntries(t, i, n), m)
    decreases n - i
  {
    hide Retexted, GoodTexts, MessageEntries, WithTexts;
    EntryRetexted(t, u, m, []);
    if i < n {
      MessageRetexted(t, u, m, [MESSAGES] + [Index(i)]);
      AllRetexted(t, u, m, i + 1, n);
      WithTextsConcat(MessageEntries(t, [MESSAGES] + [Index(i)]), AllEntries(t, i + 1, n), m);
    }
  }

  // ---- Every string a path leads to is a leaf ----

  predicate HasSpan(leaves: seq<Leaf>, start: nat, end: nat) {
    exists leaf <- leaves :: leaf.span == Span(start, end, true)
  }

  lemma HasSpanConcat(a: seq<Leaf>, b: seq<Leaf>, start: nat, end: nat)
    ensures HasSpan(a, start, end) || HasSpan(b, start, end) ==> HasSpan(a + b, start, end)
  {
    if HasSpan(a, start, end) {
      var leaf :| leaf in a && leaf.span == Span(start, end, true);
      assert leaf in a + b;
    } else if HasSpan(b, start, end) {
      var leaf :| leaf in b && leaf.span == Span(start, end, true);
      assert leaf in a + b;
    }
  }

  lemma {:induction false} LocatedIsLeaf(t: Json, base: nat, path: Path, q: Path)
    requires Locate(t, q).Some? && IsStr(Locate(t, q).value.value)
    ensures var p := Locate(t, q).value;
      HasSpan(Leaves(t, base, path), base + p.offset, base + p.offset + |Flat(p.value)|)
    decreases |q|, 1
  {
    hide FindInMembers, LeavesOfMembers, Leaves, HasSpan;
    LocateUnfolds(t, q);
    if q == [] {
      StringLeaf(t, base, path);
    } else {
      var c := FindInMembers(t.members, q[0]).value;
      var p := Locate(c.value, q[1..]).value;
      ContainerLeaves(t, base, path);
      MemberIsLeaf(t.kind, t.members, base + 1, path, 0, q[0], q[1..]);
    }
  }

  lemma StringLeaf(t: Json, base: nat, path: Path)
    requires IsStr(t)
    ensures HasSpan(Leaves(t, base, path), base, base + |Flat(t)|)
  {
    assert Leaf(path, Span(base, base + |Flat(t)|, true)) in Leaves(t, base, path);
  }

  lemma ContainerLeaves(t: Json, base: nat, path: Path)
    requires t.Container?
    ensures Leaves(t, base, path) == LeavesOfMembers(t.kind, t.members, base + 1, path, 0)
  {
  }

  lemma {:induction false} MemberIsLeaf(kind: Kind, ms: Members, base: nat, path: Path, i: nat, seg: Seg, rest: Path)
    requires FindInMembers(ms, seg).Some? && Locate(FindInMembers(ms, seg).value.value, rest).Some?
    requires IsStr(Locate(FindInMembers(ms, seg).value.value, rest).value.value)
    ensures var c := FindInMembers(ms, seg).value;
      var p := Locate(c.value, rest).value;
      HasSpan(LeavesOfMembers(kind, ms, base, path, i), base + c.offset + p.offset, base + c.offset + p.offset + |Flat(p.value)|)
    decreases |rest| + 1, 0, ms
  {
    hide Flat, Locate, Hits, FlatMember, Lead, Leaves, SegOf, HasSpan;
    match ms
    case Last(m) =>
      LocatedIsLeaf(m.value, base + |Lead(m)|, path + [SegOf(kind, m, i)], rest);
    case More(m, others) =>
      var c := FindInMembers(ms, seg).value;
      var p := Locate(c.value, rest).value;
      var at := base + c.offset + p.offset;
      var next := base + |FlatMember(m)| + 1;
      if Hits(m.key, seg) {
        LocatedIsLeaf(m.value, base + |Lead(m)|, path + [SegOf(kind, m, i)], rest);
      } else {
        MemberIsLeaf(kind, others, next, path, i + 1, NextSeg(seg), rest);
      }
      HasSpanConcat(Leaves(m.value, base + |Lead(m)|, path + [SegOf(kind, m, i)]),
        LeavesOfMembers(kind, others, next, path, i + 1), at, at + |Flat(p.value)|);
  }

  // ---- The edits of a patch ----

  /** Every field's span, with its new text as a JSON string. */
  function PatchEdits(fields: seq<Field>, texts: seq<bytes>): (r: seq<Edit>)
    requires |texts| == |fields|
    ensures |r| == |fields|
  {
    seq(|fields|, k requires 0 <= k < |fields| => Edit(fields[k].span, JsonStrings.Encode(texts[k], true)))
  }

  lemma EditsForMembers(leaves: seq<Leaf>, g: Texts, e: Edit)
    ensures e in EditsFor(leaves, g) <==>
      exists leaf <- leaves :: leaf.span.start in g && e == Edit(leaf.span, g[leaf.span.start])
    decreases |leaves|
  {
    if leaves != [] {
      EditsForMembers(leaves[1..], g, e);
      assert leaves == [leaves[0]] + leaves[1..];
    }
  }

  predicate NoRepeats(s: seq<Edit>) {
    forall i, j | 0 <= i < j < |s| :: s[i] != s[j]
  }

  lemma {:induction false} OnceEach(s: seq<Edit>, e: Edit)
    requires NoRepeats(s)
    ensures multiset(s)[e] == if e in s then 1 else 0
    decreases |s|
  {
    if s != [] {
      var rest := s[1..];
      assert s == [s[0]] + rest;
      OnceEach(rest, e);
      assert forall j | 0 <= j < |rest| :: rest[j] == s[j + 1];
    }
  }

  lemma SameElements(a: seq<Edit>, b: seq<Edit>)
    requires NoRepeats(a) && NoRepeats(b) && forall e :: e in a <==> e in b
    ensures multiset(a) == multiset(b)
  {
    forall e ensures multiset(a)[e] == multiset(b)[e] {
      OnceEach(a, e);
      OnceEach(b, e);
    }
  }

  /** Fields of a valid document: non-empty string spans, all apart. */
  predicate FieldsApart(fields: seq<Field>) {
    && (forall f <- fields :: f.span.start < f.span.end)
    && (forall i, j | 0 <= i < j < |fields| ::
          fields[i].span.end <= fields[j].span.start || fields[j].span.end <= fields[i].span.start)
  }

  /** The new literals, by the offset of the old ones. */
  ghost predicate IsTextMap(g: Texts, fields: seq<Field>, texts: seq<bytes>) {
    && |texts| == |fields|
    && (forall k | 0 <= k < |fields| :: fields[k].span.start in g && g[fields[k].span.start] == JsonStrings.Encode(texts[k], true))
    && (forall o <- g :: exists k :: 0 <= k < |fields| && fields[k].span.start == o)
  }

  /** The position of every key in a list without repeats. */
  lemma {:induction false} MakeIndex<K>(keys: seq<K>) returns (index: map<K, nat>)
    requires forall i, j | 0 <= i < j < |keys| :: keys[i] != keys[j]
    ensures forall k | 0 <= k < |keys| :: keys[k] in index && index[keys[k]] == k
    ensures forall x <- index :: index[x] < |keys| && keys[index[x]] == x
    decreases |keys|
  {
    if keys == [] {
      index := map[];
    } else {
      var n := |keys| - 1;
      var before := MakeIndex(keys[..n]);
      index := before[keys[n] := n];
    }
  }

  function Starts(fields: seq<Field>): (r: seq<nat>)
    ensures |r| == |fields| && forall k | 0 <= k < |r| :: r[k] == fields[k].span.start
  {
    seq(|fields|, k requires 0 <= k < |fields| => fields[k].span.start)
  }

  lemma StartsDiffer(fields: seq<Field>)
    requires FieldsApart(fields)
    ensures var s := Starts(fields); forall i, j | 0 <= i < j < |s| :: s[i] != s[j]
  {
    hide Starts;
    var s := Starts(fields);
    forall i, j | 0 <= i < j < |s| ensures s[i] != s[j] {
      assert fields[i] in fields && fields[j] in fields;
    }
  }

  lemma MakeTextMap(fields: seq<Field>, texts: seq<bytes>) returns (g: Texts)
    requires |texts| == |fields| && FieldsApart(fields)
    ensures IsTextMap(g, fields, texts)
  {
    hide JsonStrings.Encode, Starts, FieldsApart;
    StartsDiffer(fields);
    var starts := Starts(fields);
    var index := MakeIndex(starts);
    g := map o | o in index :: JsonStrings.Encode(texts[index[o]], true);
    forall k | 0 <= k < |fields| ensures fields[k].span.start in g && g[fields[k].span.start] == JsonStrings.Encode(texts[k], true) {
      assert starts[k] == fields[k].span.start;
    }
    forall o <- g ensures exists k :: 0 <= k < |fields| && fields[k].span.start == o {
      assert fields[index[o]].span.start == o;
    }
  }

  predicate AreLeaves(leaves: seq<Leaf>, fields: seq<Field>) {
    forall f <- fields :: HasSpan(leaves, f.span.start, f.span.end) && f.span.isString
  }

  /** The patch's edits are the leaf edits, in some order. */
  lemma PatchEditsAreLeafEdits(leaves: seq<Leaf>, from: nat, to: nat, fields: seq<Field>, texts: seq<bytes>, g: Texts)
    requires DemaskJson.LeavesWithin(leaves, from, to) && FieldsApart(fields) && AreLeaves(leaves, fields)
    requires IsTextMap(g, fields, texts)
    requires InOrder(EditsFor(leaves, g), from, to)
    ensures multiset(PatchEdits(fields, texts)) == multiset(EditsFor(leaves, g))
    ensures NonEmpty(EditsFor(leaves, g))
  {
    hide JsonStrings.Encode, EditsFor, InOrder;
    var a, b := PatchEdits(fields, texts), EditsFor(leaves, g);
    forall e ensures e in a <==> e in b {
      EditsForMembers(leaves, g, e);
      if e in a {
        var k :| 0 <= k < |a| && a[k] == e;
        assert fields[k] in fields;
        var leaf :| leaf in leaves && leaf.span == Span(fields[k].span.start, fields[k].span.end, true);
        assert e == Edit(leaf.span, g[leaf.span.start]);
      }
      if e in b {
        var leaf :| leaf in leaves && leaf.span.start in g && e == Edit(leaf.span, g[leaf.span.start]);
        var k :| 0 <= k < |fields| && fields[k].span.start == leaf.span.start;
        assert fields[k] in fields;
        var other :| other in leaves && other.span == Span(fields[k].span.start, fields[k].span.end, true);
        LeafAtStart(leaves, from, to, leaf, other);
        assert a[k] == e;
      }
    }
    forall e <- b ensures e.span.start < e.span.end {
      EditsForMembers(leaves, g, e);
    }
    forall i, j | 0 <= i < j < |a| ensures a[i] != a[j] {
      assert fields[i] in fields && fields[j] in fields;
    }
    InOrderApart(b, from, to);
    forall i, j | 0 <= i < j < |b| ensures b[i] != b[j] {
      assert b[i] in b && b[j] in b;
    }
    SameElements(a, b);
  }

  lemma LeafAtStart(leaves: seq<Leaf>, from: nat, to: nat, a: Leaf, b: Leaf)
    requires DemaskJson.LeavesWithin(leaves, from, to) && a in leaves && b in leaves && a.span.start == b.span.start
    ensures a == b
  {
    var i :| 0 <= i < |leaves| && leaves[i] == a;
    var j :| 0 <= j < |leaves| && leaves[j] == b;
  }

  // ---- Fields of a valid body ----

  lemma FieldPlace(doc: bytes, f: Field, e: Entry)
    requires IsValid(doc) && FieldIs(doc, f, e) && IsEntry(TreeOf(doc), e)
    ensures var p := Locate(TreeOf(doc), f.path);
      && p.Some? && IsStr(p.value.value) && Wf(p.value.value)
      && f.span == Span(Start(doc) + p.value.offset, Start(doc) + p.value.offset + |Flat(p.value.value)|, true)
      && |Flat(p.value.value)| > 0
  {
    hide FindAt, Locate, SkipWs, ParseValue, Flat, Wf, JsonStrings.Decode, TreeOf, IsValid;
    FindInValid(doc, f.path);
    FoundIs(doc, f.path);
    FlatNonEmpty(Locate(TreeOf(doc), f.path).value.value);
  }

  /** The facts about extracted fields that patching them needs. */
  lemma FieldsAreLeaves(doc: bytes, fields: seq<Field>, es: seq<Entry>)
    requires IsValid(doc) && Matches(doc, fields, es) && AreEntries(TreeOf(doc), es) && Distinct(es)
    ensures FieldsApart(fields)
    ensures AreLeaves(Leaves(TreeOf(doc), Start(doc), []), fields)
  {
    hide FieldIs, IsEntry, Locate, Flat, Wf, TreeOf, IsValid, Leaves, HasSpan, SkipWs;
    var t := TreeOf(doc);
    forall k | 0 <= k < |fields|
      ensures fields[k].span.start < fields[k].span.end && fields[k].span.isString
      ensures HasSpan(Leaves(t, Start(doc), []), fields[k].span.start, fields[k].span.end)
    {
      assert es[k] in es;
      FieldPlace(doc, fields[k], es[k]);
      LocatedIsLeaf(t, Start(doc), [], fields[k].path);
    }
    forall i, j | 0 <= i < j < |fields|
      ensures fields[i].span.end <= fields[j].span.start || fields[j].span.end <= fields[i].span.start
    {
      assert es[i] in es && es[j] in es;
      FieldPlace(doc, fields[i], es[i]);
      FieldPlace(doc, fields[j], es[j]);
      FieldPath(doc, fields[i], es[i]);
      FieldPath(doc, fields[j], es[j]);
      DisjointPaths(t, fields[i].path, fields[j].path);
    }
  }

  lemma FieldPath(doc: bytes, f: Field, e: Entry)
    requires FieldIs(doc, f, e)
    ensures f.path == e.path && f.text == e.text && Find(doc, f.path) == Some(f.span)
  {
  }

  // ---- The patched tree ----

  lemma {:induction false} CountRewritten(ms: Members, base: nat, g: Texts)
    ensures Count(RewriteMembers(ms, base, g)) == Count(ms)
    decreases ms
  {
    match ms
    case Blank(_) =>
    case Last(_) =>
    case More(m, rest) => CountRewritten(rest, base + |FlatMember(m)| + 1, g);
  }

  /** One value, rewritten. */
  lemma RewrittenValue(v: Json, base: nat, g: Texts)
    requires Wf(v) && forall o <- g :: IsString(g[o])
    ensures var u := Rewrite(v, base, g);
      && IsStr(u) == IsStr(v) && IsArr(u) == IsArr(v) && (IsArr(v) ==> Count(u.members) == Count(v.members))
      && (IsStr(v) ==> u == if base in g then Scalar(g[base]) else v)
  {
    RewriteWf(v, base, g);
    if v.Container? {
      CountRewritten(v.members, base + 1, g);
    }
  }

  lemma ValueRewritten(t: Json, base: nat, g: Texts, p: Path)
    requires Wf(t) && forall o <- g :: IsString(g[o])
    ensures var u := Rewrite(t, base, g);
      && ArrayCount(u, p) == ArrayCount(t, p)
      && IsArrayAt(u, p) == IsArrayAt(t, p)
      && match StrAt(t, p)
         case None => StrAt(u, p) == None
         case Some(s) =>
           var at := base + Locate(t, p).value.offset;
           StrAt(u, p) == Some(if at in g then JsonStrings.Decode(g[at]) else s)
  {
    hide Locate, Rewrite, Wf, IsString, JsonStrings.Decode, Count;
    LocateRewritten(t, base, g, p);
    if Locate(t, p).Some? {
      LocatedWf(t, p);
      RewrittenValue(Locate(t, p).value.value, base + Locate(t, p).value.offset, g);
    }
  }

  lemma {:induction false} FoundMemberWf(kind: Kind, ms: Members, seg: Seg)
    requires WfMembers(kind, ms) && FindInMembers(ms, seg).Some?
    ensures Wf(FindInMembers(ms, seg).value.value)
    decreases ms
  {
    hide Hits, Flat, IsString;
    match ms
    case Last(_) =>
    case More(m, rest) => if !Hits(m.key, seg) { FoundMemberWf(kind, rest, NextSeg(seg)); }
  }

  lemma {:induction false} LocatedWf(t: Json, p: Path)
    requires Wf(t) && Locate(t, p).Some?
    ensures Wf(Locate(t, p).value.value)
    decreases |p|
  {
    hide FindInMembers, Wf, Locate;
    LocateUnfolds(t, p);
    if p != [] {
      WfContainer(t);
      FoundMemberWf(t.kind, t.members, p[0]);
      LocatedWf(FindInMembers(t.members, p[0]).value.value, p[1..]);
    }
  }

  /** The new texts, by path. */
  ghost predicate IsPathMap(m: NewTexts, fields: seq<Field>, texts: seq<bytes>) {
    && |texts| == |fields|
    && (forall k | 0 <= k < |fields| :: fields[k].path in m && m[fields[k].path] == texts[k])
    && (forall p <- m :: exists k :: 0 <= k < |fields| && fields[k].path == p)
  }

  predicate DistinctPaths(fields: seq<Field>) {
    forall i, j | 0 <= i < j < |fields| :: fields[i].path != fields[j].path
  }

  lemma MakePathMap(fields: seq<Field>, texts: seq<bytes>) returns (m: NewTexts)
    requires |texts| == |fields| && DistinctPaths(fields)
    ensures IsPathMap(m, fields, texts)
  {
    var paths := seq(|fields|, k requires 0 <= k < |fields| => fields[k].path);
    var index := MakeIndex(paths);
    m := map p | p in index :: texts[index[p]];
    forall k | 0 <= k < |fields| ensures fields[k].path in m && m[fields[k].path] == texts[k] {
      assert paths[k] == fields[k].path;
    }
    forall p <- m ensures exists k :: 0 <= k < |fields| && fields[k].path == p {
      assert fields[index[p]].path == p;
    }
  }

  /** Rewriting by offset is giving new texts by path. */
  lemma RewriteRetexts(doc: bytes, fields: seq<Field>, es: seq<Entry>, texts: seq<bytes>, g: Texts, m: NewTexts)
    requires IsValid(doc) && Matches(doc, fields, es) && AreEntries(TreeOf(doc), es)
    requires IsTextMap(g, fields, texts) && IsPathMap(m, fields, texts)
    requires Wf(TreeOf(doc)) && forall o <- g :: IsString(g[o])
    ensures Retexted(TreeOf(doc), Rewrite(TreeOf(doc), Start(doc), g), m)
    ensures IsArrayAt(Rewrite(TreeOf(doc), Start(doc), g), [MESSAGES]) == IsArrayAt(TreeOf(doc), [MESSAGES])
  {
    hide TreeOf, IsValid, Matches, AreEntries, ArrayCount, IsTextMap, IsPathMap, Rewrite, StrAt, Wf, IsString, SkipWs, IsArrayAt;
    var t := TreeOf(doc);
    var u := Rewrite(t, Start(doc), g);
    forall p ensures ArrayCount(u, p) == ArrayCount(t, p) {
      ValueRewritten(t, Start(doc), g, p);
    }
    forall p ensures StrAt(u, p) == if StrAt(t, p).Some? && p in m then Some(m[p]) else StrAt(t, p) {
      ValueRewritten(t, Start(doc), g, p);
      if StrAt(t, p).Some? {
        TextByPath(doc, fields, es, texts, g, m, p);
      }
    }
    ValueRewritten(t, Start(doc), g, [MESSAGES]);
  }

  lemma MatchAt(doc: bytes, fields: seq<Field>, es: seq<Entry>, k: nat)
    requires IsValid(doc) && Matches(doc, fields, es) && AreEntries(TreeOf(doc), es) && k < |fields|
    ensures |es| == |fields| && FieldIs(doc, fields[k], es[k]) && IsEntry(TreeOf(doc), es[k])
  {
    hide TreeOf, IsValid, FieldIs, IsEntry;
    assert es[k] in es;
  }

  lemma TextMapHas(g: Texts, fields: seq<Field>, texts: seq<bytes>, k: nat)
    requires IsTextMap(g, fields, texts) && k < |fields|
    ensures fields[k].span.start in g && JsonStrings.Decode(g[fields[k].span.start]) == texts[k]
  {
    hide JsonStrings.Encode, JsonStrings.Decode;
    JsonStrings.EncodeDecode(texts[k]);
  }

  lemma TextMapFrom(g: Texts, fields: seq<Field>, texts: seq<bytes>, o: nat) returns (k: nat)
    requires IsTextMap(g, fields, texts) && o in g
    ensures k < |fields| && fields[k].span.start == o
  {
    hide JsonStrings.Encode;
    k :| k < |fields| && fields[k].span.start == o;
  }

  lemma PathMapFrom(m: NewTexts, fields: seq<Field>, texts: seq<bytes>, p: Path) returns (k: nat)
    requires IsPathMap(m, fields, texts) && p in m
    ensures k < |fields| == |texts| && fields[k].path == p && m[p] == texts[k]
  {
    k :| k < |fields| && fields[k].path == p;
  }

  lemma PathMapHas(m: NewTexts, fields: seq<Field>, texts: seq<bytes>, k: nat)
    requires IsPathMap(m, fields, texts) && k < |fields|
    ensures fields[k].path in m
  {
  }

  /** At the place a path leads to, a new literal waits exactly when a new text does for the path. */
  lemma TextByPath(doc: bytes, fields: seq<Field>, es: seq<Entry>, texts: seq<bytes>, g: Texts, m: NewTexts, p: Path)
    requires IsValid(doc) && Matches(doc, fields, es) && AreEntries(TreeOf(doc), es)
    requires IsTextMap(g, fields, texts) && IsPathMap(m, fields, texts)
    requires StrAt(TreeOf(doc), p).Some?
    ensures Locate(TreeOf(doc), p).Some?
    ensures var at := Start(doc) + Locate(TreeOf(doc), p).value.offset;
      && (at in g <==> p in m)
      && (at in g ==> JsonStrings.Decode(g[at]) == m[p])
  {
    hide TreeOf, IsValid, FieldIs, IsEntry, Locate, Flat, Wf, SkipWs, JsonStrings.Decode, IsTextMap, IsPathMap, Matches, AreEntries, FindAt;
    var t := TreeOf(doc);
    var at := Start(doc) + Locate(t, p).value.offset;
    if p in m {
      var k := PathMapFrom(m, fields, texts, p);
      MatchAt(doc, fields, es, k);
      FieldPlace(doc, fields[k], es[k]);
      TextMapHas(g, fields, texts, k);
    }
    if at in g {
      var k := TextMapFrom(g, fields, texts, at);
      MatchAt(doc, fields, es, k);
      FieldAt(doc, fields[k], es[k], p);
      PathMapHas(m, fields, texts, k);
    }
  }

  /** The field that starts where a string stands is at the string's path. */
  lemma FieldAt(doc: bytes, f: Field, e: Entry, p: Path)
    requires IsValid(doc) && FieldIs(doc, f, e) && IsEntry(TreeOf(doc), e) && StrAt(TreeOf(doc), p).Some?
    requires f.span.start == Start(doc) + Locate(TreeOf(doc), p).value.offset
    ensures f.path == p
  {
    hide TreeOf, IsValid, FieldIs, IsEntry, Locate, Flat, Wf, SkipWs, JsonStrings.Decode, FindAt;
    FieldPlace(doc, f, e);
    if f.path != p {
      FoundIs(doc, p);
      FlatNonEmpty(Locate(TreeOf(doc), p).value.value);
      DisjointPaths(TreeOf(doc), f.path, p);
    }
  }

  lemma GoodFromEntries(doc: bytes, fields: seq<Field>, es: seq<Entry>, texts: seq<bytes>, m: NewTexts)
    requires Matches(doc, fields, es) && IsPathMap(m, fields, texts) && forall s <- texts :: s != []
    requires IsValid(doc) && AreEntries(TreeOf(doc), es)
    ensures GoodTexts(TreeOf(doc), m)
  {
    hide TreeOf, IsValid, StrAt, Matches, AreEntries, IsPathMap, FindAt;
    forall p <- m
      ensures m[p] != [] && p != [] && p[|p| - 1] != TYPE
      ensures StrAt(TreeOf(doc), p).Some? && StrAt(TreeOf(doc), p).value != []
    {
      var k := PathMapFrom(m, fields, texts, p);
      MatchAt(doc, fields, es, k);
      assert texts[k] in texts;
    }
  }

  lemma {:induction false} WithTextsAt(es: seq<Entry>, m: NewTexts)
    ensures |WithTexts(es, m)| == |es|
    ensures forall k | 0 <= k < |es| ::
      WithTexts(es, m)[k] == Entry(es[k].path, if es[k].path in m then m[es[k].path] else es[k].text)
    decreases |es|
  {
    if es != [] {
      WithTextsAt(es[1..], m);
    }
  }

  // ---- The result ----

  /** The fields of a second extraction: the same paths, with these texts. */
  predicate SamePaths(fields: seq<Field>, again: seq<Field>, texts: seq<bytes>) {
    && |again| == |fields| == |texts|
    && forall k | 0 <= k < |fields| :: again[k].path == fields[k].path && again[k].text == texts[k]
  }

  /** Extracted fields share no byte, and every path re-resolves to exactly its field's span. */
  lemma ExtractedFieldsApart(doc: bytes)
    requires IsValid(doc) && Extracted(doc).Fields?
    ensures var fields := Extracted(doc).fields;
      && FieldsApart(fields) && DistinctPaths(fields)
      && (forall f <- fields :: Find(doc, f.path) == Some(f.span) && InBounds(doc, f.span) && f.text == SpanText(doc, f.span) && f.text != [])
  {
    hide TreeOf, IsValid, FieldIs, IsEntry, AllEntries, Extracted, FindAt, SkipWs, JsonStrings.Decode;
    ExtractedIsTree(doc);
    var t, n := TreeOf(doc), ArrayCount(TreeOf(doc), [MESSAGES]);
    var fields, es := Extracted(doc).fields, TreeEntries(t);
    AllDistinct(t, 0, n);
    AllAreEntries(t, 0, n);
    FieldsAreLeaves(doc, fields, es);
    forall k | 0 <= k < |fields|
      ensures fields[k].path == es[k].path && Find(doc, fields[k].path) == Some(fields[k].span)
      ensures InBounds(doc, fields[k].span) && fields[k].text == SpanText(doc, fields[k].span) && fields[k].text != []
    {
      assert es[k] in es;
      FieldPath(doc, fields[k], es[k]);
      FoundIs(doc, fields[k].path);
      EntryText(t, es[k]);
    }
  }

  lemma EntryText(t: Json, e: Entry)
    requires IsEntry(t, e)
    ensures ValueAt(t, e.path).Some? && IsStr(ValueAt(t, e.path).value) && JsonStrings.Decode(ValueAt(t, e.path).value.text) == e.text
    ensures e.text != []
  {
  }

  /**
   Extraction commutes with patching: for a valid body with a `messages` array and any
   non-empty new texts, splice_all of the encoded texts over the field spans succeeds,
   and extracting from its result gives the same paths with exactly those texts.
   */
  lemma ExtractionCommutesWithPatching(doc: bytes, texts: seq<bytes>, order: seq<Edit>)
    requires IsValid(doc) && Extracted(doc).Fields?
    requires |texts| == |Extracted(doc).fields| && forall s <- texts :: s != []
    requires IsSortOf(order, PatchEdits(Extracted(doc).fields, texts))
    ensures Applied(doc, order).Ok?
    ensures var out := Applied(doc, order).value;
      IsValid(out) && Extracted(out).Fields? && SamePaths(Extracted(doc).fields, Extracted(out).fields, texts)
  {
    hide TreeOf, IsValid, FieldIs, IsEntry, AllEntries, Extracted, FindAt, SkipWs, Applied, IsSortOf, Retexted, GoodTexts,
      Rewrite, IsTextMap, Matches, Leaves, EditsFor, InOrder, FieldsApart, Patch, PatchEdits, Wf, IsArrayAt, AreLeaves,
      IsString, NonEmpty, ArrayCount;
    var t, a := TreeOf(doc), Start(doc);
    var fields, es := Extracted(doc).fields, TreeEntries(t);
    ExtractedIsTree(doc);
    AllDistinct(t, 0, ArrayCount(t, [MESSAGES]));
    AllAreEntries(t, 0, ArrayCount(t, [MESSAGES]));
    FieldsAreLeaves(doc, fields, es);
    ExtractedFieldsApart(doc);
    var g := MakeTextMap(fields, texts);
    var m := MakePathMap(fields, texts);
    PatchedBytes(doc, fields, texts, g, order);
    var out := Applied(doc, order).value;
    TextAround(doc);
    TextMapStrings(g, fields, texts);
    RewriteRetexts(doc, fields, es, texts, g, m);
    GoodFromEntries(doc, fields, es, texts, m);
    CountRetexted(t, TreeOf(out), m, [MESSAGES]);
    AllRetexted(t, TreeOf(out), m, 0, ArrayCount(t, [MESSAGES]));
    ExtractedIsTree(out);
    WithTextsAt(es, m);
    PathsAgain(doc, out, fields, es, Extracted(out).fields, texts, m);
  }

  lemma TextMapStrings(g: Texts, fields: seq<Field>, texts: seq<bytes>)
    requires IsTextMap(g, fields, texts)
    ensures forall o <- g :: IsString(g[o])
  {
    hide IsString, JsonStrings.Encode;
    forall o <- g ensures IsString(g[o]) {
      var k :| 0 <= k < |fields| && fields[k].span.start == o;
      JsonStrings.EncodeDecode(texts[k]);
    }
  }

  /** The patched document holds the rewritten tree. */
  lemma PatchedBytes(doc: bytes, fields: seq<Field>, texts: seq<bytes>, g: Texts, order: seq<Edit>)
    requires IsValid(doc) && FieldsApart(fields) && AreLeaves(Leaves(TreeOf(doc), Start(doc), []), fields)
    requires |texts| == |fields| && IsTextMap(g, fields, texts) && IsSortOf(order, PatchEdits(fields, texts))
    ensures Applied(doc, order).Ok?
    ensures var out := Applied(doc, order).value;
      IsValid(out) && TreeOf(out) == Rewrite(TreeOf(doc), Start(doc), g)
  {
    hide TreeOf, IsValid, SkipWs, Applied, IsSortOf, Rewrite, IsTextMap, Leaves, EditsFor, InOrder, FieldsApart, Patch,
      PatchEdits, Wf, AreLeaves, IsString, NonEmpty, Flat, IsText, ReadsAs, DemaskJson.LeavesWithin;
    var t, a := TreeOf(doc), Start(doc);
    var leaves := Leaves(t, a, []);
    TextMapStrings(g, fields, texts);
    PatchDocument(doc, g);
    ValidParts(doc);
    TextAround(doc);
    DemaskJson.LeavesInOrder(t, a, []);
    DemaskJson.Widen(leaves, a, a + |Flat(t)|, 0, |doc|);
    PatchEditsAreLeafEdits(leaves, 0, |doc|, fields, texts, g);
    SpliceAllPatches(doc, PatchEdits(fields, texts), EditsFor(leaves, g), order);
  }

  lemma PathsAgain(doc: bytes, out: bytes, fields: seq<Field>, es: seq<Entry>, again: seq<Field>, texts: seq<bytes>, m: NewTexts)
    requires Matches(doc, fields, es) && Matches(out, again, WithTexts(es, m)) && IsPathMap(m, fields, texts)
    ensures SamePaths(fields, again, texts)
  {
    hide FindAt, WithTexts, SkipWs;
    WithTextsAt(es, m);
    forall k | 0 <= k < |fields| ensures again[k].path == fields[k].path && again[k].text == texts[k] {
      assert FieldIs(doc, fields[k], es[k]) && FieldIs(out, again[k], WithTexts(es, m)[k]);
    }
  }
}
