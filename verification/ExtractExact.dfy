/**
 Exactly which texts of a chat completions body are extracted, and in what order, told
 by their paths in the body's tree.
 */
module ExtractExact {
  import opened Bytes
  import opened JsonGrammar
  import opened JsonScan
  import opened JsonLookup
  import opened JsonSubst
  import opened ChatCompletions
  import opened ExtractPatch
  import opened ExtractRoundTrip

  // ---- The wanted paths ----

  function Member(name: string): Seg
    requires forall i | 0 <= i < |name| :: name[i] as int < 128
  {
    Key(Ascii(name))
  }

  /** The content, or the arguments of the function call, of message `i`. */
  predicate IsDirect(p: Path, i: nat) {
    || p == [Member("messages"), Index(i), Member("content")]
    || p == [Member("messages"), Index(i), Member("function_call"), Member("arguments")]
  }

  /** The text of part `j` of the content of message `i`, a part whose type is "text". */
  predicate IsPart(t: Json, p: Path, i: nat, j: nat) {
    && p == [Member("messages"), Index(i), Member("content"), Index(j), Member("text")]
    && StrAt(t, [Member("messages"), Index(i), Member("content"), Index(j), Member("type")]) == Some(Ascii("text"))
  }

  /** The arguments of tool call `j` of message `i`. */
  predicate IsToolCall(p: Path, i: nat, j: nat) {
    p == [Member("messages"), Index(i), Member("tool_calls"), Index(j), Member("function"), Member("arguments")]
  }

  /** A text of message `i`. */
  ghost predicate IsWantedIn(t: Json, p: Path, i: nat) {
    IsDirect(p, i) || exists j: nat :: IsPart(t, p, i, j) || IsToolCall(p, i, j)
  }

  ghost predicate IsWanted(t: Json, p: Path) {
    exists i: nat :: IsWantedIn(t, p, i)
  }

  /** The place of a member among those of a message. */
  function Rank(seg: Seg): nat {
    if seg == Member("content") then 0 else if seg == Member("function_call") then 1 else 2
  }

  /** Earlier message, or same message and earlier member, or same member and earlier element. */
  predicate Precedes(p: Path, q: Path) {
    && |p| > 2 && |q| > 2 && p[1].Index? && q[1].Index?
    && (p[1].index < q[1].index
        || (p[1] == q[1]
            && (Rank(p[2]) < Rank(q[2])
                || (p[2] == q[2] && |p| > 3 && |q| > 3 && p[3].Index? && q[3].Index? && p[3].index < q[3].index))))
  }

  // ---- Paths that resolve ----

  lemma {:induction false} PrefixResolves(t: Json, p: Path, q: Path)
    requires Locate(t, p + q).Some?
    ensures Locate(t, p).Some?
    decreases |p|
  {
    hide FindInMembers;
    if p != [] {
      assert (p + q)[0] == p[0] && (p + q)[1..] == p[1..] + q;
      LocateUnfolds(t, p + q);
      LocateUnfolds(t, p);
      PrefixResolves(FindInMembers(t.members, p[0]).value.value, p[1..], q);
    }
  }

  /** A path through element `k` of `p` resolves only when there is an array at `p` that has it. */
  lemma ElementResolves(t: Json, p: Path, k: nat, q: Path)
    requires ValueAt(t, p + [Index(k)] + q).Some?
    ensures IsArrayAt(t, p) && k < ArrayCount(t, p)
  {
    hide FindInMembers;
    var whole := p + [Index(k)] + q;
    PrefixResolves(t, p + [Index(k)], q);
    PrefixResolves(t, p, [Index(k)]);
    LocateAppend(t, p, [Index(k)]);
    LocateUnfolds(ValueAt(t, p).value, [Index(k)]);
    IndexBelowCount(t, p, k);
  }

  // ---- Membership ----

  predicate IsTextAt(t: Json, p: Path, e: Entry) {
    e.path == p && StrAt(t, p) == Some(e.text) && e.text != []
  }

  lemma EntryAtIs(t: Json, p: Path, e: Entry)
    ensures e in EntryAt(t, p) <==> IsTextAt(t, p, e)
  {
    hide StrAt;
  }

  predicate IsPartOf(t: Json, content: Path, k: nat, e: Entry) {
    StrAt(t, content + [Index(k)] + [TYPE]) == Some(TEXT_TYPE) && IsTextAt(t, content + [Index(k)] + [TEXT], e)
  }

  predicate IsCallOf(t: Json, calls: Path, k: nat, e: Entry) {
    IsTextAt(t, calls + [Index(k)] + [FUNCTION] + [ARGUMENTS], e)
  }

  lemma {:induction false} PartEntriesAre(t: Json, content: Path, j: nat, n: nat, e: Entry)
    ensures e in PartEntries(t, content, j, n) <==> exists k: nat :: j <= k < n && IsPartOf(t, content, k, e)
    decreases n - j
  {
    hide StrAt, EntryAt, IsTextAt;
    if j < n {
      PartEntriesAre(t, content, j + 1, n, e);
      EntryAtIs(t, content + [Index(j)] + [TEXT], e);
      assert e in PartEntries(t, content, j, n) <==> IsPartOf(t, content, j, e) || e in PartEntries(t, content, j + 1, n);
    }
  }

  lemma {:induction false} CallEntriesAre(t: Json, calls: Path, j: nat, n: nat, e: Entry)
    ensures e in CallEntries(t, calls, j, n) <==> exists k: nat :: j <= k < n && IsCallOf(t, calls, k, e)
    decreases n - j
  {
    hide EntryAt, IsTextAt;
    if j < n {
      CallEntriesAre(t, calls, j + 1, n, e);
      var p := calls + [Index(j)] + [FUNCTION] + [ARGUMENTS];
      EntryAtIs(t, p, e);
      var mine, more := EntryAt(t, p), CallEntries(t, calls, j + 1, n);
      assert e in mine + more <==> e in mine || e in more;
      assert e in CallEntries(t, calls, j, n) <==> IsCallOf(t, calls, j, e) || e in more;
    }
  }

  /** The content of a message: the string itself, or the text parts of an array. */
  lemma ContentEntriesAre(t: Json, msg: Path, e: Entry)
    ensures e in ContentEntries(t, msg) <==> IsTextAt(t, msg + [CONTENT], e) || exists k: nat :: IsPartOf(t, msg + [CONTENT], k, e)
  {
    hide PartEntries, EntryAt, ArrayCount, ValueAt;
    var c := msg + [CONTENT];
    EntryAtIs(t, c, e);
    PartEntriesAre(t, c, 0, ArrayCount(t, c), e);
    forall k: nat | IsPartOf(t, c, k, e) ensures k < ArrayCount(t, c) && StrAt(t, c).None? {
      ElementResolves(t, c, k, [TEXT]);
    }
  }

  lemma ToolEntriesAre(t: Json, msg: Path, e: Entry)
    ensures var c := msg + [TOOL_CALLS];
      e in CallEntries(t, c, 0, ArrayCount(t, c)) <==> exists k: nat :: IsCallOf(t, c, k, e)
  {
    hide CallEntries, ArrayCount, ValueAt;
    var c := msg + [TOOL_CALLS];
    CallEntriesAre(t, c, 0, ArrayCount(t, c), e);
    forall k: nat | IsCallOf(t, c, k, e) ensures k < ArrayCount(t, c) {
      assert c + [Index(k)] + [FUNCTION] + [ARGUMENTS] == c + [Index(k)] + [FUNCTION, ARGUMENTS];
      ElementResolves(t, c, k, [FUNCTION, ARGUMENTS]);
    }
  }

  predicate InMessage(t: Json, i: nat, e: Entry) {
    e in MessageEntries(t, [MESSAGES] + [Index(i)])
  }

  lemma {:induction false} AllEntriesAre(t: Json, i: nat, n: nat, e: Entry)
    ensures e in AllEntries(t, i, n) <==> exists k: nat :: i <= k < n && InMessage(t, k, e)
    decreases n - i
  {
    hide MessageEntries;
    if i < n {
      AllEntriesAre(t, i + 1, n, e);
      assert e in AllEntries(t, i, n) <==> InMessage(t, i, e) || e in AllEntries(t, i + 1, n);
    }
  }

  lemma NamesAre()
    ensures MESSAGES == Member("messages") && CONTENT == Member("content") && FUNCTION_CALL == Member("function_call")
    ensures TOOL_CALLS == Member("tool_calls") && FUNCTION == Member("function") && ARGUMENTS == Member("arguments")
    ensures TEXT == Member("text") && TYPE == Member("type") && TEXT_TYPE == Ascii("text")
  {
  }

  /** The entries of message `i`, by their paths. */
  lemma MessageEntriesAre(t: Json, i: nat, e: Entry)
    ensures InMessage(t, i, e)
       <==> IsWantedIn(t, e.path, i) && StrAt(t, e.path) == Some(e.text) && e.text != []
  {
    hide ContentEntries, EntryAt, CallEntries, ArrayCount, StrAt, Ascii;
    NamesAre();
    var msg := [MESSAGES] + [Index(i)];
    var call := msg + [FUNCTION_CALL] + [ARGUMENTS];
    ContentEntriesAre(t, msg, e);
    EntryAtIs(t, call, e);
    ToolEntriesAre(t, msg, e);
    assert msg + [CONTENT] == [MESSAGES, Index(i), CONTENT] && call == [MESSAGES, Index(i), FUNCTION_CALL, ARGUMENTS];
    forall j: nat
      ensures IsPartOf(t, msg + [CONTENT], j, e) <==> IsPart(t, e.path, i, j) && StrAt(t, e.path) == Some(e.text) && e.text != []
      ensures IsCallOf(t, msg + [TOOL_CALLS], j, e) <==> IsToolCall(e.path, i, j) && StrAt(t, e.path) == Some(e.text) && e.text != []
    {
      assert msg + [CONTENT] + [Index(j)] + [TEXT] == [MESSAGES, Index(i), CONTENT, Index(j), TEXT];
      assert msg + [CONTENT] + [Index(j)] + [TYPE] == [MESSAGES, Index(i), CONTENT, Index(j), TYPE];
      assert msg + [TOOL_CALLS] + [Index(j)] + [FUNCTION] + [ARGUMENTS] == [MESSAGES, Index(i), TOOL_CALLS, Index(j), FUNCTION, ARGUMENTS];
    }
  }

  /** The entries of a tree are the non-empty strings at wanted paths. */
  lemma TreeEntriesAre(t: Json, e: Entry)
    ensures e in TreeEntries(t) <==> IsWanted(t, e.path) && StrAt(t, e.path) == Some(e.text) && e.text != []
  {
    hide AllEntries, ArrayCount, StrAt, InMessage, IsWantedIn;
    var n := ArrayCount(t, [MESSAGES]);
    AllEntriesAre(t, 0, n, e);
    forall i: nat
      ensures InMessage(t, i, e)
         <==> IsWantedIn(t, e.path, i) && StrAt(t, e.path) == Some(e.text) && e.text != []
      ensures InMessage(t, i, e) ==> i < n
    {
      MessageEntriesAre(t, i, e);
      if InMessage(t, i, e) {
        MessageExists(t, i, e);
      }
    }
  }

  lemma MessageExists(t: Json, i: nat, e: Entry)
    requires InMessage(t, i, e)
    ensures i < ArrayCount(t, [MESSAGES])
  {
    hide MessageEntries, ArrayCount, ValueAt;
    MessageEntriesAre(t, i, e);
    NamesAre();
    assert e.path == [MESSAGES] + [Index(i)] + e.path[2..];
    ElementResolves(t, [MESSAGES], i, e.path[2..]);
  }

  // ---- Order ----

  predicate InSequence(es: seq<Entry>) {
    forall a, b | 0 <= a < b < |es| :: Precedes(es[a].path, es[b].path)
  }

  lemma SequenceConcat(x: seq<Entry>, y: seq<Entry>)
    requires InSequence(x) && InSequence(y)
    requires forall e <- x, f <- y :: Precedes(e.path, f.path)
    ensures InSequence(x + y)
  {
    hide Precedes;
    var z := x + y;
    forall a, b | 0 <= a < b < |z| ensures Precedes(z[a].path, z[b].path) {
      if a < |x| <= b {
        assert x[a] in x && y[b - |x|] in y;
      } else if a >= |x| {
        assert z[a] == y[a - |x|] && z[b] == y[b - |x|];
      }
    }
  }

  /** The entries of element `j`, then those of later elements, below one member of one message. */
  lemma ElementsInSequence(x: seq<Entry>, y: seq<Entry>, p: Path, j: nat)
    requires |p| == 3 && p[1].Index? && |x| <= 1 && Below(x, p + [Index(j)]) && Below(y, p) && IndexFrom(y, 3, j + 1) && InSequence(y)
    ensures InSequence(x + y)
  {
    hide Rank;
    BelowWeaker(x, p, Index(j));
    forall e <- x, f <- y ensures Precedes(e.path, f.path) {
      assert p <= e.path && p <= f.path;
      assert e.path[1] == p[1] == f.path[1] && e.path[2] == p[2] == f.path[2];
    }
    SequenceConcat(x, y);
  }

  lemma OneIsInSequence(t: Json, p: Path)
    ensures |EntryAt(t, p)| <= 1 && InSequence(EntryAt(t, p)) && InSequence([])
  {
  }

  lemma {:induction false} PartsInSequence(t: Json, content: Path, j: nat, n: nat)
    requires |content| == 3 && content[1].Index?
    ensures InSequence(PartEntries(t, content, j, n))
    decreases n - j
  {
    hide EntryAt, StrAt, Distinct, Below, IndexFrom, InSequence;
    var p := content + [Index(j)];
    OneIsInSequence(t, p + [TEXT]);
    if j < n {
      PartsInSequence(t, content, j + 1, n);
      PartsDistinct(t, content, j + 1, n);
      EntryAtPlace(t, p + [TEXT], p);
      Nothing(p, 0, 0);
      var mine := if StrAt(t, p + [TYPE]) == Some(TEXT_TYPE) then EntryAt(t, p + [TEXT]) else [];
      ElementsInSequence(mine, PartEntries(t, content, j + 1, n), content, j);
    }
  }

  lemma {:induction false} CallsInSequence(t: Json, calls: Path, j: nat, n: nat)
    requires |calls| == 3 && calls[1].Index?
    ensures InSequence(CallEntries(t, calls, j, n))
    decreases n - j
  {
    hide EntryAt, Distinct, Below, IndexFrom, InSequence;
    var p := calls + [Index(j)];
    OneIsInSequence(t, p + [FUNCTION] + [ARGUMENTS]);
    if j < n {
      CallsInSequence(t, calls, j + 1, n);
      CallsDistinct(t, calls, j + 1, n);
      EntryAtPlace(t, p + [FUNCTION] + [ARGUMENTS], p);
      ElementsInSequence(EntryAt(t, p + [FUNCTION] + [ARGUMENTS]), CallEntries(t, calls, j + 1, n), calls, j);
    }
  }

  lemma MembersInSequence(x: seq<Entry>, y: seq<Entry>, msg: Path, s: Seg, u: Seg)
    requires |msg| == 2 && msg[1].Index? && Below(x, msg + [s]) && Below(y, msg + [u]) && Rank(s) < Rank(u)
    ensures forall e <- x, f <- y :: Precedes(e.path, f.path)
  {
    hide Rank;
    BelowWeaker(x, msg, s);
    BelowWeaker(y, msg, u);
    forall e <- x, f <- y ensures Precedes(e.path, f.path) {
      assert msg <= e.path && msg <= f.path;
      assert e.path[1] == msg[1] == f.path[1];
    }
  }

  lemma Ranks()
    ensures Rank(CONTENT) == 0 && Rank(FUNCTION_CALL) == 1 && Rank(TOOL_CALLS) == 2
  {
    hide Ascii;
    NamesAre();
    KeysDiffer();
  }

  lemma MessageInSequence(t: Json, i: nat)
    ensures InSequence(MessageEntries(t, [MESSAGES] + [Index(i)]))
  {
    hide EntryAt, StrAt, ArrayCount, PartEntries, CallEntries, ContentEntries, Distinct, Below, InSequence, Rank, Precedes;
    var msg := [MESSAGES] + [Index(i)];
    var a := ContentEntries(t, msg);
    var call := msg + [FUNCTION_CALL];
    var b := EntryAt(t, call + [ARGUMENTS]);
    var tools := msg + [TOOL_CALLS];
    var c := CallEntries(t, tools, 0, ArrayCount(t, tools));
    Ranks();
    ContentInSequence(t, msg);
    ContentDistinct(t, msg);
    OneIsInSequence(t, call + [ARGUMENTS]);
    EntryAtPlace(t, call + [ARGUMENTS], call);
    CallsInSequence(t, tools, 0, ArrayCount(t, tools));
    CallsDistinct(t, tools, 0, ArrayCount(t, tools));
    MembersInSequence(a, b, msg, CONTENT, FUNCTION_CALL);
    MembersInSequence(a, c, msg, CONTENT, TOOL_CALLS);
    MembersInSequence(b, c, msg, FUNCTION_CALL, TOOL_CALLS);
    SequenceConcat(a, b);
    assert forall e <- a + b :: e in a || e in b;
    SequenceConcat(a + b, c);
  }

  lemma ContentInSequence(t: Json, msg: Path)
    requires |msg| == 2 && msg[1].Index?
    ensures InSequence(ContentEntries(t, msg))
  {
    hide EntryAt, StrAt, ArrayCount, PartEntries, InSequence;
    OneIsInSequence(t, msg + [CONTENT]);
    PartsInSequence(t, msg + [CONTENT], 0, ArrayCount(t, msg + [CONTENT]));
  }

  lemma {:induction false} AllInSequence(t: Json, i: nat, n: nat)
    ensures InSequence(AllEntries(t, i, n))
    decreases n - i
  {
    hide MessageEntries, Distinct, Below, InSequence, Rank;
    OneIsInSequence(t, []);
    if i < n {
      var msg := [MESSAGES] + [Index(i)];
      var x, y := MessageEntries(t, msg), AllEntries(t, i + 1, n);
      MessageInSequence(t, i);
      AllInSequence(t, i + 1, n);
      AllDistinct(t, i + 1, n);
      forall e <- x, f <- y ensures Precedes(e.path, f.path) {
        InMessageLength(t, i, e);
        LaterLength(t, i + 1, n, f);
        assert f.path[1].index >= i + 1;
      }
      SequenceConcat(x, y);
    }
  }

  lemma InMessageLength(t: Json, i: nat, e: Entry)
    requires e in MessageEntries(t, [MESSAGES] + [Index(i)])
    ensures |e.path| > 2 && e.path[1] == Index(i)
  {
    hide MessageEntries, StrAt, Ascii;
    assert InMessage(t, i, e);
    MessageEntriesAre(t, i, e);
  }

  lemma LaterLength(t: Json, i: nat, n: nat, e: Entry)
    requires e in AllEntries(t, i, n)
    ensures |e.path| > 2
  {
    hide MessageEntries, AllEntries;
    AllEntriesAre(t, i, n, e);
    var k: nat :| i <= k < n && InMessage(t, k, e);
    InMessageLength(t, k, e);
  }

  // ---- The result ----

  predicate HasField(fields: seq<Field>, p: Path, text: bytes) {
    exists f <- fields :: f.path == p && f.text == text
  }

  /**
   Of a valid body with a `messages` array, exactly these texts are extracted: the
   non-empty strings that are the content of a message, the text of a content part of type
   "text", or the arguments of a function call or a tool call; by message, then in that
   order, then by element.
   */
  lemma ExtractedExactly(body: bytes)
    requires IsValid(body) && Extracted(body).Fields?
    ensures var t, fields := TreeOf(body), Extracted(body).fields;
      && (forall p, text :: HasField(fields, p, text) <==> IsWanted(t, p) && StrAt(t, p) == Some(text) && text != [])
      && (forall a, b | 0 <= a < b < |fields| :: Precedes(fields[a].path, fields[b].path))
  {
    hide IsValid, TreeOf, Extracted, TreeEntries, IsWanted, StrAt, Precedes, FindAt;
    ExtractedIsTree(body);
    var t, fields := TreeOf(body), Extracted(body).fields;
    var es := TreeEntries(t);
    forall p, text ensures HasField(fields, p, text) <==> IsWanted(t, p) && StrAt(t, p) == Some(text) && text != [] {
      TreeEntriesAre(t, Entry(p, text));
      FieldIffEntry(body, fields, es, p, text);
    }
    TreeInSequence(t);
    forall a, b | 0 <= a < b < |fields| ensures Precedes(fields[a].path, fields[b].path) {
      assert FieldIs(body, fields[a], es[a]) && FieldIs(body, fields[b], es[b]);
    }
  }

  lemma TreeInSequence(t: Json)
    ensures InSequence(TreeEntries(t))
  {
    hide AllEntries, InSequence, ArrayCount;
    AllInSequence(t, 0, ArrayCount(t, [MESSAGES]));
  }

  lemma FieldIffEntry(body: bytes, fields: seq<Field>, es: seq<Entry>, p: Path, text: bytes)
    requires Matches(body, fields, es)
    ensures HasField(fields, p, text) <==> Entry(p, text) in es
  {
    hide FindAt;
    if HasField(fields, p, text) {
      var f :| f in fields && f.path == p && f.text == text;
      var k :| 0 <= k < |fields| && fields[k] == f;
      assert FieldIs(body, fields[k], es[k]);
    }
    if Entry(p, text) in es {
      var k :| 0 <= k < |es| && es[k] == Entry(p, text);
      assert FieldIs(body, fields[k], es[k]);
      assert fields[k] in fields;
    }
  }
}
