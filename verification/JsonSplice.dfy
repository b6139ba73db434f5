/**
 Editing by span: splice and splice_all of Json.hpp, and substitution of one value in a
 valid document by another.
 */
module JsonSplice {
  import opened Bytes
  import opened JsonLookup

  datatype Error = OutOfBounds | Overlapping

  datatype Edit = Edit(span: Span, text: bytes)

  // ---- One edit ----

  /** `s` with the bytes `[a, b)` replaced. */
  function Replaced<T>(s: seq<T>, a: nat, b: nat, r: seq<T>): seq<T>
    requires a <= b <= |s|
  {
    s[..a] + r + s[b..]
  }

  predicate InBounds(doc: bytes, s: Span) {
    s.start <= s.end <= |doc|
  }

  method Splice(doc: bytes, s: Span, replacement: bytes) returns (r: Result<bytes, Error>)
    ensures r == if InBounds(doc, s) then Ok(Replaced(doc, s.start, s.end, replacement)) else Err(OutOfBounds)
  {
    if s.start > s.end || s.end > |doc| {
      return Err(OutOfBounds);
    }
    var out := doc[..s.start];
    out := out + replacement;
    out := out + doc[s.end..];
    return Ok(out);
  }

  // ---- Many edits ----

  /** `doc[from..to]` with every edit applied, the edits being in order and apart. */
  function Patch(doc: bytes, from: nat, to: nat, edits: seq<Edit>): bytes
    requires InOrder(edits, from, to) && to <= |doc|
    decreases |edits|
  {
    if edits == [] then doc[from..to]
    else doc[from..edits[0].span.start] + edits[0].text + Patch(doc, edits[0].span.end, to, edits[1..])
  }

  /** The edits lie in `[from, to)`, each after the one before. */
  predicate InOrder(edits: seq<Edit>, from: nat, to: nat)
    decreases |edits|
  {
    if edits == [] then from <= to
    else from <= edits[0].span.start <= edits[0].span.end <= to && InOrder(edits[1..], edits[0].span.end, to)
  }

  predicate SortedByStart(edits: seq<Edit>) {
    forall i, j | 0 <= i < j < |edits| :: edits[i].span.start <= edits[j].span.start
  }

  /** `order` is `edits` sorted by start; edits with one start may come either way. */
  ghost predicate IsSortOf(order: seq<Edit>, edits: seq<Edit>) {
    SortedByStart(order) && multiset(order) == multiset(edits)
  }

  /** The first fault found in sorted edits, if there is one. */
  function FirstFault(doc: bytes, order: seq<Edit>, i: nat): Option<Error>
    requires i <= |order|
    decreases |order| - i
  {
    if i == |order| then None
    else if !InBounds(doc, order[i].span) then Some(OutOfBounds)
    else if i > 0 && order[i].span.start < order[i - 1].span.end then Some(Overlapping)
    else FirstFault(doc, order, i + 1)
  }

  function Inserted(e: Edit, s: seq<Edit>): seq<Edit> {
    if s == [] || e.span.start <= s[0].span.start then [e] + s
    else [s[0]] + Inserted(e, s[1..])
  }

  lemma {:induction false} InsertedMultiset(e: Edit, s: seq<Edit>)
    ensures multiset(Inserted(e, s)) == multiset{e} + multiset(s)
  {
    if s != [] && e.span.start > s[0].span.start {
      InsertedMultiset(e, s[1..]);
      assert s == [s[0]] + s[1..];
    }
  }

  lemma {:induction false} InsertedSorted(e: Edit, s: seq<Edit>)
    requires SortedByStart(s)
    ensures SortedByStart(Inserted(e, s))
    ensures |Inserted(e, s)| > 0 && (Inserted(e, s)[0] == e || (s != [] && Inserted(e, s)[0] == s[0]))
  {
    if s == [] || e.span.start <= s[0].span.start {
      SortedCons(e, s);
    } else {
      InsertedSorted(e, s[1..]);
      SortedCons(s[0], Inserted(e, s[1..]));
    }
  }

  lemma SortedCons(e: Edit, s: seq<Edit>)
    requires SortedByStart(s) && (s != [] ==> e.span.start <= s[0].span.start)
    ensures SortedByStart([e] + s)
  {
    var r := [e] + s;
    forall i, j | 0 <= i < j < |r| ensures r[i].span.start <= r[j].span.start {
      assert s[0].span.start <= s[j - 1].span.start;
      if i > 0 {
        assert s[i - 1].span.start <= s[j - 1].span.start;
      }
    }
  }

  /** Stands in for the library's sort, of which only the result's order is used. */
  function SortEdits(edits: seq<Edit>): seq<Edit> {
    if edits == [] then [] else Inserted(edits[0], SortEdits(edits[1..]))
  }

  lemma {:induction false} SortEditsSorts(edits: seq<Edit>)
    ensures IsSortOf(SortEdits(edits), edits)
  {
    if edits != [] {
      SortEditsSorts(edits[1..]);
      InsertedMultiset(edits[0], SortEdits(edits[1..]));
      InsertedSorted(edits[0], SortEdits(edits[1..]));
      assert edits == [edits[0]] + edits[1..];
    }
  }

  lemma {:induction false} NoFaultInOrder(doc: bytes, order: seq<Edit>, i: nat)
    requires i <= |order| && FirstFault(doc, order, i) == None
    requires i > 0 ==> InBounds(doc, order[i - 1].span)
    ensures InOrder(order[i..], if i == 0 then 0 else order[i - 1].span.end, |doc|)
    decreases |order| - i
  {
    if i < |order| {
      NoFaultInOrder(doc, order, i + 1);
      assert order[i..][1..] == order[i + 1..];
    }
  }

  /** Every edit of an ordered list lies within the bounds. */
  lemma {:induction false} OrderedBounds(edits: seq<Edit>, from: nat, to: nat)
    requires InOrder(edits, from, to)
    ensures from <= to
    ensures forall i | 0 <= i < |edits| :: from <= edits[i].span.start <= edits[i].span.end <= to
    decreases |edits|
  {
    if edits != [] {
      OrderedBounds(edits[1..], edits[0].span.end, to);
      assert forall i | 0 < i < |edits| :: edits[i] == edits[1..][i - 1];
    }
  }

  /** Applying the last edit first does not move the bytes of the earlier ones. */
  lemma {:induction false} PatchLast(doc: bytes, from: nat, to: nat, edits: seq<Edit>, k: nat)
    requires InOrder(edits, from, to) && to <= |doc| && k + 1 == |edits|
    ensures from <= edits[k].span.start <= edits[k].span.end <= to
    ensures InOrder(edits[..k], from, edits[k].span.start)
    ensures Patch(doc, from, to, edits) == Patch(doc, from, edits[k].span.start, edits[..k]) + (edits[k].text + doc[edits[k].span.end..to])
    decreases |edits|
  {
    OrderedBounds(edits, from, to);
    if k == 0 {
      assert edits[1..] == [] && edits[..0] == [];
      assert Patch(doc, edits[0].span.end, to, []) == doc[edits[0].span.end..to];
    } else {
      var e := edits[0];
      PatchLast(doc, e.span.end, to, edits[1..], k - 1);
      var init := edits[..k];
      assert edits[1..][..k - 1] == init[1..];
      assert edits[1..][k - 1] == edits[k] && init[0] == e;
      var a := doc[from..e.span.start] + e.text;
      var b := Patch(doc, e.span.end, edits[k].span.start, init[1..]);
      var c := edits[k].text + doc[edits[k].span.end..to];
      assert Patch(doc, from, edits[k].span.start, init) == a + b;
      assert a + b + c == a + (b + c);
    }
  }

  /** What splice_all computes from a sorted list: a fault, or the patched document. */
  function Applied(doc: bytes, order: seq<Edit>): Result<bytes, Error> {
    match FirstFault(doc, order, 0)
    case Some(e) => Err(e)
    case None => NoFaultInOrder(doc, order, 0); assert order[0..] == order; Ok(Patch(doc, 0, |doc|, order))
  }

  /** Edit `i` is at fault: out of the document, or over the end of the edit before it. */
  predicate IsFault(doc: bytes, order: seq<Edit>, i: nat, e: Error)
    requires i < |order|
  {
    match e
    case OutOfBounds => !InBounds(doc, order[i].span)
    case Overlapping => InBounds(doc, order[i].span) && i > 0 && order[i].span.start < order[i - 1].span.end
  }

  predicate NoFault(doc: bytes, order: seq<Edit>, i: nat)
    requires i < |order|
  {
    !IsFault(doc, order, i, OutOfBounds) && !IsFault(doc, order, i, Overlapping)
  }

  /** Edit `k` is the first at fault from `i` on. */
  predicate IsFirstFault(doc: bytes, order: seq<Edit>, i: nat, k: nat, e: Error) {
    i <= k < |order| && IsFault(doc, order, k, e) && forall j | i <= j < k :: NoFault(doc, order, j)
  }

  lemma FaultHere(doc: bytes, order: seq<Edit>, i: nat, e: Error)
    requires i < |order| && IsFault(doc, order, i, e)
    ensures IsFirstFault(doc, order, i, i, e)
  {
  }

  lemma FaultFromEarlier(doc: bytes, order: seq<Edit>, i: nat, k: nat, e: Error)
    requires i < |order| && NoFault(doc, order, i) && IsFirstFault(doc, order, i + 1, k, e)
    ensures IsFirstFault(doc, order, i, k, e)
  {
    hide NoFault, IsFault;
  }

  lemma {:induction false} FirstFaultIsLeast(doc: bytes, order: seq<Edit>, i: nat)
    requires i <= |order|
    ensures FirstFault(doc, order, i).None? ==> forall k | i <= k < |order| :: NoFault(doc, order, k)
    ensures FirstFault(doc, order, i).Some? ==> exists k: nat :: IsFirstFault(doc, order, i, k, FirstFault(doc, order, i).value)
    decreases |order| - i
  {
    hide InBounds, IsFirstFault;
    if i < |order| {
      FirstFaultIsLeast(doc, order, i + 1);
      if NoFault(doc, order, i) {
        assert FirstFault(doc, order, i) == FirstFault(doc, order, i + 1);
        if FirstFault(doc, order, i).Some? {
          var e := FirstFault(doc, order, i).value;
          var k: nat :| IsFirstFault(doc, order, i + 1, k, e);
          FaultFromEarlier(doc, order, i, k, e);
        }
      } else {
        var e := if IsFault(doc, order, i, OutOfBounds) then OutOfBounds else Overlapping;
        assert FirstFault(doc, order, i) == Some(e);
        FaultHere(doc, order, i, e);
      }
    }
  }

  /** Sorted edits are refused exactly when one of them is at fault, with the fault of the first such edit. */
  lemma RefusedIffFaulty(doc: bytes, order: seq<Edit>)
    ensures Applied(doc, order).Ok? ==> forall k | 0 <= k < |order| :: NoFault(doc, order, k)
    ensures Applied(doc, order).Err? ==> exists k: nat :: IsFirstFault(doc, order, 0, k, Applied(doc, order).error)
  {
    hide FirstFault, Patch, InOrder;
    FirstFaultIsLeast(doc, order, 0);
  }

  lemma SpliceInto(doc: bytes, a: nat, b: nat, limit: nat, text: bytes, rest: bytes)
    requires a <= b <= limit <= |doc|
    ensures Replaced(doc[..limit] + rest, a, b, text) == doc[..a] + (text + doc[b..limit] + rest)
  {
    var s := doc[..limit] + rest;
    assert s[..a] == doc[..a];
    assert s[b..] == doc[b..limit] + rest;
  }

  /** The edits applied from the last to the first, as splice_all does, give the patched document. */
  method ApplyBackwards(doc: bytes, order: seq<Edit>) returns (out: bytes)
    requires InOrder(order, 0, |doc|)
    ensures out == Patch(doc, 0, |doc|, order)
  {
    hide Patch, InOrder;
    out := doc;
    ghost var rest: bytes := [];
    ghost var limit := |doc|;
    var k := |order|;
    assert order[..k] == order;
    while k > 0
      invariant 0 <= k <= |order|
      invariant 0 <= limit <= |doc| && InOrder(order[..k], 0, limit)
      invariant out == doc[..limit] + rest
      invariant Patch(doc, 0, limit, order[..k]) + rest == Patch(doc, 0, |doc|, order)
    {
      k := k - 1;
      var e := order[k];
      ghost var now := order[..k + 1];
      PatchLast(doc, 0, limit, now, k);
      assert now[..k] == order[..k] && now[k] == e;
      var spliced := Splice(out, e.span, e.text);
      SpliceInto(doc, e.span.start, e.span.end, limit, e.text, rest);
      rest := e.text + doc[e.span.end..limit] + rest;
      out := spliced.value;
      limit := e.span.start;
    }
    assert order[..0] == [];
    PatchNothing(doc, 0, limit);
  }

  lemma PatchNothing(doc: bytes, from: nat, to: nat)
    requires InOrder([], from, to) && to <= |doc|
    ensures Patch(doc, from, to, []) == doc[from..to]
  {
  }

  method SpliceAll(doc: bytes, edits: seq<Edit>) returns (r: Result<bytes, Error>)
    ensures exists order: seq<Edit> :: IsSortOf(order, edits) && r == Applied(doc, order)
  {
    var order := SortEdits(edits);
    SortEditsSorts(edits);
    for i := 0 to |order|
      invariant FirstFault(doc, order, i) == FirstFault(doc, order, 0)
      invariant forall j | 0 <= j < i :: InBounds(doc, order[j].span)
    {
      var s := order[i].span;
      if s.start > s.end || s.end > |doc| {
        return Err(OutOfBounds);
      }
      if i > 0 && s.start < order[i - 1].span.end {
        return Err(Overlapping);
      }
    }
    NoFaultInOrder(doc, order, 0);
    assert order[0..] == order;
    var out := ApplyBackwards(doc, order);
    return Ok(out);
  }

  // ---- Edits that are already in order, or at least apart ----

  predicate NonEmpty(edits: seq<Edit>) {
    forall e <- edits :: e.span.start < e.span.end
  }

  lemma {:induction false} InOrderApart(edits: seq<Edit>, from: nat, to: nat)
    requires InOrder(edits, from, to)
    ensures forall i, j | 0 <= i < j < |edits| :: edits[i].span.end <= edits[j].span.start
    decreases |edits|
  {
    if edits != [] {
      var rest := edits[1..];
      InOrderApart(rest, edits[0].span.end, to);
      OrderedBounds(rest, edits[0].span.end, to);
      forall i, j | 0 <= i < j < |edits| ensures edits[i].span.end <= edits[j].span.start {
        assert edits[j] == rest[j - 1];
        if i > 0 {
          assert edits[i] == rest[i - 1];
        }
      }
    }
  }

  predicate StrictlySorted(a: seq<Edit>) {
    forall i, j | 0 <= i < j < |a| :: a[i].span.start < a[j].span.start
  }

  lemma TailSorted(a: seq<Edit>)
    requires a != []
    ensures StrictlySorted(a) ==> StrictlySorted(a[1..])
    ensures SortedByStart(a) ==> SortedByStart(a[1..])
  {
  }

  /** A list sorted by start with all starts different is determined by its elements. */
  lemma {:induction false} SortIsUnique(a: seq<Edit>, b: seq<Edit>)
    requires multiset(a) == multiset(b) && SortedByStart(b) && StrictlySorted(a)
    ensures a == b
    decreases |a|
  {
    hide SortedByStart, StrictlySorted;
    assert |multiset(a)| == |multiset(b)|;
    if a != [] {
      SortFirst(a, b);
      TailMultiset(a, b);
      TailSorted(a);
      TailSorted(b);
      SortIsUnique(a[1..], b[1..]);
    }
  }

  lemma SortFirst(a: seq<Edit>, b: seq<Edit>)
    requires a != [] && multiset(a) == multiset(b) && SortedByStart(b) && StrictlySorted(a)
    ensures b != [] && a[0] == b[0]
  {
    assert |multiset(a)| == |multiset(b)|;
    assert b[0] in multiset(a) && a[0] in multiset(b);
    var i :| 0 <= i < |a| && a[i] == b[0];
    var j :| 0 <= j < |b| && b[j] == a[0];
    assert b[0].span.start <= b[j].span.start;
    assert a[0].span.start <= a[i].span.start;
  }

  lemma TailMultiset(a: seq<Edit>, b: seq<Edit>)
    requires a != [] && b != [] && a[0] == b[0] && multiset(a) == multiset(b)
    ensures multiset(a[1..]) == multiset(b[1..])
  {
    assert a == [a[0]] + a[1..] && b == [b[0]] + b[1..];
    assert multiset(a[1..]) == multiset(a) - multiset{a[0]};
    assert multiset(b[1..]) == multiset(b) - multiset{b[0]};
  }

  lemma {:induction false} InOrderHasNoFault(doc: bytes, edits: seq<Edit>, i: nat)
    requires InOrder(edits, 0, |doc|) && i <= |edits|
    ensures FirstFault(doc, edits, i) == None
    decreases |edits| - i
  {
    if i < |edits| {
      OrderedBounds(edits, 0, |doc|);
      InOrderApart(edits, 0, |doc|);
      InOrderHasNoFault(doc, edits, i + 1);
    }
  }

  /** When the edits are, up to order, those of an ordered list of non-empty spans, splice_all patches them all in. */
  lemma SpliceAllPatches(doc: bytes, edits: seq<Edit>, ordered: seq<Edit>, order: seq<Edit>)
    requires InOrder(ordered, 0, |doc|) && NonEmpty(ordered)
    requires multiset(edits) == multiset(ordered)
    requires IsSortOf(order, edits)
    ensures order == ordered
    ensures Applied(doc, order) == Ok(Patch(doc, 0, |doc|, ordered))
  {
    InOrderApart(ordered, 0, |doc|);
    forall i, j | 0 <= i < j < |ordered| ensures ordered[i].span.start < ordered[j].span.start {
      assert ordered[i] in ordered;
    }
    SortIsUnique(ordered, order);
    InOrderHasNoFault(doc, ordered, 0);
  }
}
