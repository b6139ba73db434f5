/**
 resolve_conflicts of Scanner.hpp: overlapping matches are merged into one span each,
 attributed to the longest, then leftmost, then lowest-id match of the run.
 */
module Conflicts {
  import opened Bytes
  import opened Rules

  // ---- The orders ----

  predicate BytesLess(a: bytes, b: bytes)
    decreases |a|
  {
    if b == [] then false
    else if a == [] then true
    else a[0] < b[0] || (a[0] == b[0] && BytesLess(a[1..], b[1..]))
  }

  lemma {:induction false} BytesLessIsTotal(a: bytes, b: bytes)
    ensures BytesLess(a, b) || BytesLess(b, a) || a == b
    ensures !(BytesLess(a, b) && BytesLess(b, a))
    decreases |a|
  {
    if a != [] && b != [] && a[0] == b[0] {
      BytesLessIsTotal(a[1..], b[1..]);
      assert a == [a[0]] + a[1..] && b == [b[0]] + b[1..];
    }
  }

  lemma {:induction false} BytesLessIsTransitive(a: bytes, b: bytes, c: bytes)
    requires !BytesLess(b, a) && !BytesLess(c, b)
    ensures !BytesLess(c, a)
    decreases |a|
  {
    if a != [] && b != [] && c != [] && a[0] == b[0] == c[0] {
      BytesLessIsTransitive(a[1..], b[1..], c[1..]);
    }
  }

  function RuleId(m: ScanMatch): bytes {
    match m.rule
    case None => []
    case Some(r) => r.id
  }

  function Length(m: ScanMatch): int {
    m.end - m.start
  }

  predicate ScanMatchLess(a: ScanMatch, b: ScanMatch) {
    if a.start != b.start then a.start < b.start
    else if Length(a) != Length(b) then Length(a) > Length(b)
    else BytesLess(RuleId(a), RuleId(b))
  }

  predicate PreferAsPrimary(m: ScanMatch, cur: ScanMatch) {
    if Length(m) != Length(cur) then Length(m) > Length(cur)
    else if m.start != cur.start then m.start < cur.start
    else BytesLess(RuleId(m), RuleId(cur))
  }

  lemma LessIsOrder(a: ScanMatch, b: ScanMatch, c: ScanMatch)
    ensures !(ScanMatchLess(a, b) && ScanMatchLess(b, a))
    ensures !ScanMatchLess(a, b) && !ScanMatchLess(b, c) ==> !ScanMatchLess(a, c)
    ensures !ScanMatchLess(a, b) && !ScanMatchLess(b, a) ==> a.start == b.start && a.end == b.end && RuleId(a) == RuleId(b)
  {
    BytesLessIsTotal(RuleId(a), RuleId(b));
    if !BytesLess(RuleId(a), RuleId(b)) && !BytesLess(RuleId(b), RuleId(c)) {
      BytesLessIsTransitive(RuleId(c), RuleId(b), RuleId(a));
    }
  }

  lemma PreferIsOrder(a: ScanMatch, b: ScanMatch, c: ScanMatch)
    ensures !PreferAsPrimary(a, a)
    ensures PreferAsPrimary(a, b) ==> !PreferAsPrimary(b, a)
    ensures !PreferAsPrimary(a, b) && !PreferAsPrimary(b, c) ==> !PreferAsPrimary(a, c)
  {
    BytesLessIsTotal(RuleId(a), RuleId(a));
    BytesLessIsTotal(RuleId(a), RuleId(b));
    if !BytesLess(RuleId(a), RuleId(b)) && !BytesLess(RuleId(b), RuleId(c)) {
      BytesLessIsTransitive(RuleId(c), RuleId(b), RuleId(a));
    }
  }

  // ---- Sorting ----

  predicate Sorted(ms: seq<ScanMatch>) {
    forall i, j | 0 <= i < j < |ms| :: !ScanMatchLess(ms[j], ms[i])
  }

  ghost predicate IsSortOf(order: seq<ScanMatch>, ms: seq<ScanMatch>) {
    Sorted(order) && multiset(order) == multiset(ms)
  }

  function Inserted(m: ScanMatch, s: seq<ScanMatch>): seq<ScanMatch> {
    if s == [] || !ScanMatchLess(s[0], m) then [m] + s else [s[0]] + Inserted(m, s[1..])
  }

  /** Stands in for the library's sort, of which only the order of the result is used. */
  function SortMatches(ms: seq<ScanMatch>): seq<ScanMatch> {
    if ms == [] then [] else Inserted(ms[0], SortMatches(ms[1..]))
  }

  lemma {:induction false} InsertedSorted(m: ScanMatch, s: seq<ScanMatch>)
    requires Sorted(s)
    ensures Sorted(Inserted(m, s)) && multiset(Inserted(m, s)) == multiset{m} + multiset(s)
    ensures s == [] || !ScanMatchLess(s[0], m) || (Inserted(m, s) != [] && Inserted(m, s)[0] == s[0])
    decreases |s|
  {
    hide ScanMatchLess;
    if s == [] || !ScanMatchLess(s[0], m) {
      SortedCons(m, s);
    } else {
      var rest := Inserted(m, s[1..]);
      InsertedSorted(m, s[1..]);
      assert s == [s[0]] + s[1..];
      LessIsOrder(s[0], m, m);
      forall x <- rest ensures !ScanMatchLess(x, s[0]) {
        assert x in multiset(rest);
        assert x == m || x in multiset(s[1..]);
        if x in s[1..] {
          var i :| 0 <= i < |s| - 1 && s[1..][i] == x;
          assert s[i + 1] == x;
        }
      }
      FirstLeast(s[0], rest);
    }
  }

  lemma SortedCons(m: ScanMatch, s: seq<ScanMatch>)
    requires Sorted(s) && (s != [] ==> !ScanMatchLess(s[0], m))
    ensures Sorted([m] + s)
  {
    hide ScanMatchLess;
    forall x <- s ensures !ScanMatchLess(x, m) {
      var i :| 0 <= i < |s| && s[i] == x;
      if i > 0 {
        LessIsOrder(s[i], s[0], m);
      }
    }
    FirstLeast(m, s);
  }

  lemma FirstLeast(m: ScanMatch, s: seq<ScanMatch>)
    requires Sorted(s) && forall x <- s :: !ScanMatchLess(x, m)
    ensures Sorted([m] + s)
  {
    hide ScanMatchLess;
    var r := [m] + s;
    forall i, j | 0 <= i < j < |r| ensures !ScanMatchLess(r[j], r[i]) {
      assert r[j] == s[j - 1] && s[j - 1] in s;
      if i > 0 {
        assert r[i] == s[i - 1];
      }
    }
  }

  lemma {:induction false} SortMatchesSorts(ms: seq<ScanMatch>)
    ensures IsSortOf(SortMatches(ms), ms)
  {
    hide ScanMatchLess;
    if ms != [] {
      SortMatchesSorts(ms[1..]);
      InsertedSorted(ms[0], SortMatches(ms[1..]));
      assert ms == [ms[0]] + ms[1..];
    }
  }

  /** Equal ids mean equal rules. */
  predicate UniqueIds(ms: seq<ScanMatch>) {
    forall a <- ms, b <- ms | RuleId(a) == RuleId(b) :: a.rule == b.rule
  }

  /** With unique ids there is only one sorted order of a multiset of matches. */
  lemma {:induction false} SortIsUnique(a: seq<ScanMatch>, b: seq<ScanMatch>)
    requires Sorted(a) && Sorted(b) && multiset(a) == multiset(b) && UniqueIds(a)
    ensures a == b
    decreases |a|
  {
    hide ScanMatchLess, Sorted, UniqueIds;
    assert |multiset(a)| == |multiset(b)|;
    if a != [] {
      SortFirst(a, b);
      TailsAgree(a, b);
      SortedTail(a);
      SortedTail(b);
      SortIsUnique(a[1..], b[1..]);
    }
  }

  lemma SortFirst(a: seq<ScanMatch>, b: seq<ScanMatch>)
    requires a != [] && b != [] && Sorted(a) && Sorted(b) && multiset(a) == multiset(b) && UniqueIds(a)
    ensures a[0] == b[0]
  {
    hide ScanMatchLess;
    assert b[0] in multiset(a) && a[0] in multiset(b);
    var i :| 0 <= i < |a| && a[i] == b[0];
    var j :| 0 <= j < |b| && b[j] == a[0];
    LessIsOrder(a[0], a[0], a[0]);
    assert !ScanMatchLess(a[i], a[0]) && !ScanMatchLess(b[j], b[0]);
    LessIsOrder(a[0], b[0], a[0]);
    assert a[0] in a && a[i] in a;
  }

  lemma TailsAgree(a: seq<ScanMatch>, b: seq<ScanMatch>)
    requires a != [] && b != [] && a[0] == b[0] && multiset(a) == multiset(b)
    ensures multiset(a[1..]) == multiset(b[1..])
  {
    assert a == [a[0]] + a[1..] && b == [b[0]] + b[1..];
    assert multiset(a[1..]) == multiset(a) - multiset{a[0]};
    assert multiset(b[1..]) == multiset(b) - multiset{b[0]};
  }

  lemma SortedTail(a: seq<ScanMatch>)
    requires a != []
    ensures Sorted(a) ==> Sorted(a[1..])
    ensures UniqueIds(a) ==> UniqueIds(a[1..])
  {
    hide ScanMatchLess;
    assert forall x <- a[1..] :: x in a;
    if Sorted(a) {
      forall i, j | 0 <= i < j < |a[1..]| ensures !ScanMatchLess(a[1..][j], a[1..][i]) {
        assert a[1..][i] == a[i + 1] && a[1..][j] == a[j + 1];
      }
    }
  }

  // ---- Merging ----

  /** The primary of a run: a later match replaces the current one only when it is preferred. */
  function Primary(run: seq<ScanMatch>): (r: ScanMatch)
    requires run != []
    decreases |run|
  {
    var n := |run| - 1;
    if n == 0 then run[0]
    else
      var p := Primary(run[..n]);
      if PreferAsPrimary(run[n], p) then run[n] else p
  }

  lemma {:induction false} PrimaryIsMaximum(run: seq<ScanMatch>)
    requires run != []
    ensures Primary(run) in run
    ensures forall m <- run :: !PreferAsPrimary(m, Primary(run))
    decreases |run|
  {
    hide PreferAsPrimary;
    var n := |run| - 1;
    PreferIsOrder(run[n], run[n], run[n]);
    if n > 0 {
      var p := Primary(run[..n]);
      PrimaryIsMaximum(run[..n]);
      assert run == run[..n] + [run[n]];
      forall m <- run ensures !PreferAsPrimary(m, Primary(run)) {
        if m in run[..n] {
          PreferIsOrder(run[n], p, p);
          PreferIsOrder(m, p, run[n]);
        }
      }
    }
  }

  function CoalesceRun(start: nat, end: nat, run: seq<ScanMatch>): ScanMatch
    requires run != []
  {
    if |run| == 1 then run[0] else ScanMatch(start, end, Primary(run).rule)
  }

  method Coalesce(start: nat, end: nat, run: seq<ScanMatch>) returns (r: ScanMatch)
    requires run != []
    ensures r == CoalesceRun(start, end, run)
  {
    hide PreferAsPrimary;
    if |run| == 1 {
      return run[0];
    }
    var primary := run[0];
    for i := 1 to |run|
      invariant primary == Primary(run[..i])
    {
      assert run[..i + 1][..i] == run[..i];
      if PreferAsPrimary(run[i], primary) {
        primary := run[i];
      }
    }
    assert run[..|run|] == run;
    return ScanMatch(start, end, primary.rule);
  }

  function Max(a: nat, b: nat): nat {
    if a > b then a else b
  }

  /** The sweep over sorted matches: `run` is being grown, `rest` has not been reached. */
  function Sweep(run: seq<ScanMatch>, runEnd: nat, rest: seq<ScanMatch>): seq<ScanMatch>
    requires run != []
    decreases |rest|
  {
    if rest == [] then [CoalesceRun(run[0].start, runEnd, run)]
    else if rest[0].start < runEnd then Sweep(run + [rest[0]], Max(runEnd, rest[0].end), rest[1..])
    else [CoalesceRun(run[0].start, runEnd, run)] + Sweep([rest[0]], rest[0].end, rest[1..])
  }

  function Merged(order: seq<ScanMatch>): seq<ScanMatch> {
    if order == [] then [] else Sweep([order[0]], order[0].end, order[1..])
  }

  function Resolved(ms: seq<ScanMatch>): seq<ScanMatch> {
    Merged(SortMatches(ms))
  }

  method ResolveConflicts(ms: seq<ScanMatch>) returns (resolved: seq<ScanMatch>)
    ensures resolved == Resolved(ms)
  {
    hide ScanMatchLess, CoalesceRun, SortMatches;
    SortOfFew(ms);
    if |ms| <= 1 {
      return ms;
    }
    var order := SortMatches(ms);
    resolved := [];
    SortMatchesSorts(ms);
    assert |multiset(order)| == |multiset(ms)|;
    var runStart, runEnd := order[0].start, order[0].end;
    var run := [order[0]];
    for i := 1 to |order|
      invariant run != [] && runStart == run[0].start && 0 <= runEnd && 0 <= runStart
      invariant resolved + Sweep(run, runEnd, order[i..]) == Merged(order)
    {
      var m := order[i];
      assert order[i..][1..] == order[i + 1..] && order[i..][0] == m;
      if m.start < runEnd {
        run := run + [m];
        if m.end > runEnd {
          runEnd := m.end;
        }
        continue;
      }
      var one := Coalesce(runStart, runEnd, run);
      Join3(resolved, [one], Sweep([m], m.end, order[i + 1..]));
      resolved := resolved + [one];
      runStart, runEnd := m.start, m.end;
      run := [m];
    }
    var last := Coalesce(runStart, runEnd, run);
    resolved := resolved + [last];
  }

  lemma SortOfFew(ms: seq<ScanMatch>)
    ensures |ms| <= 1 ==> Resolved(ms) == ms
  {
    if |ms| == 1 {
      assert ms[1..] == [] && ms == [ms[0]];
      assert SortMatches([]) == [];
      assert SortMatches(ms) == ms;
    }
  }

  // ---- What the merged spans are ----

  predicate NonEmpty(ms: seq<ScanMatch>) {
    forall m <- ms :: m.start < m.end
  }

  predicate Covered(ms: seq<ScanMatch>, x: nat) {
    exists m <- ms :: m.start <= x < m.end
  }

  /** In order, and no two share a byte. */
  predicate Separate(ms: seq<ScanMatch>) {
    forall i, j | 0 <= i < j < |ms| :: ms[i].end <= ms[j].start
  }

  predicate Inside(m: ScanMatch, o: ScanMatch) {
    o.start <= m.start && m.end <= o.end
  }

  /** `o` has the rule of a match inside it that no other match inside it is preferred to. */
  predicate Attributed(o: ScanMatch, ms: seq<ScanMatch>) {
    exists p <- ms :: Inside(p, o) && o.rule == p.rule && forall m <- ms | Inside(m, o) :: !PreferAsPrimary(m, p)
  }

  /** Some match reaches across the boundary before byte `x`. */
  predicate Bridged(ms: seq<ScanMatch>, x: nat) {
    exists m <- ms :: m.start < x < m.end
  }

  /** Nothing that only touches was joined: every boundary within `o` lies within a match. */
  predicate Unbroken(o: ScanMatch, ms: seq<ScanMatch>) {
    forall x: nat | o.start < x < o.end :: Bridged(ms, x)
  }

  predicate StartsFrom(ms: seq<ScanMatch>, from: nat) {
    forall m <- ms :: m.start >= from
  }

  /** A run: non-empty matches, all starting at or after the first one, whose union is one span. */
  ghost predicate IsRun(run: seq<ScanMatch>, end: nat) {
    && run != [] && NonEmpty(run) && run[0].start < end
    && (forall m <- run :: run[0].start <= m.start && m.end <= end)
    && (forall x | run[0].start <= x < end :: Covered(run, x))
    && (forall x | run[0].start < x < end :: Bridged(run, x))
    && (|run| == 1 ==> run[0].end == end)
  }

  lemma RunGrows(run: seq<ScanMatch>, end: nat, m: ScanMatch)
    requires IsRun(run, end) && m.start < m.end && run[0].start <= m.start < end
    ensures IsRun(run + [m], Max(end, m.end))
  {
    var now := run + [m];
    forall x | run[0].start <= x < Max(end, m.end) ensures Covered(now, x) {
      if x < end {
        assert Covered(run, x);
        var c :| c in run && c.start <= x < c.end;
        assert c in now;
      } else {
        assert m in now;
      }
    }
    forall x | run[0].start < x < Max(end, m.end) ensures Bridged(now, x) {
      if x < end {
        assert Bridged(run, x);
        var c :| c in run && c.start < x < c.end;
        assert c in now;
      } else {
        assert m in now;
      }
    }
    assert forall c <- now :: c in run || c == m;
  }

  /** The span a run is merged into. */
  lemma RunMerged(run: seq<ScanMatch>, end: nat)
    requires IsRun(run, end)
    ensures var o := CoalesceRun(run[0].start, end, run);
      o.start == run[0].start && o.end == end && Attributed(o, run) && Unbroken(o, run)
  {
    hide PreferAsPrimary, Bridged;
    var o := CoalesceRun(run[0].start, end, run);
    PrimaryIsMaximum(run);
    assert Primary(run) in run;
    assert Inside(Primary(run), o);
  }

  lemma CoveredConcat(a: seq<ScanMatch>, b: seq<ScanMatch>, x: nat)
    ensures Covered(a + b, x) <==> Covered(a, x) || Covered(b, x)
  {
    assert forall m <- a + b :: m in a || m in b;
    assert forall m <- a :: m in a + b;
    assert forall m <- b :: m in a + b;
  }

  /** Matches that lie elsewhere do not matter for attribution. */
  lemma AttributedAmong(o: ScanMatch, ms: seq<ScanMatch>, all: seq<ScanMatch>)
    requires Attributed(o, ms)
    requires forall m <- ms :: m in all
    requires forall m <- all | Inside(m, o) :: m in ms
    ensures Attributed(o, all)
  {
    hide PreferAsPrimary, Inside;
    var p :| p in ms && Inside(p, o) && o.rule == p.rule && forall m <- ms | Inside(m, o) :: !PreferAsPrimary(m, p);
    assert p in all;
  }

  lemma UnbrokenAmong(o: ScanMatch, ms: seq<ScanMatch>, all: seq<ScanMatch>)
    requires Unbroken(o, ms) && forall m <- ms :: m in all
    ensures Unbroken(o, all)
  {
    forall x: nat | o.start < x < o.end ensures Bridged(all, x) {
      assert Bridged(ms, x);
      var m :| m in ms && m.start < x < m.end;
      assert m in all;
    }
  }

  predicate Ordered(run: seq<ScanMatch>, rest: seq<ScanMatch>) {
    && (forall m <- run, r <- rest :: m.start <= r.start)
    && (forall i, j | 0 <= i < j < |rest| :: rest[i].start <= rest[j].start)
  }

  ghost predicate GoodMerge(result: seq<ScanMatch>, from: nat, ms: seq<ScanMatch>) {
    && result != [] && NonEmpty(result) && Separate(result) && StartsFrom(result, from)
    && (forall x :: Covered(result, x) <==> Covered(ms, x))
    && (forall o <- result :: Attributed(o, ms) && Unbroken(o, ms))
  }

  /** The sweep's result: separate spans over the same bytes, each with the rule of its preferred match. */
  lemma {:induction false} SweepMerges(run: seq<ScanMatch>, end: nat, rest: seq<ScanMatch>)
    requires IsRun(run, end) && NonEmpty(rest) && Ordered(run, rest)
    ensures GoodMerge(Sweep(run, end, rest), run[0].start, run + rest)
    decreases |rest|
  {
    hide IsRun, Attributed, CoalesceRun, GoodMerge, Ordered, NonEmpty;
    RunStart(run, end);
    var o := CoalesceRun(run[0].start, end, run);
    RunMerged(run, end);
    if rest == [] {
      assert run + rest == run;
      OneSpan(run, end, o);
    } else {
      var m := rest[0];
      FirstOfRest(run, rest);
      if m.start < end {
        RunGrows(run, end, m);
        OrderedStep(run, rest);
        SweepMerges(run + [m], Max(end, m.end), rest[1..]);
        Join3(run, [m], rest[1..]);
      } else {
        SingleRun(m);
        OrderedTail(run, rest);
        SweepMerges([m], m.end, rest[1..]);
        NextSpan(run, end, rest, o, Sweep([m], m.end, rest[1..]));
      }
    }
  }

  lemma FirstOfRest(run: seq<ScanMatch>, rest: seq<ScanMatch>)
    requires run != [] && rest != [] && NonEmpty(rest) && Ordered(run, rest)
    ensures run[0].start <= rest[0].start < rest[0].end && NonEmpty(rest[1..]) && rest == [rest[0]] + rest[1..]
    ensures forall r <- rest :: r.start >= rest[0].start
  {
    assert rest[0] in rest && run[0] in run;
    assert forall r <- rest[1..] :: r in rest;
    forall r <- rest ensures r.start >= rest[0].start {
      var i :| 0 <= i < |rest| && rest[i] == r;
    }
  }

  lemma RunStart(run: seq<ScanMatch>, end: nat)
    requires IsRun(run, end)
    ensures run != [] && run[0] in run && run[0].start < end
  {
  }

  lemma SingleRun(m: ScanMatch)
    requires m.start < m.end
    ensures IsRun([m], m.end)
  {
    forall x | m.start <= x < m.end ensures Covered([m], x) {
      assert m in [m];
    }
  }

  lemma OrderedStep(run: seq<ScanMatch>, rest: seq<ScanMatch>)
    requires Ordered(run, rest) && rest != []
    ensures Ordered(run + [rest[0]], rest[1..])
  {
    OrderedTail(run, rest);
    assert forall m <- run + [rest[0]] :: m in run || m == rest[0];
    assert forall r <- rest[1..] :: r in rest;
  }

  lemma OrderedTail(run: seq<ScanMatch>, rest: seq<ScanMatch>)
    requires Ordered(run, rest) && rest != []
    ensures Ordered([rest[0]], rest[1..])
  {
    forall r <- rest[1..] ensures rest[0].start <= r.start {
      var i :| 0 <= i < |rest| - 1 && rest[1..][i] == r;
      assert rest[i + 1] == r;
    }
  }

  lemma OneSpan(run: seq<ScanMatch>, end: nat, o: ScanMatch)
    requires IsRun(run, end) && o.start == run[0].start && o.end == end && Attributed(o, run) && Unbroken(o, run)
    ensures GoodMerge([o], run[0].start, run)
  {
    hide Attributed, Unbroken;
    forall x ensures Covered([o], x) <==> Covered(run, x) {
      assert o in [o];
    }
  }

  /** A finished run before the merge of everything after it. */
  lemma NextSpan(run: seq<ScanMatch>, end: nat, rest: seq<ScanMatch>, o: ScanMatch, others: seq<ScanMatch>)
    requires IsRun(run, end) && o.start == run[0].start && o.end == end && Attributed(o, run) && Unbroken(o, run)
    requires rest != [] && NonEmpty(rest) && rest[0].start >= end && forall r <- rest :: r.start >= rest[0].start
    requires GoodMerge(others, rest[0].start, rest)
    ensures GoodMerge([o] + others, run[0].start, run + rest)
  {
    hide Attributed, Unbroken, GoodMerge;
    var all := run + rest;
    assert forall m <- all :: m in run || m in rest;
    assert forall m <- run :: m in all;
    assert forall m <- rest :: m in all;
    GoodParts(others, rest[0].start, rest);
    SeparateCons(o, others);
    forall x ensures Covered([o] + others, x) <==> Covered(all, x) {
      CoveredConcat([o], others, x);
      CoveredConcat(run, rest, x);
      SpanCovers(run, end, o, x);
    }
    AttributedAmong(o, run, all);
    UnbrokenAmong(o, run, all);
    forall u <- others ensures Attributed(u, all) && Unbroken(u, all) {
      AttributedAmong(u, rest, all);
      UnbrokenAmong(u, rest, all);
    }
    GoodFromParts([o] + others, run[0].start, all);
  }

  lemma SpanCovers(run: seq<ScanMatch>, end: nat, o: ScanMatch, x: nat)
    requires IsRun(run, end) && o.start == run[0].start && o.end == end
    ensures Covered([o], x) <==> Covered(run, x)
  {
    assert o in [o];
  }

  lemma SeparateCons(o: ScanMatch, others: seq<ScanMatch>)
    requires Separate(others) && forall u <- others :: o.end <= u.start
    ensures Separate([o] + others)
  {
    var r := [o] + others;
    forall i, j | 0 <= i < j < |r| ensures r[i].end <= r[j].start {
      assert r[j] == others[j - 1] && others[j - 1] in others;
      if i > 0 {
        assert r[i] == others[i - 1];
      }
    }
  }

  lemma GoodParts(result: seq<ScanMatch>, from: nat, ms: seq<ScanMatch>)
    requires GoodMerge(result, from, ms)
    ensures result != [] && NonEmpty(result) && Separate(result) && StartsFrom(result, from)
    ensures forall x :: Covered(result, x) <==> Covered(ms, x)
    ensures forall o <- result :: Attributed(o, ms) && Unbroken(o, ms)
  {
    hide Attributed, Unbroken, Covered;
  }

  lemma GoodFromParts(result: seq<ScanMatch>, from: nat, ms: seq<ScanMatch>)
    requires result != [] && NonEmpty(result) && Separate(result) && StartsFrom(result, from)
    requires forall x :: Covered(result, x) <==> Covered(ms, x)
    requires forall o <- result :: Attributed(o, ms) && Unbroken(o, ms)
    ensures GoodMerge(result, from, ms)
  {
    hide Attributed, Unbroken, Covered;
  }

  lemma SortedIsOrdered(order: seq<ScanMatch>)
    requires Sorted(order) && order != []
    ensures Ordered([order[0]], order[1..])
  {
    forall i, j | 0 <= i < j < |order| ensures order[i].start <= order[j].start {
      assert !ScanMatchLess(order[j], order[i]);
    }
    forall r <- order[1..] ensures order[0].start <= r.start {
      var i :| 0 <= i < |order| - 1 && order[1..][i] == r;
      assert order[i + 1] == r;
    }
  }

  lemma SameMembers(a: seq<ScanMatch>, b: seq<ScanMatch>)
    requires multiset(a) == multiset(b)
    ensures forall m :: m in a <==> m in b
  {
    forall m ensures m in a <==> m in b {
      assert m in a <==> m in multiset(a);
      assert m in b <==> m in multiset(b);
    }
  }

  lemma CoverageOfMembers(a: seq<ScanMatch>, b: seq<ScanMatch>)
    requires forall m :: m in a <==> m in b
    ensures forall x :: Covered(a, x) <==> Covered(b, x)
    ensures forall o :: Attributed(o, a) ==> Attributed(o, b)
    ensures forall o :: Unbroken(o, a) ==> Unbroken(o, b)
  {
    hide Attributed, Unbroken;
    forall o | Attributed(o, a) ensures Attributed(o, b) {
      AttributedAmong(o, a, b);
    }
    forall o | Unbroken(o, a) ensures Unbroken(o, b) {
      UnbrokenAmong(o, a, b);
    }
  }

  // ---- Attribution in plain terms ----

  /** `a` comes before `b` in the order of byte strings: a proper prefix, or smaller at the first difference. */
  predicate IdBefore(a: bytes, b: bytes) {
    exists k | 0 <= k <= |a| && k < |b| :: a[..k] == b[..k] && (k == |a| || a[k] < b[k])
  }

  lemma {:induction false} BytesLessIsBefore(a: bytes, b: bytes)
    ensures BytesLess(a, b) <==> IdBefore(a, b)
    decreases |a|
  {
    if a != [] && b != [] && a[0] == b[0] {
      var c, d := a[1..], b[1..];
      BytesLessIsBefore(c, d);
      if IdBefore(c, d) {
        var k :| 0 <= k <= |c| && k < |d| && c[..k] == d[..k] && (k == |c| || c[k] < d[k]);
        assert a[..k + 1] == [a[0]] + c[..k] && b[..k + 1] == [b[0]] + d[..k];
        assert k + 1 == |a| || a[k + 1] < b[k + 1];
      }
      if IdBefore(a, b) {
        var k :| 0 <= k <= |a| && k < |b| && a[..k] == b[..k] && (k == |a| || a[k] < b[k]);
        assert k > 0;
        assert c[..k - 1] == a[..k][1..] && d[..k - 1] == b[..k][1..];
        assert k - 1 == |c| || c[k - 1] < d[k - 1];
      }
    } else if b != [] && (a == [] || a[0] < b[0]) {
      assert a[..0] == b[..0];
    }
  }

  /** `p` is longer than `m`, or as long and further left, or there too and its id does not come after. */
  predicate Outranks(p: ScanMatch, m: ScanMatch) {
    || Length(p) > Length(m)
    || (Length(p) == Length(m) && (p.start < m.start || (p.start == m.start && !IdBefore(RuleId(m), RuleId(p)))))
  }

  /** `o` has the rule of a match inside it that outranks every match inside it. */
  predicate NamedByLongest(o: ScanMatch, ms: seq<ScanMatch>) {
    exists p <- ms :: Inside(p, o) && o.rule == p.rule && forall m <- ms | Inside(m, o) :: Outranks(p, m)
  }

  lemma AttributedByLongest(o: ScanMatch, ms: seq<ScanMatch>)
    requires Attributed(o, ms)
    ensures NamedByLongest(o, ms)
  {
    hide Inside, IdBefore;
    var p :| p in ms && Inside(p, o) && o.rule == p.rule && forall m <- ms | Inside(m, o) :: !PreferAsPrimary(m, p);
    forall m <- ms | Inside(m, o) ensures Outranks(p, m) {
      BytesLessIsBefore(RuleId(m), RuleId(p));
    }
  }

  /**
   Coalescing conserves coverage: the resolved spans are in order and share no byte, cover
   exactly the bytes of the input, join nothing that only touches, and each has the rule of
   the longest, then leftmost, then lowest-id input match inside it.
   */
  lemma ResolvedConservesCoverage(ms: seq<ScanMatch>, order: seq<ScanMatch>)
    requires NonEmpty(ms) && IsSortOf(order, ms)
    ensures Separate(Merged(order)) && NonEmpty(Merged(order))
    ensures forall x :: Covered(Merged(order), x) <==> Covered(ms, x)
    ensures forall o <- Merged(order) :: NamedByLongest(o, ms) && Unbroken(o, ms)
  {
    hide Sweep, Attributed, Unbroken, NamedByLongest, Covered, ScanMatchLess, GoodMerge;
    SameMembers(order, ms);
    CoverageOfMembers(order, ms);
    if order != [] {
      assert order == [order[0]] + order[1..];
      assert order[0] in order && forall m <- order[1..] :: m in order;
      SortedIsOrdered(order);
      SingleRun(order[0]);
      SweepMerges([order[0]], order[0].end, order[1..]);
      GoodParts(Merged(order), order[0].start, order);
      forall o <- Merged(order) ensures NamedByLongest(o, ms) {
        AttributedByLongest(o, ms);
      }
    }
  }

  /** With unique ids the result depends only on which matches there are, and how often: not on their order, nor on the sort. */
  lemma ResolvedDependsOnMultiset(a: seq<ScanMatch>, b: seq<ScanMatch>, order: seq<ScanMatch>)
    requires multiset(a) == multiset(b) && UniqueIds(a) && IsSortOf(order, b)
    ensures Merged(order) == Resolved(a)
  {
    hide Merged, SortMatches;
    SortMatchesSorts(a);
    SameMembers(SortMatches(a), a);
    assert UniqueIds(SortMatches(a));
    SortIsUnique(SortMatches(a), order);
  }
}
