/**
 The keyword prover of Prefilter.hpp: the nodes its parser builds, what they match, and
 the proof that a positive answer is right: every string the pattern matches contains a
 keyword, once both are lowered.
 */
module Prefilter {
  import opened Bytes
  import opened Runes
  import opened RegexSyntax
  import opened RegexParse
  import opened RegexLang
  import Scanner

  datatype Node =
    | Literal(text: bytes, fold: bool)
    | Sequence(children: seq<Node>)
    | Alternate(children: seq<Node>)
    | Capture(child: Node)
    | Repeat(min: nat, child: Node)
    | Unsupported

  /** What building gives: a node, and whether a case-folding flag has been seen; None when parsing fails. */
  type Built = Option<(Node, bool)>

  const WRAP: nat := 0x1_0000_0000_0000_0000

  // ---- From syntax to nodes ----

  function EscapeNode(e: Escape, fold: bool): Option<Node> {
    match e
    case Perl(_) => Some(Unsupported)
    case ZeroWidth(_) => Some(Unsupported)
    case Control(c) => Some(Literal([ControlByte(c)], fold))
    case Identity(r) => if r != [] && IsAlnum(r[0]) then None else Some(Literal(r, fold))
    case Property(_) => Some(Unsupported)
    case Hex(_) => Some(Unsupported)
    case Octal(_) => Some(Unsupported)
  }

  predicate MemBuilds(m: Mem) {
    m.EscMem? ==> EscapeNode(m.e, false).Some?
  }

  predicate ItemBuilds(i: Item) {
    match i
    case Single(m) => MemBuilds(m)
    case Range(lo, hi) => MemBuilds(lo) && MemBuilds(hi)
  }

  predicate ItemsBuild(items: seq<Item>) {
    forall i <- items :: ItemBuilds(i)
  }

  /** The minimum of a repetition as the parser counts it, in an unsigned 64-bit word. */
  function MinCount(d: bytes): nat {
    if d == [] then 0 else (MinCount(d[..|d| - 1]) * 10 + Digit(d[|d| - 1])) % WRAP
  }

  function Quantified(n: Node, q: Quant): Node {
    match q
    case Once => n
    case Star(_) => Repeat(0, n)
    case Plus(_) => Repeat(1, n)
    case Opt(_) => Repeat(0, n)
    case Braces(min, _, _, _) => Repeat(MinCount(min), n)
  }

  /** The children so far, and the literal run still being extended. */
  datatype Acc = Acc(children: seq<Node>, pending: Option<Node>)

  const NOTHING := Acc([], None)

  function Flushed(acc: Acc): seq<Node> {
    match acc.pending
    case None => acc.children
    case Some(n) => acc.children + [n]
  }

  /** A plain literal extends the run or starts a new one; anything else ends it. */
  function Added(acc: Acc, n: Node, q: Quant): Acc {
    if q.Once? && n.Literal? then
      if acc.pending.Some? && acc.pending.value.Literal? && acc.pending.value.fold == n.fold
      then acc.(pending := Some(Literal(acc.pending.value.text + n.text, n.fold)))
      else Acc(Flushed(acc), Some(n))
    else Acc(Flushed(acc) + [Quantified(n, q)], None)
  }

  function Finished(children: seq<Node>): Node {
    if children == [] then Literal([], false) else if |children| == 1 then children[0] else Sequence(children)
  }

  function BuildAtom(a: Atom, fold: bool): Built
    decreases a, 0
  {
    match a
    case Lit(r) => Some((Literal(r, fold), fold))
    case Esc(e) => (match EscapeNode(e, fold) case None => None case Some(n) => Some((n, fold)))
    case Anchor(_) => Some((Unsupported, fold))
    case Dot => Some((Unsupported, fold))
    case Class(_, items) => if ItemsBuild(items) then Some((Unsupported, fold)) else None
    case Group(head, body) =>
      (match BuildAlt(body, fold || (head.Flagged? && SetsFold(head.flags)))
       case None => None
       case Some(b) => Some((if head.Capturing? || head.Named? then Capture(b.0) else b.0, b.1)))
    case SetFlags(flags) => Some((Unsupported, fold || SetsFold(flags)))
  }

  function BuildConcat(c: Concat, fold: bool, acc: Acc): Built
    decreases c, 1
  {
    match c
    case Empty => Some((Finished(Flushed(acc)), fold))
    case Cons(atom, quant, rest) =>
      match BuildAtom(atom, fold)
      case None => None
      case Some(b) => BuildConcat(rest, b.1, Added(acc, b.0, quant))
  }

  /** All branches from `a` on. */
  function BuildBranches(a: Alt, fold: bool): Option<(seq<Node>, bool)>
    decreases a, 2
  {
    match a
    case Only(c) =>
      (match BuildConcat(c, fold, NOTHING) case None => None case Some(b) => Some(([b.0], b.1)))
    case Or(c, rest) =>
      match BuildConcat(c, fold, NOTHING)
      case None => None
      case Some(b) =>
        match BuildBranches(rest, b.1)
        case None => None
        case Some(bs) => Some(([b.0] + bs.0, bs.1))
  }

  function BuildAlt(a: Alt, fold: bool): Built
    decreases a, 3
  {
    match BuildBranches(a, fold)
    case None => None
    case Some(bs) => Some((if a.Only? then OnlyNode(bs.0) else Alternate(bs.0), bs.1))
  }

  function OnlyNode(nodes: seq<Node>): Node {
    if nodes == [] then Unsupported else nodes[0]
  }

  // ---- What nodes match ----

  /** Rune by rune, with case ignored. */
  ghost predicate FoldMatches(eq: Fold, s: bytes, w: bytes)
    decreases |s|
  {
    if s == [] then w == []
    else
      var n, m := RuneLength(s), RuneLength(w);
      n > 0 && m > 0 && eq(s[..n], w[..m]) && FoldMatches(eq, s[n..], w[m..])
  }

  ghost predicate LiteralMatches(eq: Fold, s: bytes, fold: bool, w: bytes) {
    WellFormed(w) && if fold then FoldMatches(eq, s, w) else w == s
  }

  ghost predicate NodeMatches(eq: Fold, n: Node, w: bytes)
    decreases n, 0, 0
  {
    match n
    case Literal(s, fold) => LiteralMatches(eq, s, fold, w)
    case Sequence(cs) => AllMatch(eq, cs, w)
    case Alternate(cs) => exists i | 0 <= i < |cs| :: NodeMatches(eq, cs[i], w)
    case Capture(c) => NodeMatches(eq, c, w)
    case Repeat(min, c) => exists k: nat | k >= min :: NodeCopies(eq, c, k, w)
    case Unsupported => WellFormed(w)
  }

  ghost predicate AllMatch(eq: Fold, cs: seq<Node>, w: bytes)
    decreases cs, 0, 0
  {
    if cs == [] then w == []
    else exists u, v :: w == u + v && NodeMatches(eq, cs[0], u) && AllMatch(eq, cs[1..], v)
  }

  ghost predicate NodeCopies(eq: Fold, n: Node, k: nat, w: bytes)
    decreases n, 1, k
  {
    if k == 0 then w == []
    else exists u, v :: w == u + v && NodeMatches(eq, n, u) && NodeCopies(eq, n, k - 1, v)
  }

  // ---- The guarantee ----

  predicate LiteralIsFoldSafe(s: bytes, fold: bool) {
    !fold || forall b <- s :: b <= 0x7F && !IsS(b)
  }

  /** Lower-casing, rune by rune; a byte that starts no rune is kept. */
  function Lower(low: bytes -> bytes, s: bytes): bytes
    decreases |s|
  {
    if s == [] then []
    else if RuneLength(s) == 0 then [s[0]] + Lower(low, s[1..])
    else low(s[..RuneLength(s)]) + Lower(low, s[RuneLength(s)..])
  }

  /** ASCII letters are lowered as in C, and U+212A to `k`; nothing is assumed of other runes. */
  ghost predicate GoodLower(low: bytes -> bytes) {
    (forall c: byte | c <= 0x7F :: low([c]) == [LowerCase(c)]) && low(KELVIN) == [0x6B]
  }

  predicate Guarantees(low: bytes -> bytes, n: Node, keywords: seq<bytes>)
    decreases n
  {
    match n
    case Literal(s, fold) => LiteralIsFoldSafe(s, fold) && Scanner.HasKeyword(Lower(low, s), keywords)
    case Sequence(cs) => exists i | 0 <= i < |cs| :: Guarantees(low, cs[i], keywords)
    case Alternate(cs) => cs != [] && forall i | 0 <= i < |cs| :: Guarantees(low, cs[i], keywords)
    case Capture(c) => Guarantees(low, c, keywords)
    case Repeat(min, c) => min >= 1 && Guarantees(low, c, keywords)
    case Unsupported => false
  }

  function LowerAll(low: bytes -> bytes, keywords: seq<bytes>): (r: seq<bytes>)
    ensures |r| == |keywords|
  {
    if keywords == [] then [] else [Lower(low, keywords[0])] + LowerAll(low, keywords[1..])
  }

  /** regex_guarantees_keyword. */
  predicate RegexGuarantees(low: bytes -> bytes, pattern: bytes, keywords: seq<bytes>) {
    keywords != [] &&
    match Parse(pattern)
    case None => false
    case Some(a) =>
      match BuildAlt(a, false)
      case None => false
      case Some(b) => Guarantees(low, b.0, LowerAll(low, keywords))
  }
}
