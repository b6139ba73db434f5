/** The records that the scanner, the masker and the demasker pass to one another. */
module Rules {
  import opened Bytes

  /** What these components read of a compiled rule; `compiled` is false when its regex is null. */
  datatype Rule = Rule(
    id: bytes,
    dataType: int,
    placeholder: bytes,
    captureGroups: seq<int>,
    minLength: nat,
    compiled: bool,
    eligible: bool,
    keywords: seq<bytes>)

  /** A sensitive span; the rule is None for a null pointer. */
  datatype ScanMatch = ScanMatch(start: nat, end: nat, rule: Option<Rule>)

  /** One original and the placeholder that stands for it. */
  datatype Replacement = Replacement(ruleId: bytes, dataType: int, original: bytes, placeholder: bytes)
}
