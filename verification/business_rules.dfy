/**
 * The ordered text rewrites `apply_business_rules` makes on a filled
 * paragraph. Each `re.sub` is one `Rule`, applied by a left-to-right scanner
 * with `re.sub`'s semantics: try the pattern at each position, and after a
 * match resume right behind it, so matches never overlap.
 */
module BusinessRules {
  import opened Wrappers
  import opened Text
  import opened Dates
  import DateFacts

  datatype Rule =
    /** `\bPATTERN\b`, literally or case-insensitively. */
    | WholeWord(pattern: string, replacement: string, ignoreCase: bool)
    /** `\b\d{4}-\d{2}-\d{2}\b`, rewritten to `DD-Mon-YYYY` when it is a real date. */
    | IsoDate
    /** `(TRIGGER)([^\.]+)` case-insensitively, the second group lower-cased. */
    | LowerClause(trigger: string)
    /** `(\d+)-YEARS-old` case-insensitively, rewritten to `\1-year-old`. */
    | AgePhrase
    /** `(SAE of )([A-Z])`, the letter lower-cased. */
    | LowerAfterSaeOf

  /** A match: how many characters it consumes and what replaces them. */
  datatype Hit = Hit(len: nat, text: string)

  predicate CharEq(a: char, b: char, ignoreCase: bool) {
    if ignoreCase then SameIgnoringCase(a, b) else a == b
  }

  /** `lit` occurs at `i`. */
  predicate LiteralAt(s: string, i: nat, lit: string, ignoreCase: bool) {
    i + |lit| <= |s| && forall j :: 0 <= j < |lit| ==> CharEq(s[i + j], lit[j], ignoreCase)
  }

  /** `\b` at position `p`: exactly one of the neighbouring characters is a word character. */
  predicate Boundary(s: string, p: nat)
    requires p <= |s|
  {
    (p > 0 && IsWordChar(s[p - 1])) != (p < |s| && IsWordChar(s[p]))
  }

  /** The index of the first '.' at or after `p`, or `|s|`: the end of `[^\.]+`. */
  function ClauseEnd(s: string, p: nat): (r: nat)
    requires p <= |s|
    ensures p <= r <= |s|
    ensures r < |s| ==> s[r] == '.'
    ensures forall k :: p <= k < r ==> s[k] != '.'
    decreases |s| - p
  {
    if p == |s| || s[p] == '.' then p else ClauseEnd(s, p + 1)
  }

  /** The index just past the run of digits starting at `p`: the end of greedy `\d+`. */
  function DigitRunEnd(s: string, p: nat): (r: nat)
    requires p <= |s|
    ensures p <= r <= |s|
    ensures r < |s| ==> !IsDigit(s[r])
    ensures forall k :: p <= k < r ==> IsDigit(s[k])
    decreases |s| - p
  {
    if p == |s| || !IsDigit(s[p]) then p else DigitRunEnd(s, p + 1)
  }

  /** `_date_repl`: a token that `strptime("%Y-%m-%d")` accepts becomes `DD-Mon-YYYY`, any other stays. */
  function DateRewrite(raw: string): string {
    match ParseYmd(raw)
    case Some(d) => FormatDmy(d)
    case None => raw
  }

  const AgeSuffix := "-YEARS-old"
  const SaeOf := "SAE of "

  /** The match of `rule` starting at `i`, if any. */
  function MatchAt(rule: Rule, s: string, i: nat): (r: Option<Hit>)
    requires i < |s|
    ensures r.Some? ==> 0 < r.value.len <= |s| - i
  {
    match rule
    case WholeWord(pat, rep, ci) =>
      if |pat| > 0 && LiteralAt(s, i, pat, ci) && Boundary(s, i) && Boundary(s, i + |pat|) then
        Some(Hit(|pat|, rep))
      else None
    case IsoDate =>
      if DateFacts.IsoShapeAt(s, i) && Boundary(s, i) && Boundary(s, i + 10) then
        Some(Hit(10, DateRewrite(s[i..i + 10])))
      else None
    case LowerClause(trigger) =>
      if LiteralAt(s, i, trigger, true) then
        var p := i + |trigger|;
        var j := ClauseEnd(s, p);
        if j > p then Some(Hit(j - i, s[i..p] + LowerStr(s[p..j]))) else None
      else None
    case AgePhrase =>
      if IsDigit(s[i]) then
        var j := DigitRunEnd(s, i);
        if LiteralAt(s, j, AgeSuffix, true) then Some(Hit(j + |AgeSuffix| - i, s[i..j] + "-year-old"))
        else None
      else None
    case LowerAfterSaeOf =>
      if LiteralAt(s, i, SaeOf, false) && i + |SaeOf| < |s| && IsUpper(s[i + |SaeOf|]) then
        Some(Hit(|SaeOf| + 1, SaeOf + [LowerChar(s[i + |SaeOf|])]))
      else None
  }

  /** For each position of a text, the match found there, if any. */
  type Hits = seq<Option<Hit>>

  /** A table of matches for `s`: one entry per position, each match inside the text. */
  predicate Fits(hits: Hits, s: string) {
    |hits| == |s| && forall p :: 0 <= p < |s| && hits[p].Some? ==> 0 < hits[p].value.len <= |s| - p
  }

  /** Where `rule` matches when tried at each position of `s`. */
  function Table(rule: Rule, s: string): (hits: Hits)
    ensures Fits(hits, s)
  {
    seq(|s|, p requires 0 <= p < |s| => MatchAt(rule, s, p))
  }

  /**
   * `re.sub`'s left-to-right pass: at a match, emit its replacement and
   * resume behind it; elsewhere copy one character.
   */
  function Rewrite(hits: Hits, s: string, i: nat): string
    requires Fits(hits, s) && i <= |s|
    decreases |s| - i
  {
    if i == |s| then ""
    else
      match hits[i]
      case Some(h) => h.text + Rewrite(hits, s, i + h.len)
      case None => [s[i]] + Rewrite(hits, s, i + 1)
  }

  function Apply(rule: Rule, s: string): string {
    Rewrite(Table(rule, s), s, 0)
  }

  const ActionTakenTrigger := "action taken with study drug was "
  const CausalityTrigger := "assessed the event as "

  /** The seven rules of `apply_business_rules` in their order (rule 6 is five substitutions). */
  const Rules: seq<Rule> := [
    WholeWord("last dose", "most recent dose", true),
    IsoDate,
    LowerClause(ActionTakenTrigger),
    LowerClause(CausalityTrigger),
    AgePhrase,
    WholeWord("WHITE", "White", false),
    WholeWord("BLACK OR AFRICAN AMERICAN", "Black or African American", false),
    WholeWord("ASIAN", "Asian", false),
    WholeWord("NOT HISPANIC OR LATINO", "Not Hispanic or Latino", false),
    WholeWord("HISPANIC OR LATINO", "Hispanic or Latino", false),
    LowerAfterSaeOf
  ]

  function ApplyRules(rules: seq<Rule>, s: string): string
    decreases |rules|
  {
    if |rules| == 0 then s else ApplyRules(rules[1..], Apply(rules[0], s))
  }

  /** `apply_business_rules`. */
  function ApplyBusinessRules(s: string): string {
    ApplyRules(Rules, s)
  }
}
