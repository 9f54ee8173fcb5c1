/** What the individual rules of `apply_business_rules` do to the texts they are written for. */
module RuleExamples {
  import opened Wrappers
  import opened Text
  import opened Dates
  import DateFacts
  import opened BusinessRules
  import opened RuleFacts

  /** A rule whose only match is one covering the whole text replaces the text by that match's replacement. */
  lemma WholeTextHit(rule: Rule, s: string, h: Hit)
    requires |s| > 0 && MatchAt(rule, s, 0) == Some(h) && h.len == |s|
    ensures Apply(rule, s) == h.text
  {
    var hits := Table(rule, s);
    assert hits[0] == Some(h);
    assert Rewrite(hits, s, |s|) == "";
  }

  /** A `DD-Mon-YYYY` date is never rewritten again by the date rule. */
  lemma FormattedDateKept(d: Date)
    requires ValidDate(d)
    ensures Apply(IsoDate, FormatDmy(d)) == FormatDmy(d)
  {
    var t := FormatDmy(d);
    forall p | 0 <= p < |t| ensures MatchAt(IsoDate, t, p).None? {
      DateFacts.FormattedHasNoIsoShape(d, p);
    }
    ApplyWithoutHits(IsoDate, t);
  }

  /**
   * Rules 3 and 4: wherever the trigger occurs, in any letter case, it is kept
   * as written and the clause after it is lower-cased up to the next '.';
   * the '.' is kept and the rest of the text is rewritten on its own.
   */
  lemma ClauseLowered(trigger: string, t: string, clause: string, post: string)
    requires |trigger| > 0 && trigger[0] != '.'
    requires |t| == |trigger| && LiteralAt(t, 0, trigger, true)
    requires |clause| > 0 && forall k :: 0 <= k < |clause| ==> clause[k] != '.'
    ensures Apply(LowerClause(trigger), t + clause + "." + post)
      == t + LowerStr(clause) + "." + Apply(LowerClause(trigger), post)
  {
    var rule := LowerClause(trigger);
    var s := t + clause + "." + post;
    var hits := Table(rule, s);
    var n := |t| + |clause|;
    ClauseHit(trigger, t, clause, "." + post);
    assert s == t + clause + ("." + post);
    assert hits[0] == Some(Hit(n, t + LowerStr(clause)));
    RewriteTakesHit(hits, s, 0);
    assert s[n] == '.';
    DotStartsNoTrigger(trigger, s, n);
    RewriteCopiesOne(hits, s, n);
    ClauseSuffix(trigger, s, n + 1);
    assert s[n + 1..] == post;
  }

  /** A clause that runs to the end of the text is lower-cased to the end. */
  lemma ClauseToEnd(trigger: string, t: string, clause: string)
    requires |t| == |trigger| && LiteralAt(t, 0, trigger, true)
    requires |clause| > 0 && forall k :: 0 <= k < |clause| ==> clause[k] != '.'
    ensures Apply(LowerClause(trigger), t + clause) == t + LowerStr(clause)
  {
    ClauseHit(trigger, t, clause, "");
    assert t + clause + "" == t + clause;
    WholeTextHit(LowerClause(trigger), t + clause, Hit(|t| + |clause|, t + LowerStr(clause)));
  }

  /** Text before the first occurrence of the trigger is copied unchanged. */
  lemma ClausePrefixCopied(trigger: string, pre: string, rest: string)
    requires forall p :: 0 <= p < |pre| ==> !LiteralAt(pre + rest, p, trigger, true)
    ensures Apply(LowerClause(trigger), pre + rest) == pre + Apply(LowerClause(trigger), rest)
  {
    var s := pre + rest;
    var hits := Table(LowerClause(trigger), s);
    forall p | 0 <= p < |pre| ensures hits[p].None? {
    }
    RewriteVerbatim(hits, s, 0, |pre|);
    assert s[0..|pre|] == pre;
    ClauseSuffix(trigger, s, |pre|);
    assert s[|pre|..] == rest;
  }

  /** Both clause rules use a trigger that starts with a letter. */
  lemma ClauseTriggers()
    ensures Rules[2] == LowerClause(ActionTakenTrigger) && Rules[3] == LowerClause(CausalityTrigger)
    ensures |ActionTakenTrigger| > 0 && ActionTakenTrigger[0] != '.'
    ensures |CausalityTrigger| > 0 && CausalityTrigger[0] != '.'
  {
  }

  /** The match at the start of `t + clause + rest`, where `rest` is empty or starts with '.'. */
  lemma ClauseHit(trigger: string, t: string, clause: string, rest: string)
    requires |t| == |trigger| && LiteralAt(t, 0, trigger, true)
    requires |clause| > 0 && forall k :: 0 <= k < |clause| ==> clause[k] != '.'
    requires rest == [] || rest[0] == '.'
    ensures MatchAt(LowerClause(trigger), t + clause + rest, 0)
      == Some(Hit(|t| + |clause|, t + LowerStr(clause)))
  {
    var s := t + clause + rest;
    var m, n := |t|, |t| + |clause|;
    assert LiteralAt(s, 0, trigger, true) by {
      forall j | 0 <= j < |trigger| ensures CharEq(s[0 + j], trigger[j], true) {
        assert s[j] == t[0 + j];
      }
    }
    forall k | m <= k < n ensures s[k] != '.' {
      assert s[k] == clause[k - m];
    }
    assert n < |s| ==> s[n] == '.';
    assert ClauseEnd(s, m) == n;
    assert s[0..m] == t && s[m..n] == clause;
  }

  /** No trigger starting with a letter other than '.' occurs at a '.'. */
  lemma DotStartsNoTrigger(trigger: string, s: string, n: nat)
    requires |trigger| > 0 && trigger[0] != '.' && n < |s| && s[n] == '.'
    ensures MatchAt(LowerClause(trigger), s, n).None?
  {
    assert !CharEq(s[n + 0], trigger[0], true);
  }

  /** The clause rule looks only forward, so its rewrite of a suffix is its rewrite of that suffix alone. */
  lemma ClauseSuffix(trigger: string, s: string, k: nat)
    requires k <= |s|
    ensures Rewrite(Table(LowerClause(trigger), s), s, k) == Apply(LowerClause(trigger), s[k..])
  {
    ClauseTablesAgree(trigger, s, k);
    RewriteShift(Table(LowerClause(trigger), s), s, Table(LowerClause(trigger), s[k..]), s[k..], k, 0);
    assert k + 0 == k;
  }

  lemma ClauseTablesAgree(trigger: string, s: string, k: nat)
    requires k <= |s|
    ensures AgreeFrom(Table(LowerClause(trigger), s), Table(LowerClause(trigger), s[k..]), k)
  {
    var h1, h2 := Table(LowerClause(trigger), s), Table(LowerClause(trigger), s[k..]);
    forall q | 0 <= q < |h2| ensures h1[k + q] == h2[q] {
      ClauseMatchShift(trigger, s, k, q);
      TableAt(LowerClause(trigger), s, k + q);
      TableAt(LowerClause(trigger), s[k..], q);
    }
  }

  lemma ClauseMatchShift(trigger: string, s: string, k: nat, q: nat)
    requires k + q < |s|
    ensures MatchAt(LowerClause(trigger), s, k + q) == MatchAt(LowerClause(trigger), s[k..], q)
  {
    LiteralShift(s, k, q, trigger, true);
    if LiteralAt(s, k + q, trigger, true) {
      ClauseHitShift(trigger, s, k, q);
    }
  }

  lemma ClauseHitShift(trigger: string, s: string, k: nat, q: nat)
    requires k + q < |s| && LiteralAt(s, k + q, trigger, true)
    ensures ClauseEnd(s, k + q + |trigger|) == k + ClauseEnd(s[k..], q + |trigger|)
    ensures var p, j := k + q + |trigger|, ClauseEnd(s, k + q + |trigger|);
      s[k + q..p] == s[k..][q..p - k] && s[p..j] == s[k..][p - k..j - k]
  {
    ClauseEndShift(s, k, q + |trigger|);
  }

  lemma {:induction false} ClauseEndShift(s: string, k: nat, x: nat)
    requires k + x <= |s|
    ensures ClauseEnd(s, k + x) == k + ClauseEnd(s[k..], x)
    decreases |s| - k - x
  {
    if k + x < |s| && s[k + x] != '.' {
      assert s[k..][x] == s[k + x];
      ClauseEndShift(s, k, x + 1);
    }
  }

  /** A digit, '-' or one of the letters of "Dec". */
  predicate PlainChar(c: char) {
    IsDigit(c) || c in "-Dec"
  }

  /** Text made of digits, '-' and the letters of "Dec": nothing but the date rule can match in it. */
  predicate Plain(t: string) {
    forall k :: 0 <= k < |t| ==> PlainChar(t[k])
  }

  /** No first letter of a pattern, trigger or prefix of the rules matches a plain character, in either case. */
  lemma PlainIsNoStart(c: char, d: char, ci: bool)
    requires PlainChar(c) && d in "lWBANHaS"
    ensures !CharEq(c, d, ci)
  {
  }

  /** The first characters the rules other than the date rule need. */
  lemma RuleStarts(k: nat)
    requires k < |Rules| && k != 1
    ensures Rules[k].WholeWord? ==> |Rules[k].pattern| > 0 && Rules[k].pattern[0] in "lWBANHaS"
    ensures Rules[k].LowerClause? ==> |Rules[k].trigger| > 0 && Rules[k].trigger[0] in "lWBANHaS"
    ensures Rules[k].WholeWord? || Rules[k].LowerClause? || Rules[k].AgePhrase? || Rules[k].LowerAfterSaeOf?
  {
    if k == 0 {
    } else if k < 5 {
    } else if k < 10 {
    } else {
    }
  }

  /** Every rule but the date rule leaves plain text alone. */
  lemma PlainUntouched(k: nat, t: string)
    requires k < |Rules| && k != 1 && Plain(t)
    ensures Apply(Rules[k], t) == t
  {
    var rule := Rules[k];
    RuleStarts(k);
    forall p | 0 <= p < |t| ensures MatchAt(rule, t, p).None? {
      PlainNoMatch(rule, t, p);
    }
    ApplyWithoutHits(rule, t);
  }

  lemma PlainNoMatch(rule: Rule, t: string, p: nat)
    requires Plain(t) && p < |t|
    requires rule.WholeWord? ==> |rule.pattern| > 0 && rule.pattern[0] in "lWBANHaS"
    requires rule.LowerClause? ==> |rule.trigger| > 0 && rule.trigger[0] in "lWBANHaS"
    requires rule.WholeWord? || rule.LowerClause? || rule.AgePhrase? || rule.LowerAfterSaeOf?
    ensures MatchAt(rule, t, p).None?
  {
    assert PlainChar(t[p]);
    match rule
    case WholeWord(pat, _, ci) =>
      PlainIsNoStart(t[p], pat[0], ci);
    case LowerClause(trigger) =>
      PlainIsNoStart(t[p], trigger[0], true);
    case LowerAfterSaeOf =>
      PlainIsNoStart(t[p], SaeOf[0], false);
    case AgePhrase =>
      if IsDigit(t[p]) {
        var j := DigitRunEnd(t, p);
        if j + |AgeSuffix| <= |t| {
          assert PlainChar(t[j + 1]);
          assert !CharEq(t[j + 1], AgeSuffix[1], true);
        }
      }
  }

  lemma {:induction false} PlainSuffixUntouched(k: nat, t: string)
    requires 2 <= k <= |Rules| && Plain(t)
    ensures ApplyRules(Rules[k..], t) == t
    decreases |Rules| - k
  {
    if k < |Rules| {
      PlainUntouched(k, t);
      assert Rules[k..][0] == Rules[k] && Rules[k..][1..] == Rules[k + 1..];
      PlainSuffixUntouched(k + 1, t);
    }
  }

  /** On plain text whose date rewrite stays plain, the whole chain is just the date rule. */
  lemma PlainChainIsDateRule(t: string)
    requires Plain(t) && Plain(Apply(IsoDate, t))
    ensures ApplyBusinessRules(t) == Apply(IsoDate, t)
  {
    PlainUntouched(0, t);
    assert ApplyRules(Rules, t) == ApplyRules(Rules[1..], Apply(Rules[0], t));
    assert Rules[1..][0] == IsoDate && Rules[1..][1..] == Rules[2..];
    assert ApplyRules(Rules[1..], t) == ApplyRules(Rules[2..], Apply(IsoDate, t));
    PlainSuffixUntouched(2, Apply(IsoDate, t));
  }

  const Stamp := "2023-12-05-12-02"
  const OncePassed := "05-Dec-2023-12-02"
  const TwicePassed := "05-Dec-02-Dec-2023"

  lemma FirstPassHit()
    ensures MatchAt(IsoDate, Stamp, 0) == Some(Hit(10, "05-Dec-2023"))
  {
    var s := Stamp;
    var d := Date(2023, 12, 5);
    assert IsoText(d) == s[0..10];
    DateFacts.IsoRoundTrip(d);
    assert FormatDmy(d) == "05-Dec-2023";
  }

  lemma FirstPass()
    ensures Apply(IsoDate, Stamp) == OncePassed
  {
    var s := Stamp;
    FirstPassHit();
    forall p | 10 <= p < 16 ensures MatchAt(IsoDate, s, p).None? {
      NoIsoHit(s, p);
    }
    ApplyOneHit(IsoDate, s, 0, Hit(10, "05-Dec-2023"));
    FirstPassText();
  }

  lemma FirstPassText()
    ensures Stamp[..0] + "05-Dec-2023" + Stamp[10..] == OncePassed
  {
    assert Stamp[10..] == "-12-02";
  }

  /** The date rule cannot match where the text has no ISO shape. */
  lemma NoIsoHit(s: string, p: nat)
    requires p < |s| && !DateFacts.IsoShapeAt(s, p)
    ensures MatchAt(IsoDate, s, p).None?
  {
  }

  lemma SecondPassHit()
    ensures MatchAt(IsoDate, OncePassed, 7) == Some(Hit(10, "02-Dec-2023"))
  {
    var s := OncePassed;
    var d := Date(2023, 12, 2);
    assert IsoText(d) == s[7..17];
    DateFacts.IsoRoundTrip(d);
    assert FormatDmy(d) == "02-Dec-2023";
  }

  lemma SecondPass()
    ensures Apply(IsoDate, OncePassed) == TwicePassed
  {
    var s := OncePassed;
    forall p | 0 <= p < 7 ensures MatchAt(IsoDate, s, p).None? {
      NoIsoHit(s, p);
    }
    SecondPassHit();
    ApplyOneHit(IsoDate, s, 7, Hit(10, "02-Dec-2023"));
    SecondPassText();
  }

  lemma SecondPassText()
    ensures OncePassed[..7] + "02-Dec-2023" + OncePassed[17..] == TwicePassed
  {
    assert OncePassed[..7] == "05-Dec-" && OncePassed[17..] == [];
  }

  lemma ExamplesArePlain()
    ensures Plain(Stamp) && Plain(OncePassed) && Plain(TwicePassed)
  {
  }

  /**
   * The rule chain is not idempotent: a date written next to further
   * "-MM-DD" digits yields new ISO-shaped text on the first pass, which a
   * second pass rewrites again.
   */
  lemma RulesNotIdempotent()
    ensures ApplyBusinessRules(Stamp) == OncePassed
    ensures ApplyBusinessRules(OncePassed) == TwicePassed
    ensures ApplyBusinessRules(ApplyBusinessRules(Stamp)) != ApplyBusinessRules(Stamp)
  {
    FirstPass();
    SecondPass();
    ExamplesArePlain();
    PlainChainIsDateRule(Stamp);
    PlainChainIsDateRule(OncePassed);
  }

  const NotHispanic := "NOT HISPANIC OR LATINO"

  /** The fix for the longer value, applied first, capitalises it whole. */
  lemma LongFixWhole()
    ensures Apply(Rules[8], NotHispanic) == "Not Hispanic or Latino"
  {
    assert Rules[8] == WholeWord(NotHispanic, "Not Hispanic or Latino", false);
    assert LiteralAt(NotHispanic, 0, NotHispanic, false);
    WholeTextHit(Rules[8], NotHispanic, Hit(|NotHispanic|, "Not Hispanic or Latino"));
  }

  /** A case-sensitive pattern beginning "XY" cannot match where the text has no "XY". */
  lemma NoCaseSensitiveHit(pat: string, rep: string, t: string, p: nat)
    requires p < |t| && |pat| >= 2
    requires p + 1 < |t| ==> t[p] != pat[0] || t[p + 1] != pat[1]
    ensures MatchAt(WholeWord(pat, rep, false), t, p).None?
  {
  }

  /** A pattern that would run past the end of the text has no hit. */
  lemma NoRoomNoHit(pat: string, rep: string, t: string, p: nat)
    requires p < |t| < p + |pat|
    ensures MatchAt(WholeWord(pat, rep, false), t, p).None?
  {
  }

  /** A case-sensitive pattern differing from the text at offset `k` has no hit at the start. */
  lemma MismatchNoHit(pat: string, rep: string, t: string, k: nat)
    requires k < |pat| && k < |t| && t[k] != pat[k]
    ensures MatchAt(WholeWord(pat, rep, false), t, 0).None?
  {
    assert !CharEq(t[0 + k], pat[k], false);
  }

  /** The shorter fix then finds nothing left to change. */
  lemma ShortFixIdle()
    ensures Apply(Rules[9], "Not Hispanic or Latino") == "Not Hispanic or Latino"
  {
    var fixed := "Not Hispanic or Latino";
    assert Rules[9] == WholeWord("HISPANIC OR LATINO", "Hispanic or Latino", false);
    forall p | 0 <= p < |fixed| ensures MatchAt(Rules[9], fixed, p).None? {
      NoCaseSensitiveHit("HISPANIC OR LATINO", "Hispanic or Latino", fixed, p);
    }
    ApplyWithoutHits(Rules[9], fixed);
  }

  lemma ShortFixMatch()
    ensures MatchAt(Rules[9], NotHispanic, 4) == Some(Hit(18, "Hispanic or Latino"))
  {
    var s := NotHispanic;
    assert Rules[9] == WholeWord("HISPANIC OR LATINO", "Hispanic or Latino", false);
    assert s[4..] == "HISPANIC OR LATINO";
    assert LiteralAt(s, 4, "HISPANIC OR LATINO", false);
  }

  /** Applied first, the shorter fix capitalises only the tail of the longer value. */
  lemma ShortFixPartial()
    ensures Apply(Rules[9], NotHispanic) == "NOT Hispanic or Latino"
  {
    var s := NotHispanic;
    assert Rules[9] == WholeWord("HISPANIC OR LATINO", "Hispanic or Latino", false);
    forall p | 0 <= p < 4 ensures MatchAt(Rules[9], s, p).None? {
      NoCaseSensitiveHit("HISPANIC OR LATINO", "Hispanic or Latino", s, p);
    }
    ShortFixMatch();
    ApplyOneHit(Rules[9], s, 4, Hit(18, "Hispanic or Latino"));
    PartialText();
  }

  lemma PartialText()
    ensures NotHispanic[..4] + "Hispanic or Latino" + NotHispanic[22..] == "NOT Hispanic or Latino"
  {
    assert NotHispanic[..4] == "NOT " && NotHispanic[22..] == [];
  }

  /** The longer fix then no longer matches. */
  lemma LongFixIdle()
    ensures Apply(Rules[8], "NOT Hispanic or Latino") == "NOT Hispanic or Latino"
  {
    var t := "NOT Hispanic or Latino";
    assert Rules[8] == WholeWord(NotHispanic, "Not Hispanic or Latino", false);
    forall p | 0 <= p < |t| ensures MatchAt(Rules[8], t, p).None? {
      if p == 0 {
        MismatchNoHit(NotHispanic, "Not Hispanic or Latino", t, 5);
      } else {
        NoRoomNoHit(NotHispanic, "Not Hispanic or Latino", t, p);
      }
    }
    ApplyWithoutHits(Rules[8], t);
  }

  /**
   * Rule 6 fixes "NOT HISPANIC OR LATINO" before "HISPANIC OR LATINO", so the
   * longer value is capitalised whole; in the other order its "NOT" would stay.
   */
  lemma EthnicityOrder()
    ensures ApplyRules([Rules[8], Rules[9]], NotHispanic) == "Not Hispanic or Latino"
    ensures ApplyRules([Rules[9], Rules[8]], NotHispanic) == "NOT Hispanic or Latino"
  {
    LongFixWhole();
    ShortFixIdle();
    ShortFixPartial();
    LongFixIdle();
    ApplyTwo(Rules[8], Rules[9], NotHispanic);
    ApplyTwo(Rules[9], Rules[8], NotHispanic);
  }

  lemma ApplyTwo(first: Rule, second: Rule, s: string)
    ensures ApplyRules([first, second], s) == Apply(second, Apply(first, s))
  {
    var t := Apply(first, s);
    assert [first, second][0] == first && [first, second][1..] == [second];
    assert ApplyRules([first, second], s) == ApplyRules([second], t);
    assert [second][0] == second && [second][1..] == [];
    assert ApplyRules([second], t) == ApplyRules([], Apply(second, t));
  }
}
