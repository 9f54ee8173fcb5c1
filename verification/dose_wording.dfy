/**
 * Rule 1 of `apply_business_rules` replaces every whole-word "last dose"
 * (any letter case) by "most recent dose". This module proves that the
 * later rules never bring the phrase back, so no whole-word "last dose"
 * survives the full rule chain.
 */
module DoseWording {
  import opened Wrappers
  import opened Text
  import opened Dates
  import DateFacts
  import opened BusinessRules
  import opened RuleFacts

  const LastDose := "last dose"
  const MostRecentDose := "most recent dose"

  /**
   * `pat` occurs at `k` in `o`, ignoring case, as a whole word; `prevWord`
   * says whether the character just before `o` (if any) is a word character.
   */
  predicate OccursAt(o: string, k: nat, pat: string, prevWord: bool) {
    && LiteralAt(o, k, pat, true)
    && !(if k == 0 then prevWord else IsWordChar(o[k - 1]))
    && (k + |pat| == |o| || !IsWordChar(o[k + |pat|]))
  }

  /** No whole-word, case-insensitive occurrence of `pat` anywhere in `s`. */
  predicate NoWholeWord(s: string, pat: string) {
    forall k: nat :: k < |s| ==> !OccursAt(s, k, pat, false)
  }

  /** Whether the character before position `i` of `s` is a word character. */
  function PrevWord(s: string, i: nat): bool
    requires i <= |s|
  {
    i > 0 && IsWordChar(s[i - 1])
  }

  /** No character of `t` begins `pat` unless the next one of `t` rules out `pat`'s second. */
  predicate NoStartWithin(t: string, pat: string)
    requires |pat| >= 2
  {
    forall k :: 0 <= k < |t| && SameIgnoringCase(t[k], pat[0]) ==>
      k + 1 < |t| && !SameIgnoringCase(t[k + 1], pat[1])
  }

  /**
   * A replacement that cannot take part in an occurrence of `pat`: it keeps
   * the word-ness of both ends of the text it replaces, its first character
   * cannot continue `pat`, and no occurrence of `pat` can begin inside it.
   */
  predicate HarmlessHit(s: string, i: nat, h: Hit, pat: string)
    requires |pat| >= 2 && 0 < h.len && i + h.len <= |s|
  {
    && |h.text| > 0
    && IsWordChar(h.text[0]) == IsWordChar(s[i])
    && IsWordChar(h.text[|h.text| - 1]) == IsWordChar(s[i + h.len - 1])
    && (forall j :: 1 <= j < |pat| ==> !SameIgnoringCase(h.text[0], pat[j]))
    && NoStartWithin(h.text, pat)
  }

  /** At `i`, the table either holds a harmless match or `pat` does not occur there. */
  predicate SafeAt(hits: Hits, s: string, i: nat, pat: string)
    requires Fits(hits, s) && i < |s| && |pat| >= 2
  {
    match hits[i]
    case None => !OccursAt(s, i, pat, false)
    case Some(h) => HarmlessHit(s, i, h, pat)
  }

  predicate Safe(hits: Hits, s: string, pat: string)
    requires Fits(hits, s) && |pat| >= 2
  {
    forall p :: 0 <= p < |s| ==> SafeAt(hits, s, p, pat)
  }

  lemma ShiftOccurrence(a: string, b: string, k: nat, pat: string, pw: bool)
    requires |a| > 0
    ensures OccursAt(a + b, |a| + k, pat, pw) == OccursAt(b, k, pat, IsWordChar(a[|a| - 1]))
  {
    var o := a + b;
    if k + |pat| <= |b| {
      forall j | k <= j < k + |pat| ensures o[|a| + j] == b[j] { }
      if k + |pat| < |b| {
        assert o[|a| + k + |pat|] == b[k + |pat|];
      }
      if k > 0 {
        assert o[|a| + k - 1] == b[k - 1];
      }
    }
  }

  /** Characters equal up to case are equally word characters. */
  lemma SameCaseWordness(c: char, d: char)
    requires SameIgnoringCase(c, d)
    ensures IsWordChar(c) == IsWordChar(d)
  {
    CaseKeepsWordness(c);
    CaseKeepsWordness(d);
  }

  /** No occurrence of `pat` begins inside a replacement that leaves no room for one. */
  lemma HitPrefixClear(t: string, rest: string, k: nat, pat: string, pw: bool)
    requires |pat| >= 2 && k < |t|
    requires NoStartWithin(t, pat)
    ensures !OccursAt(t + rest, k, pat, pw)
  {
    var o := t + rest;
    assert o[k] == t[k];
    if SameIgnoringCase(t[k], pat[0]) {
      assert o[k + 1] == t[k + 1];
      assert !CharEq(o[k + 1], pat[1], true);
    } else {
      assert !CharEq(o[k], pat[0], true);
    }
  }

  /** A rewrite from a safe position starts with a character as wordy as the text's. */
  lemma RewriteHead(hits: Hits, s: string, j: nat, pat: string)
    requires Fits(hits, s) && j < |s| && |pat| >= 2
    requires SafeAt(hits, s, j, pat)
    ensures |Rewrite(hits, s, j)| > 0 && IsWordChar(Rewrite(hits, s, j)[0]) == IsWordChar(s[j])
  {
  }

  /** Where the table has no match, the copied character cannot begin an occurrence. */
  lemma FirstPositionClear(hits: Hits, s: string, i: nat, pat: string)
    requires Fits(hits, s) && i < |s| && |pat| >= 2
    requires hits[i].None? && Safe(hits, s, pat)
    ensures !OccursAt(Rewrite(hits, s, i), 0, pat, PrevWord(s, i))
  {
    var lim := if i + |pat| <= |s| then i + |pat| else |s|;
    var p := FirstHit(hits, i, lim);
    if p < lim {
      ClearBeforeHit(hits, s, i, p, pat, PrevWord(s, i));
    } else if i + |pat| > |s| {
      RewriteVerbatim(hits, s, i, p - i);
      assert Rewrite(hits, s, i) == s[i..p] + Rewrite(hits, s, p);
      assert |Rewrite(hits, s, i)| == |s| - i;
    } else {
      ClearWithoutHit(hits, s, i, pat);
    }
  }

  /** A harmless match inside the window of `pat` keeps `pat` from starting at its left. */
  lemma ClearBeforeHit(hits: Hits, s: string, i: nat, p: nat, pat: string, pw: bool)
    requires Fits(hits, s) && i < p < |s| && p < i + |pat| && |pat| >= 2
    requires forall q :: i <= q < p ==> hits[q].None?
    requires hits[p].Some? && SafeAt(hits, s, p, pat)
    ensures !OccursAt(Rewrite(hits, s, i), 0, pat, pw)
  {
    RewriteVerbatim(hits, s, i, p - i);
    var o := Rewrite(hits, s, i);
    var rest := Rewrite(hits, s, p);
    assert o == s[i..p] + rest;
    var h := hits[p].value;
    assert rest == h.text + Rewrite(hits, s, p + h.len);
    assert o[p - i] == h.text[0];
    assert !CharEq(o[p - i], pat[p - i], true);
  }

  /** With no match in the window of `pat`, the rewrite starts as the text does. */
  lemma ClearWithoutHit(hits: Hits, s: string, i: nat, pat: string)
    requires Fits(hits, s) && i + |pat| <= |s| && |pat| >= 2
    requires forall q :: i <= q < i + |pat| ==> hits[q].None?
    requires Safe(hits, s, pat)
    ensures !OccursAt(Rewrite(hits, s, i), 0, pat, PrevWord(s, i))
  {
    var p := i + |pat|;
    RewriteVerbatim(hits, s, i, |pat|);
    var o := Rewrite(hits, s, i);
    var rest := Rewrite(hits, s, p);
    assert o == s[i..p] + rest;
    forall j | 0 <= j < |pat| ensures o[j] == s[i + j] { }
    if p < |s| {
      RewriteHead(hits, s, p, pat);
      assert o[|pat|] == rest[0];
    } else {
      assert |o| == |pat|;
    }
    assert OccursAt(o, 0, pat, PrevWord(s, i)) == OccursAt(s, i, pat, false);
    assert SafeAt(hits, s, i, pat);
  }

  /** A safe table yields a rewrite with no occurrence of `pat`. */
  lemma {:induction false} RewriteAvoids(hits: Hits, s: string, i: nat, pat: string)
    requires Fits(hits, s) && i <= |s| && |pat| >= 2
    requires Safe(hits, s, pat)
    ensures forall k: nat :: !OccursAt(Rewrite(hits, s, i), k, pat, PrevWord(s, i))
    decreases |s| - i
  {
    var o := Rewrite(hits, s, i);
    if i == |s| {
      assert o == "";
    } else {
      assert SafeAt(hits, s, i, pat);
      match hits[i]
      case Some(h) =>
        var rest := Rewrite(hits, s, i + h.len);
        assert o == h.text + rest;
        RewriteAvoids(hits, s, i + h.len, pat);
        assert PrevWord(s, i + h.len) == IsWordChar(h.text[|h.text| - 1]);
        forall k: nat ensures !OccursAt(o, k, pat, PrevWord(s, i)) {
          if k < |h.text| {
            HitPrefixClear(h.text, rest, k, pat, PrevWord(s, i));
          } else {
            ShiftOccurrence(h.text, rest, k - |h.text|, pat, PrevWord(s, i));
          }
        }
      case None =>
        var rest := Rewrite(hits, s, i + 1);
        assert o == [s[i]] + rest;
        RewriteAvoids(hits, s, i + 1, pat);
        assert PrevWord(s, i + 1) == IsWordChar([s[i]][0]);
        forall k: nat ensures !OccursAt(o, k, pat, PrevWord(s, i)) {
          if k == 0 {
            FirstPositionClear(hits, s, i, pat);
          } else {
            ShiftOccurrence([s[i]], rest, k - 1, pat, PrevWord(s, i));
          }
        }
    }
  }

  /** A rule whose match table is safe leaves no occurrence of `pat`. */
  lemma ApplyAvoids(rule: Rule, s: string, pat: string)
    requires |pat| >= 2 && Safe(Table(rule, s), s, pat)
    ensures NoWholeWord(Apply(rule, s), pat)
  {
    RewriteAvoids(Table(rule, s), s, 0, pat);
    assert !PrevWord(s, 0);
  }
}

/** The instances: each rule of the chain either removes "last dose" or cannot bring it back. */
module DoseRules {
  import opened Wrappers
  import opened Text
  import opened Dates
  import DateFacts
  import opened BusinessRules
  import opened RuleFacts
  import opened DoseWording

  lemma DigitIsNoLetter(c: char, d: char)
    requires IsDigit(c) && !IsDigit(d)
    ensures !SameIgnoringCase(c, d)
  {
  }

  /**
   * A case-insensitive whole-word rule for a pattern that starts and ends
   * with word characters matches exactly where the pattern occurs as a word.
   */
  lemma WholeWordMatchesOccurrence(pat: string, rep: string, s: string, p: nat)
    requires p < |s| && |pat| > 0 && IsWordChar(pat[0]) && IsWordChar(pat[|pat| - 1])
    ensures MatchAt(WholeWord(pat, rep, true), s, p).Some? <==> OccursAt(s, p, pat, false)
  {
    if LiteralAt(s, p, pat, true) {
      assert CharEq(s[p], pat[0], true);
      SameCaseWordness(s[p], pat[0]);
      assert CharEq(s[p + |pat| - 1], pat[|pat| - 1], true);
      SameCaseWordness(s[p + |pat| - 1], pat[|pat| - 1]);
    }
  }

  /** No letter of `a` can begin `pat`, so `a` adds no start of `pat` in front of `b`. */
  lemma NoStartWithinConcat(a: string, b: string, pat: string)
    requires |pat| >= 2 && NoStartWithin(b, pat)
    requires forall k :: 0 <= k < |a| ==> !SameIgnoringCase(a[k], pat[0])
    ensures NoStartWithin(a + b, pat)
  {
    var t := a + b;
    forall k | 0 <= k < |t| && SameIgnoringCase(t[k], pat[0])
      ensures k + 1 < |t| && !SameIgnoringCase(t[k + 1], pat[1])
    {
      assert k >= |a| && t[k] == b[k - |a|];
      assert t[k + 1] == b[k + 1 - |a|];
    }
  }

  /** "most recent dose" has no 'l' and does not start with a later letter of "last dose". */
  lemma MostRecentDoseText()
    ensures NoStartWithin(MostRecentDose, LastDose)
    ensures forall j :: 1 <= j < |LastDose| ==> !SameIgnoringCase(MostRecentDose[0], LastDose[j])
    ensures IsWordChar(MostRecentDose[0]) && IsWordChar(MostRecentDose[|MostRecentDose| - 1])
  {
    var t := MostRecentDose;
    forall k | 0 <= k < |t| ensures !SameIgnoringCase(t[k], 'l') {
      if k < 5 {
      } else if k < 12 {
      } else {
      }
    }
  }

  /** Rule 1's replacement cannot take part in a new "last dose". */
  lemma MostRecentDoseHarmless(s: string, p: nat)
    requires p < |s| && OccursAt(s, p, LastDose, false)
    ensures HarmlessHit(s, p, Hit(|LastDose|, MostRecentDose), LastDose)
  {
    MostRecentDoseText();
    assert CharEq(s[p], LastDose[0], true);
    SameCaseWordness(s[p], 'l');
    assert CharEq(s[p + 8], LastDose[8], true);
    SameCaseWordness(s[p + 8], 'e');
  }

  /** After rule 1 no whole-word "last dose" is left. */
  lemma FirstRuleRemovesLastDose(s: string)
    ensures NoWholeWord(Apply(Rules[0], s), LastDose)
  {
    var hits := Table(Rules[0], s);
    forall p | 0 <= p < |s| ensures SafeAt(hits, s, p, LastDose) {
      assert hits[p] == MatchAt(Rules[0], s, p);
      assert Rules[0] == WholeWord(LastDose, MostRecentDose, true);
      WholeWordMatchesOccurrence(LastDose, MostRecentDose, s, p);
      if hits[p].Some? {
        assert hits[p].value == Hit(|LastDose|, MostRecentDose);
        MostRecentDoseHarmless(s, p);
      }
    }
    ApplyAvoids(Rules[0], s, LastDose);
  }

  /** A month abbreviation never has an 'l' before its last letter. */
  lemma MonthNameHasNoEarlyL(m: int, j: nat)
    requires 1 <= m <= 12 && j < 2
    ensures !SameIgnoringCase(MonthName(m)[j], 'l')
  {
    assert MonthNames[m - 1] in MonthNames;
  }

  /** `DD-Mon-YYYY` leaves no room for "la". */
  lemma FormattedHasNoLa(d: Date)
    requires ValidDate(d)
    ensures NoStartWithin(FormatDmy(d), LastDose)
  {
    var t := FormatDmy(d);
    var dd, mon, yyyy := Pad2(d.day), MonthName(d.month), Pad4(d.year);
    assert t == dd + "-" + mon + "-" + yyyy;
    forall k | 0 <= k < |t| && SameIgnoringCase(t[k], 'l')
      ensures k + 1 < |t| && !SameIgnoringCase(t[k + 1], 'a')
    {
      if k < 2 {
        assert t[k] == dd[k];
        DigitIsNoLetter(dd[k], 'l');
      } else if 3 <= k < 5 {
        assert t[k] == mon[k - 3];
        MonthNameHasNoEarlyL(d.month, k - 3);
      } else if k == 5 {
        assert t[6] == '-';
      }
    }
  }

  /** Rule 2's rewritten dates cannot take part in a new "last dose". */
  lemma DateRewriteHarmless(s: string, p: nat)
    requires DateFacts.IsoShapeAt(s, p)
    ensures HarmlessHit(s, p, Hit(10, DateRewrite(s[p..p + 10])), LastDose)
  {
    var raw := s[p..p + 10];
    var t := DateRewrite(raw);
    assert raw[0] == s[p] && raw[9] == s[p + 9];
    match ParseYmd(raw)
    case Some(d) =>
      var dd, yyyy := Pad2(d.day), Pad4(d.year);
      assert t == dd + "-" + MonthName(d.month) + "-" + yyyy;
      assert t[0] == dd[0] && t[10] == yyyy[3];
      FormattedHasNoLa(d);
      DigitStartHarmless(t);
    case None =>
      assert t == raw;
      forall k | 0 <= k < |raw| ensures IsDigit(raw[k]) || raw[k] == '-' {
        assert raw[k] == s[p + k];
      }
      assert NoStartWithin(t, LastDose);
      DigitStartHarmless(t);
  }

  /** A replacement starting with a digit cannot continue "last dose". */
  lemma DigitStartHarmless(t: string)
    requires |t| > 0 && IsDigit(t[0])
    ensures forall j :: 1 <= j < |LastDose| ==> !SameIgnoringCase(t[0], LastDose[j])
  {
    forall j | 1 <= j < |LastDose| ensures !SameIgnoringCase(t[0], LastDose[j]) {
      DigitIsNoLetter(t[0], LastDose[j]);
    }
  }

  /** "-year-old" has its only 'l' right before a 'd'. */
  lemma YearOldText()
    ensures NoStartWithin("-year-old", LastDose)
  {
  }

  /** Rule 5's "-year-old" cannot take part in a new "last dose". */
  lemma AgeRewriteHarmless(s: string, p: nat, j: nat)
    requires p < j <= |s| && forall k :: p <= k < j ==> IsDigit(s[k])
    requires LiteralAt(s, j, AgeSuffix, true)
    ensures HarmlessHit(s, p, Hit(j + |AgeSuffix| - p, s[p..j] + "-year-old"), LastDose)
  {
    var digits := s[p..j];
    var t := digits + "-year-old";
    assert t[0] == s[p];
    assert CharEq(s[j + 9], AgeSuffix[9], true);
    SameCaseWordness(s[j + 9], 'd');
    DigitStartHarmless(t);
    YearOldText();
    forall k | 0 <= k < |digits| ensures !SameIgnoringCase(digits[k], LastDose[0]) {
      DigitIsNoLetter(digits[k], LastDose[0]);
    }
    NoStartWithinConcat(digits, "-year-old", LastDose);
  }

  /** Rules 2 and 5 cannot turn a text without "last dose" into one with it. */
  lemma RewritingRulesKeepOut(k: nat, s: string)
    requires k == 1 || k == 4
    requires NoWholeWord(s, LastDose)
    ensures NoWholeWord(Apply(Rules[k], s), LastDose)
  {
    var hits := Table(Rules[k], s);
    forall p | 0 <= p < |s| ensures SafeAt(hits, s, p, LastDose) {
      assert hits[p] == MatchAt(Rules[k], s, p);
      if hits[p].Some? {
        if k == 1 {
          assert Rules[1] == IsoDate;
          DateRewriteHarmless(s, p);
        } else {
          assert Rules[4] == AgePhrase;
          AgeRewriteHarmless(s, p, DigitRunEnd(s, p));
        }
      }
    }
    ApplyAvoids(Rules[k], s, LastDose);
  }

  /** Changing letter case changes no case-insensitive whole-word occurrence. */
  lemma LowercasingKeepsOccurrences(a: string, b: string, pat: string)
    requires OnlyLowercases(a, b)
    ensures forall k: nat :: OccursAt(b, k, pat, false) == OccursAt(a, k, pat, false)
  {
    forall x | 0 <= x < |a| ensures LowerChar(b[x]) == LowerChar(a[x]) && IsWordChar(b[x]) == IsWordChar(a[x]) {
      CaseKeepsWordness(a[x]);
    }
    forall k: nat ensures OccursAt(b, k, pat, false) == OccursAt(a, k, pat, false) {
      if k + |pat| <= |a| {
        assert LiteralAt(b, k, pat, true) == LiteralAt(a, k, pat, true) by {
          forall j | 0 <= j < |pat| ensures CharEq(b[k + j], pat[j], true) == CharEq(a[k + j], pat[j], true) { }
        }
      }
    }
  }

  /** Rules 2 to 11 never bring back a whole-word "last dose". */
  lemma LaterRuleKeepsOut(k: nat, s: string)
    requires 1 <= k < |Rules|
    requires NoWholeWord(s, LastDose)
    ensures NoWholeWord(Apply(Rules[k], s), LastDose)
  {
    if k == 1 || k == 4 {
      RewritingRulesKeepOut(k, s);
    } else {
      CaseRulesOnlyLowercase(k, s);
      LowercasingKeepsOccurrences(s, Apply(Rules[k], s), LastDose);
    }
  }

  lemma {:induction false} RuleSuffixKeepsOut(k: nat, s: string)
    requires 1 <= k <= |Rules|
    requires NoWholeWord(s, LastDose)
    ensures NoWholeWord(ApplyRules(Rules[k..], s), LastDose)
    decreases |Rules| - k
  {
    if k < |Rules| {
      LaterRuleKeepsOut(k, s);
      assert Rules[k..][0] == Rules[k] && Rules[k..][1..] == Rules[k + 1..];
      RuleSuffixKeepsOut(k + 1, Apply(Rules[k], s));
    }
  }

  /** No whole-word "last dose", in any letter case, survives `apply_business_rules`. */
  lemma NoLastDoseAfterRules(s: string)
    ensures NoWholeWord(ApplyBusinessRules(s), LastDose)
  {
    FirstRuleRemovesLastDose(s);
    RuleSuffixKeepsOut(1, Apply(Rules[0], s));
    assert Rules[1..] == Rules[0..][1..];
  }
}
