/** General facts about the `re.sub` rewrite and about the rules that only change letter case. */
module RuleFacts {
  import opened Wrappers
  import opened Text
  import opened BusinessRules

  /** The first position in `[from, lim)` holding a match, or `lim`. */
  function FirstHit(hits: Hits, from: nat, lim: nat): (p: nat)
    requires from <= lim <= |hits|
    ensures from <= p <= lim
    ensures forall q :: from <= q < p ==> hits[q].None?
    ensures p < lim ==> hits[p].Some?
    decreases lim - from
  {
    if from == lim || hits[from].Some? then from else FirstHit(hits, from + 1, lim)
  }

  /** Where nothing matches, the rewrite copies the text unchanged. */
  lemma {:induction false} RewriteVerbatim(hits: Hits, s: string, j: nat, n: nat)
    requires Fits(hits, s) && j + n <= |s|
    requires forall p :: j <= p < j + n ==> hits[p].None?
    ensures Rewrite(hits, s, j) == s[j..j + n] + Rewrite(hits, s, j + n)
    decreases n
  {
    if n > 0 {
      assert hits[j].None?;
      var rest := Rewrite(hits, s, j + n);
      RewriteCopiesOne(hits, s, j);
      RewriteVerbatim(hits, s, j + 1, n - 1);
      PrependSlice(s, j, j + n, rest);
    }
  }

  /** Without a match at `j`, the rewrite copies the character there. */
  lemma RewriteCopiesOne(hits: Hits, s: string, j: nat)
    requires Fits(hits, s) && j < |s| && hits[j].None?
    ensures Rewrite(hits, s, j) == [s[j]] + Rewrite(hits, s, j + 1)
  {
  }

  lemma PrependSlice(s: string, i: nat, k: nat, rest: string)
    requires i < k <= |s|
    ensures [s[i]] + (s[i + 1..k] + rest) == s[i..k] + rest
  {
    assert s[i..k] == [s[i]] + s[i + 1..k];
  }

  /** At a match, the rewrite emits the replacement and resumes behind the match. */
  lemma RewriteTakesHit(hits: Hits, s: string, j: nat)
    requires Fits(hits, s) && j < |s| && hits[j].Some?
    ensures Rewrite(hits, s, j) == hits[j].value.text + Rewrite(hits, s, j + hits[j].value.len)
  {
  }

  /**
   * Two tables that agree on a suffix of the text rewrite it alike: the
   * rewrite of `s` from `k + p` on is the rewrite of `s[k..]` from `p` on.
   */
  lemma {:induction false} RewriteShift(h1: Hits, s1: string, h2: Hits, s2: string, k: nat, p: nat)
    requires Fits(h1, s1) && Fits(h2, s2) && k <= |s1| && s2 == s1[k..] && p <= |s2|
    requires AgreeFrom(h1, h2, k)
    ensures Rewrite(h1, s1, k + p) == Rewrite(h2, s2, p)
    decreases |s2| - p
  {
    if p < |s2| {
      var n, e := ShiftStep(h1, s1, h2, s2, k, p);
      RewriteShift(h1, s1, h2, s2, k, p + n);
    }
  }

  lemma TableAt(rule: Rule, s: string, p: nat)
    requires p < |s|
    ensures Table(rule, s)[p] == MatchAt(rule, s, p)
  {
  }

  /** Where a rule matches alike in a text and in its suffix from `k`, the two tables agree. */
  lemma TableShiftAt(rule: Rule, s: string, k: nat, q: nat)
    requires k + q < |s| && MatchAt(rule, s, k + q) == MatchAt(rule, s[k..], q)
    ensures Table(rule, s)[k + q] == Table(rule, s[k..])[q]
  {
    TableAt(rule, s, k + q);
    TableAt(rule, s[k..], q);
  }

  /** `h1` from `k` on is `h2`. */
  predicate AgreeFrom(h1: Hits, h2: Hits, k: nat) {
    k + |h2| <= |h1| && forall q :: 0 <= q < |h2| ==> h1[k + q] == h2[q]
  }

  /** One step of two agreeing rewrites: both emit `e` and advance by the same `n`. */
  lemma ShiftStep(h1: Hits, s1: string, h2: Hits, s2: string, k: nat, p: nat) returns (n: nat, e: string)
    requires Fits(h1, s1) && Fits(h2, s2) && k <= |s1| && s2 == s1[k..] && p < |s2|
    requires AgreeFrom(h1, h2, k)
    ensures 0 < n <= |s2| - p
    ensures Rewrite(h1, s1, k + p) == e + Rewrite(h1, s1, k + (p + n))
    ensures Rewrite(h2, s2, p) == e + Rewrite(h2, s2, p + n)
  {
    assert h1[k + p] == h2[p];
    if h2[p].Some? {
      RewriteTakesHit(h1, s1, k + p);
      RewriteTakesHit(h2, s2, p);
      n, e := h2[p].value.len, h2[p].value.text;
    } else {
      RewriteCopiesOne(h1, s1, k + p);
      RewriteCopiesOne(h2, s2, p);
      assert s1[k + p] == s2[p];
      n, e := 1, [s2[p]];
    }
  }

  /** A rule that matches nowhere leaves the text unchanged. */
  /** `pre` is a prefix of `s`. */
  predicate PrefixOf(pre: string, s: string) {
    |pre| <= |s| && forall q :: 0 <= q < |pre| ==> pre[q] == s[q]
  }

  /** `h1` and `h2` agree on their first `n` entries. */
  predicate AgreeUpTo(h1: Hits, h2: Hits, n: nat) {
    n <= |h1| && n <= |h2| && forall q :: 0 <= q < n ==> h1[q] == h2[q]
  }

  /** One step of the rewrite of `s` inside its prefix `pre`, taken alike in both. */
  lemma PrefixStep(h1: Hits, s: string, h2: Hits, pre: string, p: nat) returns (n: nat, e: string)
    requires Fits(h1, s) && Fits(h2, pre) && PrefixOf(pre, s) && p < |pre|
    requires AgreeUpTo(h1, h2, |pre|)
    ensures 0 < n <= |pre| - p
    ensures Rewrite(h1, s, p) == e + Rewrite(h1, s, p + n)
    ensures Rewrite(h2, pre, p) == e + Rewrite(h2, pre, p + n)
  {
    assert h1[p] == h2[p];
    if h2[p].Some? {
      RewriteTakesHit(h1, s, p);
      RewriteTakesHit(h2, pre, p);
      n, e := h2[p].value.len, h2[p].value.text;
    } else {
      RewriteCopiesOne(h1, s, p);
      RewriteCopiesOne(h2, pre, p);
      assert s[p] == pre[p];
      n, e := 1, [pre[p]];
    }
  }

  /**
   * When the matches inside `pre` are those of `pre` alone, the rewrite of
   * `s` up to the end of `pre` is the rewrite of `pre` alone.
   */
  lemma {:induction false} RewritePrefix(h1: Hits, s: string, h2: Hits, pre: string, p: nat)
    requires Fits(h1, s) && Fits(h2, pre) && PrefixOf(pre, s) && p <= |pre|
    requires AgreeUpTo(h1, h2, |pre|)
    ensures Rewrite(h1, s, p) == Rewrite(h2, pre, p) + Rewrite(h1, s, |pre|)
    decreases |pre| - p
  {
    if p < |pre| {
      var n, e := PrefixStep(h1, s, h2, pre, p);
      RewritePrefix(h1, s, h2, pre, p + n);
      ConcatAssoc(e, Rewrite(h2, pre, p + n), Rewrite(h1, s, |pre|));
    }
  }

  lemma ConcatAssoc(a: string, b: string, c: string)
    ensures a + (b + c) == (a + b) + c
  {
  }

  /**
   * A match covering exactly `x` in `pre + x + post`: when the matches in
   * `pre` and in `post` are those they have on their own, the rewrite is that
   * of `pre`, the replacement, and that of `post`.
   */
  lemma HitInText(h: Hits, pre: string, x: string, post: string, hp: Hits, hq: Hits, r: string)
    requires Fits(h, pre + x + post) && Fits(hp, pre) && Fits(hq, post) && |x| > 0
    requires AgreeUpTo(h, hp, |pre|)
    requires h[|pre|] == Some(Hit(|x|, r))
    requires AgreeFrom(h, hq, |pre| + |x|)
    ensures Rewrite(h, pre + x + post, 0) == Rewrite(hp, pre, 0) + r + Rewrite(hq, post, 0)
  {
    var s := pre + x + post;
    assert PrefixOf(pre, s);
    RewritePrefix(h, s, hp, pre, 0);
    RewriteTakesHit(h, s, |pre|);
    assert post == s[|pre| + |x|..];
    RewriteShift(h, s, hq, post, |pre| + |x|, 0);
    assert |pre| + |x| + 0 == |pre| + |x|;
    ConcatAssoc(Rewrite(hp, pre, 0), r, Rewrite(hq, post, 0));
  }

  /**
   * `x` in `pre + x + post` is a match of `rule` replaced by `r`, and the
   * matches in `pre` and `post` are those they have on their own.
   */
  predicate SplitsAt(rule: Rule, pre: string, x: string, post: string, r: string) {
    && |x| > 0
    && AgreeUpTo(Table(rule, pre + x + post), Table(rule, pre), |pre|)
    && Table(rule, pre + x + post)[|pre|] == Some(Hit(|x|, r))
    && AgreeFrom(Table(rule, pre + x + post), Table(rule, (pre + x + post)[|pre| + |x|..]), |pre| + |x|)
  }

  /** `HitInText` for one rule's own tables: `Apply` splits at a match whose neighbours match as they do alone. */
  lemma SiteRewrite(rule: Rule, pre: string, x: string, post: string, r: string)
    requires SplitsAt(rule, pre, x, post, r)
    ensures Apply(rule, pre + x + post) == Apply(rule, pre) + r + Apply(rule, post)
  {
    var s := pre + x + post;
    assert post == s[|pre| + |x|..];
    HitInText(Table(rule, s), pre, x, post, Table(rule, pre), Table(rule, post), r);
  }

  lemma LiteralShift(s: string, k: nat, q: nat, lit: string, ignoreCase: bool)
    requires k + q <= |s|
    ensures LiteralAt(s, k + q, lit, ignoreCase) == LiteralAt(s[k..], q, lit, ignoreCase)
  {
  }

  lemma LiteralPrefix(s: string, pre: string, q: nat, lit: string, ignoreCase: bool)
    requires |pre| <= |s| && pre == s[..|pre|] && q + |lit| <= |pre|
    ensures LiteralAt(s, q, lit, ignoreCase) == LiteralAt(pre, q, lit, ignoreCase)
  {
  }

  lemma BoundaryShift(s: string, k: nat, q: nat)
    requires 0 < q && k + q <= |s|
    ensures Boundary(s, k + q) == Boundary(s[k..], q)
  {
  }

  lemma BoundaryPrefix(s: string, pre: string, p: nat)
    requires |pre| <= |s| && pre == s[..|pre|] && p < |pre|
    ensures Boundary(s, p) == Boundary(pre, p)
  {
  }

  lemma ApplyWithoutHits(rule: Rule, s: string)
    requires forall p :: 0 <= p < |s| ==> MatchAt(rule, s, p).None?
    ensures Apply(rule, s) == s
  {
    var hits := Table(rule, s);
    RewriteVerbatim(hits, s, 0, |s|);
    assert s[0..|s|] == s;
  }

  /** A rule with a single match rewrites that stretch and copies the text around it. */
  lemma ApplyOneHit(rule: Rule, s: string, j: nat, h: Hit)
    requires j < |s| && MatchAt(rule, s, j) == Some(h)
    requires forall p :: 0 <= p < j ==> MatchAt(rule, s, p).None?
    requires forall p :: j + h.len <= p < |s| ==> MatchAt(rule, s, p).None?
    ensures j + h.len <= |s|
    ensures Apply(rule, s) == s[..j] + h.text + s[j + h.len..]
  {
    var hits := Table(rule, s);
    assert hits[j] == Some(h);
    RewriteOneHit(hits, s, j);
  }

  /** The rewrite of a table with a single match. */
  lemma RewriteOneHit(hits: Hits, s: string, j: nat)
    requires Fits(hits, s) && j < |s| && hits[j].Some?
    requires forall p :: 0 <= p < j ==> hits[p].None?
    requires forall p :: j + hits[j].value.len <= p < |s| ==> hits[p].None?
    ensures Rewrite(hits, s, 0) == s[..j] + hits[j].value.text + s[j + hits[j].value.len..]
  {
    var h := hits[j].value;
    var e := j + h.len;
    RewriteVerbatim(hits, s, e, |s| - e);
    assert Rewrite(hits, s, |s|) == "";
    assert s[e..e + (|s| - e)] == s[e..];
    var tail := Rewrite(hits, s, e);
    assert tail == s[e..];
    assert Rewrite(hits, s, j) == h.text + tail;
    RewriteVerbatim(hits, s, 0, j);
    assert s[0..j] == s[..j];
  }

  /** `b` is `a` with some letters lower-cased and nothing else changed. */
  predicate OnlyLowercases(a: string, b: string) {
    |a| == |b| && forall k :: 0 <= k < |a| ==> b[k] == a[k] || b[k] == LowerChar(a[k])
  }

  lemma OnlyLowercasesConcat(a1: string, b1: string, a2: string, b2: string)
    requires OnlyLowercases(a1, b1) && OnlyLowercases(a2, b2)
    ensures OnlyLowercases(a1 + a2, b1 + b2)
  {
    forall k | 0 <= k < |a1 + a2|
      ensures (b1 + b2)[k] == (a1 + a2)[k] || (b1 + b2)[k] == LowerChar((a1 + a2)[k])
    {
      if k >= |a1| {
        assert (b1 + b2)[k] == b2[k - |a1|] && (a1 + a2)[k] == a2[k - |a1|];
      }
    }
  }

  /** Every match in the table only lower-cases letters of the text it consumes. */
  predicate LowercasingHits(hits: Hits, s: string)
    requires Fits(hits, s)
  {
    forall p :: 0 <= p < |s| && hits[p].Some? ==>
      OnlyLowercases(s[p..p + hits[p].value.len], hits[p].value.text)
  }

  /** Matches that only lower-case give a rewrite equal to the text up to letter case. */
  lemma {:induction false} RewriteOnlyLowercases(hits: Hits, s: string, i: nat)
    requires Fits(hits, s) && i <= |s| && LowercasingHits(hits, s)
    ensures OnlyLowercases(s[i..], Rewrite(hits, s, i))
    decreases |s| - i
  {
    if i < |s| {
      match hits[i]
      case Some(h) =>
        RewriteOnlyLowercases(hits, s, i + h.len);
        OnlyLowercasesConcat(s[i..i + h.len], h.text, s[i + h.len..], Rewrite(hits, s, i + h.len));
        assert s[i..] == s[i..i + h.len] + s[i + h.len..];
      case None =>
        RewriteOnlyLowercases(hits, s, i + 1);
        OnlyLowercasesConcat([s[i]], [s[i]], s[i + 1..], Rewrite(hits, s, i + 1));
        assert s[i..] == [s[i]] + s[i + 1..];
    }
  }

  lemma LowerStrOnlyLowercases(a: string)
    ensures OnlyLowercases(a, LowerStr(a))
  {
  }

  /** Rules 3 and 4 only lower-case: the trigger is kept and the clause lower-cased. */
  lemma LowerClauseLowercases(trigger: string, s: string, p: nat)
    requires p < |s| && MatchAt(LowerClause(trigger), s, p).Some?
    ensures OnlyLowercases(s[p..p + MatchAt(LowerClause(trigger), s, p).value.len],
                           MatchAt(LowerClause(trigger), s, p).value.text)
  {
    var q := p + |trigger|;
    var j := ClauseEnd(s, q);
    assert OnlyLowercases(s[p..q], s[p..q]);
    LowerStrOnlyLowercases(s[q..j]);
    OnlyLowercasesConcat(s[p..q], s[p..q], s[q..j], LowerStr(s[q..j]));
    assert s[p..j] == s[p..q] + s[q..j];
  }

  /** Rule 7 only lower-cases: "SAE of " is kept and the following capital lower-cased. */
  lemma SaeOfLowercases(s: string, p: nat)
    requires p < |s| && MatchAt(LowerAfterSaeOf, s, p).Some?
    ensures OnlyLowercases(s[p..p + |SaeOf| + 1], SaeOf + [LowerChar(s[p + |SaeOf|])])
  {
    var t := s[p..p + |SaeOf| + 1];
    var r := SaeOf + [LowerChar(s[p + |SaeOf|])];
    forall k | 0 <= k < |t| ensures r[k] == t[k] || r[k] == LowerChar(t[k]) {
      if k < |SaeOf| {
        assert CharEq(s[p + k], SaeOf[k], false);
      }
    }
  }

  /** A case-sensitive whole-word match consumes exactly its pattern. */
  lemma CaseSensitiveConsumesPattern(pat: string, rep: string, s: string, p: nat)
    requires p < |s| && MatchAt(WholeWord(pat, rep, false), s, p).Some?
    ensures s[p..p + |pat|] == pat
  {
    forall k | 0 <= k < |pat| ensures s[p..p + |pat|][k] == pat[k] {
      assert CharEq(s[p + k], pat[k], false);
    }
  }

  /** Each race and ethnicity fix of rule 6 only lower-cases letters of its pattern. */
  lemma RaceFixOnlyLowercases(k: nat)
    requires 5 <= k < 10
    ensures Rules[k].WholeWord? && !Rules[k].ignoreCase
    ensures OnlyLowercases(Rules[k].pattern, Rules[k].replacement)
  {
    if k == 5 {
      RaceFix5();
    } else if k == 6 {
      RaceFix6();
    } else if k == 7 {
      RaceFix7();
    } else if k == 8 {
      RaceFix8();
    } else {
      RaceFix9();
    }
  }

  // Each fix checked letter by letter; splitting the positions by word keeps
  // the case analysis over the literal small.
  lemma RaceFix5()
    ensures Rules[5] == WholeWord("WHITE", "White", false)
    ensures OnlyLowercases("WHITE", "White")
  {
  }

  lemma RaceFix6()
    ensures Rules[6] == WholeWord("BLACK OR AFRICAN AMERICAN", "Black or African American", false)
    ensures OnlyLowercases("BLACK OR AFRICAN AMERICAN", "Black or African American")
  {
    var a, b := "BLACK OR AFRICAN AMERICAN", "Black or African American";
    forall k | 0 <= k < |a| ensures b[k] == a[k] || b[k] == LowerChar(a[k]) {
      if k < 5 {
      } else if k < 9 {
      } else if k < 16 {
      } else if k < 17 {
      } else {
      }
    }
  }

  lemma RaceFix7()
    ensures Rules[7] == WholeWord("ASIAN", "Asian", false)
    ensures OnlyLowercases("ASIAN", "Asian")
  {
  }

  lemma RaceFix8()
    ensures Rules[8] == WholeWord("NOT HISPANIC OR LATINO", "Not Hispanic or Latino", false)
    ensures OnlyLowercases("NOT HISPANIC OR LATINO", "Not Hispanic or Latino")
  {
    var a, b := "NOT HISPANIC OR LATINO", "Not Hispanic or Latino";
    forall k | 0 <= k < |a| ensures b[k] == a[k] || b[k] == LowerChar(a[k]) {
      if k < 4 {
      } else if k < 12 {
      } else if k < 16 {
      } else {
      }
    }
  }

  lemma RaceFix9()
    ensures Rules[9] == WholeWord("HISPANIC OR LATINO", "Hispanic or Latino", false)
    ensures OnlyLowercases("HISPANIC OR LATINO", "Hispanic or Latino")
  {
    var a, b := "HISPANIC OR LATINO", "Hispanic or Latino";
    forall k | 0 <= k < |a| ensures b[k] == a[k] || b[k] == LowerChar(a[k]) {
      if k < 8 {
      } else if k < 12 {
      } else {
      }
    }
  }

  /** Rules 3, 4, 6 and 7 change nothing but the case of some letters. */
  lemma CaseRulesOnlyLowercase(k: nat, s: string)
    requires k in {2, 3, 5, 6, 7, 8, 9, 10}
    ensures OnlyLowercases(s, Apply(Rules[k], s))
  {
    var rule := Rules[k];
    var hits := Table(rule, s);
    forall p | 0 <= p < |s| && hits[p].Some?
      ensures OnlyLowercases(s[p..p + hits[p].value.len], hits[p].value.text)
    {
      CaseHitLowercases(k, s, p);
    }
    RewriteOnlyLowercases(hits, s, 0);
    assert s[0..] == s;
  }

  /** One hit of a case rule replaces its text by a copy that only lower-cases letters. */
  lemma CaseHitLowercases(k: nat, s: string, p: nat)
    requires k in {2, 3, 5, 6, 7, 8, 9, 10}
    requires p < |s| && MatchAt(Rules[k], s, p).Some?
    ensures OnlyLowercases(s[p..p + MatchAt(Rules[k], s, p).value.len], MatchAt(Rules[k], s, p).value.text)
  {
    var rule := Rules[k];
    if k == 2 || k == 3 {
      LowerClauseLowercases(rule.trigger, s, p);
    } else if k == 10 {
      SaeOfLowercases(s, p);
    } else {
      RaceFixOnlyLowercases(k);
      CaseSensitiveConsumesPattern(rule.pattern, rule.replacement, s, p);
    }
  }
}
