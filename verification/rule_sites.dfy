/**
 * The date, age, "SAE of" and race rules at a site inside running text: the
 * match is replaced, and the text before and after it is rewritten as it
 * would be on its own.
 */
module RuleSites {
  import opened Wrappers
  import opened Text
  import opened Dates
  import DateFacts
  import opened BusinessRules
  import opened RuleFacts

  /** `\b` can hold before a word that follows `pre`: it is empty or ends in a non-word character. */
  predicate EndsOpen(pre: string) {
    pre == [] || !IsWordChar(pre[|pre| - 1])
  }

  /** `\b` can hold after a word that precedes `post`: it is empty or starts with a non-word character. */
  predicate StartsOpen(post: string) {
    post == [] || !IsWordChar(post[0])
  }

  // ---------------------------------------------------------------------------
  // Rule 2: ISO dates

  /**
   * An ISO-shaped token standing as a word of its own is replaced by what
   * `_date_repl` makes of it; the text around it is rewritten on its own.
   */
  lemma IsoTokenInText(pre: string, x: string, post: string)
    requires EndsOpen(pre) && StartsOpen(post)
    requires |x| == 10 && DateFacts.IsoShapeAt(x, 0)
    ensures Apply(IsoDate, pre + x + post) == Apply(IsoDate, pre) + DateRewrite(x) + Apply(IsoDate, post)
  {
    var s := pre + x + post;
    IsoPrefixTables(pre, x, post);
    IsoHitAt(pre, x, post);
    TableAt(IsoDate, s, |pre|);
    assert post == s[|pre| + 10..];
    IsoSuffixTables(s, |pre| + 10);
    HitInText(Table(IsoDate, s), pre, x, post, Table(IsoDate, pre), Table(IsoDate, post), DateRewrite(x));
  }

  /** An ISO date token that is a real date is rewritten to `DD-Mon-YYYY` in place. */
  lemma IsoTokenRewritten(pre: string, d: Date, post: string)
    requires ValidDate(d) && EndsOpen(pre) && StartsOpen(post)
    ensures Apply(IsoDate, pre + IsoText(d) + post) == Apply(IsoDate, pre) + FormatDmy(d) + Apply(IsoDate, post)
  {
    var t := IsoText(d);
    assert t == Pad4(d.year) + "-" + Pad2(d.month) + "-" + Pad2(d.day);
    assert DateFacts.IsoShapeAt(t, 0);
    DateFacts.IsoRoundTrip(d);
    IsoTokenInText(pre, t, post);
  }

  /** An ISO-shaped token that `strptime` rejects is left as it is, and so is the text around it. */
  lemma InvalidIsoTokenKept(pre: string, t: string, post: string)
    requires |t| == 10 && DateFacts.IsoShapeAt(t, 0) && ParseYmd(t) == None
    requires EndsOpen(pre) && StartsOpen(post)
    ensures Apply(IsoDate, pre + t + post) == Apply(IsoDate, pre) + t + Apply(IsoDate, post)
  {
    IsoTokenInText(pre, t, post);
  }

  lemma IsoHitAt(pre: string, x: string, post: string)
    requires EndsOpen(pre) && StartsOpen(post)
    requires |x| == 10 && DateFacts.IsoShapeAt(x, 0)
    ensures MatchAt(IsoDate, pre + x + post, |pre|) == Some(Hit(10, DateRewrite(x)))
  {
    var s := pre + x + post;
    var i := |pre|;
    assert s[i..i + 10] == x[0..10];
    IsoShapeSame(s, i, x, 0);
    if i > 0 {
      assert s[i - 1] == pre[i - 1];
    }
    if post != [] {
      assert s[i + 10] == post[0];
    }
    assert s[i + 9] == x[9];
  }

  /** In `pre`, the date rule matches inside `pre + x + post` exactly where it does in `pre` alone. */
  lemma IsoPrefixTables(pre: string, x: string, post: string)
    requires EndsOpen(pre) && |x| == 10 && DateFacts.IsoShapeAt(x, 0)
    ensures AgreeUpTo(Table(IsoDate, pre + x + post), Table(IsoDate, pre), |pre|)
  {
    var s := pre + x + post;
    forall q | 0 <= q < |pre| ensures Table(IsoDate, s)[q] == Table(IsoDate, pre)[q] {
      IsoPrefixAt(pre, x, post, q);
      TableAt(IsoDate, s, q);
      TableAt(IsoDate, pre, q);
    }
  }

  lemma IsoPrefixAt(pre: string, x: string, post: string, q: nat)
    requires EndsOpen(pre) && |x| == 10 && DateFacts.IsoShapeAt(x, 0) && q < |pre|
    ensures MatchAt(IsoDate, pre + x + post, q) == MatchAt(IsoDate, pre, q)
  {
    var s := pre + x + post;
    assert PrefixOf(pre, s);
    if q + 10 <= |pre| {
      assert s[q..q + 10] == pre[q..q + 10];
      IsoShapeSame(s, q, pre, q);
      BoundaryPrefix(s, pre, q);
      if q + 10 < |pre| {
        BoundaryPrefix(s, pre, q + 10);
      } else {
        assert !IsDigit(pre[q + 9]);
      }
      assert s[q..q + 10] == pre[q..q + 10];
    } else {
      IsoNoCrossing(pre, x, post, q);
    }
  }

  /** No date match starts in `pre` and runs into `x`. */
  lemma IsoNoCrossing(pre: string, x: string, post: string, q: nat)
    requires EndsOpen(pre) && |x| == 10 && DateFacts.IsoShapeAt(x, 0) && q < |pre| < q + 10
    ensures MatchAt(IsoDate, pre + x + post, q).None?
  {
    var s := pre + x + post;
    var m := |pre| - q;
    assert s[q + (m - 1)] == pre[|pre| - 1];
    if m == 5 {
      assert s[q + 9] == x[4];
    } else if m == 8 {
      assert s[q + 9] == x[1] && s[q + 10] == x[2];
    }
  }

  /** From a position holding a non-word character on, the date rule matches as it does on the rest alone. */
  lemma IsoSuffixTables(s: string, k: nat)
    requires k <= |s| && (k < |s| ==> !IsWordChar(s[k]))
    ensures AgreeFrom(Table(IsoDate, s), Table(IsoDate, s[k..]), k)
  {
    var h1, h2 := Table(IsoDate, s), Table(IsoDate, s[k..]);
    forall q | 0 <= q < |h2| ensures h1[k + q] == h2[q] {
      IsoTableShift(s, k, q);
    }
  }

  lemma IsoTableShift(s: string, k: nat, q: nat)
    requires k + q < |s| && (q > 0 || !IsWordChar(s[k]))
    ensures Table(IsoDate, s)[k + q] == Table(IsoDate, s[k..])[q]
  {
    IsoMatchShift(s, k, q);
    TableShiftAt(IsoDate, s, k, q);
  }

  lemma IsoMatchShift(s: string, k: nat, q: nat)
    requires k + q < |s| && (q > 0 || !IsDigit(s[k]))
    ensures MatchAt(IsoDate, s, k + q) == MatchAt(IsoDate, s[k..], q)
  {
    var u := s[k..];
    if k + q + 10 <= |s| {
      assert s[k + q..k + q + 10] == u[q..q + 10];
      IsoShapeSame(s, k + q, u, q);
    }
    if q > 0 {
      BoundaryShift(s, k, q);
      if DateFacts.IsoShapeAt(s, k + q) {
        BoundaryShift(s, k, q + 10);
        assert s[k + q..k + q + 10] == u[q..q + 10];
      }
    } else {
      assert u[0] == s[k];
    }
  }

  /** Whether an ISO-shaped token starts at a position depends only on the ten characters there. */
  lemma IsoShapeSame(s: string, i: nat, u: string, j: nat)
    requires i + 10 <= |s| && j + 10 <= |u| && s[i..i + 10] == u[j..j + 10]
    ensures DateFacts.IsoShapeAt(s, i) == DateFacts.IsoShapeAt(u, j)
  {
    var a, b := s[i..i + 10], u[j..j + 10];
    assert a[0] == b[0] && a[1] == b[1] && a[2] == b[2] && a[3] == b[3] && a[4] == b[4];
    assert a[5] == b[5] && a[6] == b[6] && a[7] == b[7] && a[8] == b[8] && a[9] == b[9];
  }

  // ---------------------------------------------------------------------------
  // Rule 5: ages

  /**
   * Digits followed by "-YEARS-old" in any letter case become "<digits>-year-old"
   * wherever they stand; only a digit just before them would join the number.
   */
  lemma AgeRewritten(pre: string, digits: string, t: string, post: string)
    requires pre == [] || !IsDigit(pre[|pre| - 1])
    requires |digits| > 0 && AllDigits(digits)
    requires |t| == |AgeSuffix| && LiteralAt(t, 0, AgeSuffix, true)
    ensures Apply(AgePhrase, pre + digits + t + post)
      == Apply(AgePhrase, pre) + digits + "-year-old" + Apply(AgePhrase, post)
  {
    var x := digits + t;
    AgeAt(pre, digits, t, post);
    ConcatAssoc(pre, digits, t);
    ConcatAssoc(Apply(AgePhrase, pre), digits, "-year-old");
  }

  lemma AgeAt(pre: string, digits: string, t: string, post: string)
    requires pre == [] || !IsDigit(pre[|pre| - 1])
    requires |digits| > 0 && AllDigits(digits)
    requires |t| == |AgeSuffix| && LiteralAt(t, 0, AgeSuffix, true)
    ensures Apply(AgePhrase, pre + (digits + t) + post)
      == Apply(AgePhrase, pre) + (digits + "-year-old") + Apply(AgePhrase, post)
  {
    AgeSplits(pre, digits, t, post);
    SiteRewrite(AgePhrase, pre, digits + t, post, digits + "-year-old");
  }

  lemma AgeSplits(pre: string, digits: string, t: string, post: string)
    requires pre == [] || !IsDigit(pre[|pre| - 1])
    requires |digits| > 0 && AllDigits(digits)
    requires |t| == |AgeSuffix| && LiteralAt(t, 0, AgeSuffix, true)
    ensures SplitsAt(AgePhrase, pre, digits + t, post, digits + "-year-old")
  {
    AgeSuffixTablesAt(pre, digits + t, post);
    assert (digits + t)[0] == digits[0];
    AgePrefixTables(pre, digits + t, post);
    AgeHitAt(pre, digits, t, post);
  }

  lemma AgeSuffixTablesAt(pre: string, x: string, post: string)
    ensures AgreeFrom(Table(AgePhrase, pre + x + post), Table(AgePhrase, (pre + x + post)[|pre| + |x|..]), |pre| + |x|)
  {
    AgeSuffixTables(pre + x + post, |pre| + |x|);
  }

  lemma AgeHitAt(pre: string, digits: string, t: string, post: string)
    requires |digits| > 0 && AllDigits(digits)
    requires |t| == |AgeSuffix| && LiteralAt(t, 0, AgeSuffix, true)
    ensures Table(AgePhrase, pre + (digits + t) + post)[|pre|] == Some(Hit(|digits + t|, digits + "-year-old"))
  {
    var s := pre + (digits + t) + post;
    TableAt(AgePhrase, s, |pre|);
    var i, j := |pre|, |pre| + |digits|;
    assert s[i] == digits[0];
    forall k | i <= k < j ensures IsDigit(s[k]) {
      assert s[k] == digits[k - i];
    }
    assert s[j] == t[0];
    assert CharEq(t[0 + 0], AgeSuffix[0], true);
    DigitRunIs(s, i, j);
    forall k | 0 <= k < |AgeSuffix| ensures CharEq(s[j + k], AgeSuffix[k], true) {
      assert s[j + k] == t[0 + k];
    }
    assert s[i..j] == digits;
  }

  /** The end of a digit run is the first non-digit at or after its start. */
  lemma DigitRunIs(s: string, p: nat, r: nat)
    requires p <= r <= |s|
    requires forall k :: p <= k < r ==> IsDigit(s[k])
    requires r < |s| ==> !IsDigit(s[r])
    ensures DigitRunEnd(s, p) == r
  {
  }

  /** No character of "-YEARS-old" equals a digit ignoring case. */
  lemma AgeSuffixHasNoDigit(d: char, m: nat)
    requires IsDigit(d) && m < |AgeSuffix|
    ensures !CharEq(d, AgeSuffix[m], true)
  {
  }

  lemma AgePrefixTables(pre: string, x: string, post: string)
    requires pre == [] || !IsDigit(pre[|pre| - 1])
    requires |x| > 0 && IsDigit(x[0])
    ensures AgreeUpTo(Table(AgePhrase, pre + x + post), Table(AgePhrase, pre), |pre|)
  {
    var s := pre + x + post;
    forall q | 0 <= q < |pre| ensures Table(AgePhrase, s)[q] == Table(AgePhrase, pre)[q] {
      AgePrefixAt(pre, x, post, q);
      TableAt(AgePhrase, s, q);
      TableAt(AgePhrase, pre, q);
    }
  }

  lemma AgePrefixAt(pre: string, x: string, post: string, q: nat)
    requires pre == [] || !IsDigit(pre[|pre| - 1])
    requires |x| > 0 && IsDigit(x[0]) && q < |pre|
    ensures MatchAt(AgePhrase, pre + x + post, q) == MatchAt(AgePhrase, pre, q)
  {
    var s := pre + x + post;
    assert s[q] == pre[q];
    if IsDigit(pre[q]) {
      var r := DigitRunEnd(pre, q);
      assert r < |pre|;
      assert s[r] == pre[r];
      forall k | q <= k < r ensures IsDigit(s[k]) {
        assert s[k] == pre[k];
      }
      DigitRunIs(s, q, r);
      if r + |AgeSuffix| <= |pre| {
        LiteralPrefix(s, pre, r, AgeSuffix, true);
        assert s[q..r] == pre[q..r];
      } else {
        var m := |pre| - r;
        assert s[r + m] == x[0];
        AgeSuffixHasNoDigit(x[0], m);
      }
    }
  }

  /** From any position on, the age rule matches as it does on the rest of the text alone. */
  lemma AgeSuffixTables(s: string, k: nat)
    requires k <= |s|
    ensures AgreeFrom(Table(AgePhrase, s), Table(AgePhrase, s[k..]), k)
  {
    var h1, h2 := Table(AgePhrase, s), Table(AgePhrase, s[k..]);
    forall q | 0 <= q < |h2| ensures h1[k + q] == h2[q] {
      AgeMatchShift(s, k, q);
      TableShiftAt(AgePhrase, s, k, q);
    }
  }

  lemma AgeMatchShift(s: string, k: nat, q: nat)
    requires k + q < |s|
    ensures MatchAt(AgePhrase, s, k + q) == MatchAt(AgePhrase, s[k..], q)
  {
    var u := s[k..];
    assert u[q] == s[k + q];
    if IsDigit(u[q]) {
      var r := DigitRunEnd(u, q);
      DigitRunShift(s, k, q);
      LiteralShift(s, k, r, AgeSuffix, true);
      assert s[k + q..k + r] == u[q..r];
    }
  }

  /** A digit run ends at the same place in a text and in its suffix from `k`. */
  lemma DigitRunShift(s: string, k: nat, q: nat)
    requires k + q <= |s|
    ensures DigitRunEnd(s, k + q) == k + DigitRunEnd(s[k..], q)
  {
    var u := s[k..];
    var r := DigitRunEnd(u, q);
    forall m | k + q <= m < k + r ensures IsDigit(s[m]) {
      assert s[m] == u[m - k];
    }
    if r < |u| {
      assert s[k + r] == u[r];
    }
    DigitRunIs(s, k + q, k + r);
  }

  // ---------------------------------------------------------------------------
  // Rule 7: "SAE of"

  /**
   * A capital letter right after "SAE of " is lower-cased, when that is the
   * first "SAE of " in the text; the text after the letter is rewritten on its own.
   */
  lemma SaeOfLowered(pre: string, c: char, post: string)
    requires IsUpper(c)
    requires forall p :: 0 <= p < |pre| ==> !LiteralAt(pre + SaeOf, p, SaeOf, false)
    ensures Apply(LowerAfterSaeOf, pre + SaeOf + [c] + post)
      == pre + SaeOf + [LowerChar(c)] + Apply(LowerAfterSaeOf, post)
  {
    var x := SaeOf + [c];
    var s := pre + x + post;
    assert s == pre + SaeOf + [c] + post;
    SaePrefixTables(pre, c, post);
    ApplyWithoutHits(LowerAfterSaeOf, pre);
    assert LiteralAt(s, |pre|, SaeOf, false) by {
      forall j | 0 <= j < |SaeOf| ensures s[|pre| + j] == SaeOf[j] {
        assert s[|pre| + j] == x[j];
      }
    }
    assert s[|pre| + |SaeOf|] == c;
    TableAt(LowerAfterSaeOf, s, |pre|);
    assert post == s[|pre| + |x|..];
    SaeSuffixTables(s, |pre| + |x|);
    HitInText(Table(LowerAfterSaeOf, s), pre, x, post, Table(LowerAfterSaeOf, pre), Table(LowerAfterSaeOf, post), SaeOf + [LowerChar(c)]);
  }

  /** Before the first "SAE of ", neither the whole text nor `pre` alone has a match. */
  lemma SaePrefixTables(pre: string, c: char, post: string)
    requires forall p :: 0 <= p < |pre| ==> !LiteralAt(pre + SaeOf, p, SaeOf, false)
    ensures AgreeUpTo(Table(LowerAfterSaeOf, pre + (SaeOf + [c]) + post), Table(LowerAfterSaeOf, pre), |pre|)
    ensures forall p :: 0 <= p < |pre| ==> MatchAt(LowerAfterSaeOf, pre, p).None?
  {
    var s := pre + (SaeOf + [c]) + post;
    var w := pre + SaeOf;
    forall q | 0 <= q < |pre| ensures MatchAt(LowerAfterSaeOf, s, q).None? && MatchAt(LowerAfterSaeOf, pre, q).None? {
      assert !LiteralAt(w, q, SaeOf, false);
      assert w == s[..|w|];
      LiteralPrefix(s, w, q, SaeOf, false);
      if q + |SaeOf| <= |pre| {
        assert pre == w[..|pre|];
        LiteralPrefix(w, pre, q, SaeOf, false);
      }
    }
    forall q | 0 <= q < |pre| ensures Table(LowerAfterSaeOf, s)[q] == Table(LowerAfterSaeOf, pre)[q] {
      TableAt(LowerAfterSaeOf, s, q);
      TableAt(LowerAfterSaeOf, pre, q);
    }
  }

  /** From any position on, the "SAE of" rule matches as it does on the rest of the text alone. */
  lemma SaeSuffixTables(s: string, k: nat)
    requires k <= |s|
    ensures AgreeFrom(Table(LowerAfterSaeOf, s), Table(LowerAfterSaeOf, s[k..]), k)
  {
    var h1, h2 := Table(LowerAfterSaeOf, s), Table(LowerAfterSaeOf, s[k..]);
    forall q | 0 <= q < |h2| ensures h1[k + q] == h2[q] {
      SaeMatchShift(s, k, q);
      TableShiftAt(LowerAfterSaeOf, s, k, q);
    }
  }

  lemma SaeMatchShift(s: string, k: nat, q: nat)
    requires k + q < |s|
    ensures MatchAt(LowerAfterSaeOf, s, k + q) == MatchAt(LowerAfterSaeOf, s[k..], q)
  {
    var u := s[k..];
    LiteralShift(s, k, q, SaeOf, false);
    if k + q + |SaeOf| < |s| {
      assert s[k + q + |SaeOf|] == u[q + |SaeOf|];
    }
  }

  // ---------------------------------------------------------------------------
  // Rule 6: race and ethnicity fixes

  /**
   * A `\b...\b` pattern that starts and ends with a word character, and in
   * which no word after a non-word character starts with its first
   * character: no match of it can start inside a word that ends just before
   * a copy of it.
   */
  predicate WordShaped(p: string) {
    && |p| > 0 && IsWordChar(p[0]) && IsWordChar(p[|p| - 1])
    && forall m :: 0 < m < |p| ==> IsWordChar(p[m - 1]) || p[m] != p[0]
  }

  /**
   * Each race and ethnicity value, standing as a word group of its own in
   * running text, is replaced by its mixed-case spelling; the text around it
   * is rewritten on its own.
   */
  lemma RaceFixInText(k: nat, pre: string, post: string)
    requires 5 <= k < 10
    requires EndsOpen(pre) && StartsOpen(post)
    ensures Rules[k].WholeWord?
    ensures Apply(Rules[k], pre + Rules[k].pattern + post)
      == Apply(Rules[k], pre) + Rules[k].replacement + Apply(Rules[k], post)
  {
    RaceFixOnlyLowercases(k);
    RaceWordShaped(k);
    WholeWordInText(Rules[k].pattern, Rules[k].replacement, pre, post);
  }

  lemma RaceWordShaped(k: nat)
    requires 5 <= k < 10
    ensures Rules[k].WholeWord? && WordShaped(Rules[k].pattern)
  {
    if k == 5 {
      RaceFix5();
      NoSpaceShaped("WHITE");
    } else if k == 6 {
      RaceFix6();
      BlackShaped();
    } else if k == 7 {
      RaceFix7();
      NoSpaceShaped("ASIAN");
    } else if k == 8 {
      RaceFix8();
      NotHispanicShaped();
    } else {
      RaceFix9();
      HispanicShaped();
    }
  }

  /** A single word is word-shaped. */
  lemma NoSpaceShaped(p: string)
    requires |p| > 0 && forall m :: 0 <= m < |p| ==> IsUpper(p[m])
    ensures WordShaped(p)
  {
    forall m | 0 < m < |p| ensures IsWordChar(p[m - 1]) || p[m] != p[0] {
      assert IsUpper(p[m - 1]);
    }
  }

  // The words of each multi-word value start with letters other than its
  // first one; the positions are split by word.
  lemma BlackShaped()
    ensures WordShaped("BLACK OR AFRICAN AMERICAN")
  {
    var p := "BLACK OR AFRICAN AMERICAN";
    forall m | 0 < m < |p| ensures IsWordChar(p[m - 1]) || p[m] != p[0] {
      if m < 6 {
      } else if m < 9 {
      } else if m < 17 {
      } else if m < 18 {
      } else {
      }
    }
  }

  lemma NotHispanicShaped()
    ensures WordShaped("NOT HISPANIC OR LATINO")
  {
    var p := "NOT HISPANIC OR LATINO";
    forall m | 0 < m < |p| ensures IsWordChar(p[m - 1]) || p[m] != p[0] {
      if m < 4 {
      } else if m < 13 {
      } else if m < 16 {
      } else {
      }
    }
  }

  lemma HispanicShaped()
    ensures WordShaped("HISPANIC OR LATINO")
  {
    var p := "HISPANIC OR LATINO";
    forall m | 0 < m < |p| ensures IsWordChar(p[m - 1]) || p[m] != p[0] {
      if m < 9 {
      } else if m < 12 {
      } else {
      }
    }
  }

  /** A case-sensitive whole-word pattern standing as a word group of its own is replaced. */
  lemma WholeWordInText(p: string, rep: string, pre: string, post: string)
    requires WordShaped(p)
    requires EndsOpen(pre) && StartsOpen(post)
    ensures Apply(WholeWord(p, rep, false), pre + p + post)
      == Apply(WholeWord(p, rep, false), pre) + rep + Apply(WholeWord(p, rep, false), post)
  {
    WholeWordSplits(p, rep, pre, post);
    SiteRewrite(WholeWord(p, rep, false), pre, p, post, rep);
  }

  lemma WholeWordSplits(p: string, rep: string, pre: string, post: string)
    requires WordShaped(p)
    requires EndsOpen(pre) && StartsOpen(post)
    ensures SplitsAt(WholeWord(p, rep, false), pre, p, post, rep)
  {
    var s := pre + p + post;
    assert post == s[|pre| + |p|..];
    WholeWordSuffixTables(p, rep, s, |pre| + |p|);
    WholeWordPrefixTables(p, rep, pre, post);
    WholeWordHitAt(p, rep, pre, post);
  }

  lemma WholeWordHitAt(p: string, rep: string, pre: string, post: string)
    requires WordShaped(p)
    requires EndsOpen(pre) && StartsOpen(post)
    ensures Table(WholeWord(p, rep, false), pre + p + post)[|pre|] == Some(Hit(|p|, rep))
  {
    var s := pre + p + post;
    TableAt(WholeWord(p, rep, false), s, |pre|);
    WordAt(p, pre, post);
  }

  /** A word-shaped `p` between an open end and an open start occurs at `|pre|` with `\b` on both sides. */
  lemma WordAt(p: string, pre: string, post: string)
    requires WordShaped(p)
    requires EndsOpen(pre) && StartsOpen(post)
    ensures LiteralAt(pre + p + post, |pre|, p, false)
    ensures Boundary(pre + p + post, |pre|) && Boundary(pre + p + post, |pre| + |p|)
  {
    var s := pre + p + post;
    var i := |pre|;
    forall j | 0 <= j < |p| ensures CharEq(s[i + j], p[j], false) {
      assert s[i + j] == p[j];
    }
    if i > 0 {
      assert s[i - 1] == pre[i - 1];
    }
    assert s[i] == p[0];
    assert s[i + |p| - 1] == p[|p| - 1];
    if post != [] {
      assert s[i + |p|] == post[0];
    }
  }

  lemma WholeWordPrefixTables(p: string, rep: string, pre: string, post: string)
    requires WordShaped(p) && EndsOpen(pre)
    ensures AgreeUpTo(Table(WholeWord(p, rep, false), pre + p + post), Table(WholeWord(p, rep, false), pre), |pre|)
  {
    var s := pre + p + post;
    forall q | 0 <= q < |pre| ensures Table(WholeWord(p, rep, false), s)[q] == Table(WholeWord(p, rep, false), pre)[q] {
      WholeWordPrefixAt(p, rep, pre, post, q);
      TableAt(WholeWord(p, rep, false), s, q);
      TableAt(WholeWord(p, rep, false), pre, q);
    }
  }

  lemma WholeWordPrefixAt(p: string, rep: string, pre: string, post: string, q: nat)
    requires WordShaped(p) && EndsOpen(pre) && q < |pre|
    ensures MatchAt(WholeWord(p, rep, false), pre + p + post, q) == MatchAt(WholeWord(p, rep, false), pre, q)
  {
    var s := pre + p + post;
    if q + |p| <= |pre| {
      LiteralPrefix(s, pre, q, p, false);
      BoundaryPrefix(s, pre, q);
      if q + |p| < |pre| {
        BoundaryPrefix(s, pre, q + |p|);
      }
    } else {
      WholeWordNoCrossing(p, pre, p + post, q);
    }
  }

  /** No match of a word-shaped pattern starts in `pre` and runs into a text starting with the pattern's first character. */
  lemma WholeWordNoCrossing(p: string, pre: string, rest: string, q: nat)
    requires WordShaped(p) && EndsOpen(pre) && q < |pre| < q + |p|
    requires |rest| > 0 && rest[0] == p[0]
    ensures !LiteralAt(pre + rest, q, p, false)
  {
    var s := pre + rest;
    var m := |pre| - q;
    assert s[q + (m - 1)] == pre[|pre| - 1];
    assert s[q + m] == rest[0];
    if s[q + (m - 1)] == p[m - 1] {
      assert p[m] != p[0];
    }
  }

  /** From a position holding a non-word character on, a word-shaped pattern matches as it does on the rest alone. */
  lemma WholeWordSuffixTables(p: string, rep: string, s: string, k: nat)
    requires |p| > 0 && IsWordChar(p[0])
    requires k <= |s| && (k < |s| ==> !IsWordChar(s[k]))
    ensures AgreeFrom(Table(WholeWord(p, rep, false), s), Table(WholeWord(p, rep, false), s[k..]), k)
  {
    var h1, h2 := Table(WholeWord(p, rep, false), s), Table(WholeWord(p, rep, false), s[k..]);
    forall q | 0 <= q < |h2| ensures h1[k + q] == h2[q] {
      WholeWordMatchShift(p, rep, s, k, q);
      TableShiftAt(WholeWord(p, rep, false), s, k, q);
    }
  }

  lemma WholeWordMatchShift(p: string, rep: string, s: string, k: nat, q: nat)
    requires |p| > 0 && IsWordChar(p[0])
    requires k + q < |s| && (q > 0 || !IsWordChar(s[k]))
    ensures MatchAt(WholeWord(p, rep, false), s, k + q) == MatchAt(WholeWord(p, rep, false), s[k..], q)
  {
    LiteralShift(s, k, q, p, false);
    if q > 0 {
      BoundaryShift(s, k, q);
      if k + q + |p| <= |s| {
        BoundaryShift(s, k, q + |p|);
      }
    }
  }
}
