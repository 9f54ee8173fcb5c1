/**
 * `generate_paragraph` and `generate_narrative`: choose each paragraph's
 * text, fill it, rewrite it with the business rules, order the paragraphs by
 * number and join them, then hand the result to the optional enhancer.
 */
module NarrativeAssembly {
  import opened Wrappers
  import opened Text
  import opened Values
  import opened FieldMapper
  import opened TemplateSelection
  import opened TemplateFill
  import opened BusinessRules
  import opened AiEnhancer
  import opened DoseWording
  import DoseRules

  const WithEndDate := "with_end_date"
  const WithoutEndDate := "without_end_date"
  const ParagraphBreak := "\n\n"

  /** The variation a paragraph uses: the one for events that have ended, or the other. */
  function VariantKey(fields: Row): (k: string)
    ensures k == WithEndDate <==> Truthy(Get(fields, "end_date"))
    ensures k == WithEndDate || k == WithoutEndDate
  {
    if Truthy(Get(fields, "end_date")) then WithEndDate else WithoutEndDate
  }

  /** The pattern a paragraph is filled from: the base, extended by its variation when there is a non-empty one. */
  function TemplateText(p: Paragraph, fields: Row): (r: string)
    ensures r == p.template
      || (VariantKey(fields) in p.variations && r == p.template + " " + p.variations[VariantKey(fields)])
    ensures r != p.template <==>
      VariantKey(fields) in p.variations && p.variations[VariantKey(fields)] != ""
  {
    if |p.variations| > 0 && VariantKey(fields) in p.variations && p.variations[VariantKey(fields)] != "" then
      p.template + " " + p.variations[VariantKey(fields)]
    else p.template
  }

  /** An ended event gets the "with" variation, an open one the "without" variation. */
  lemma VariantFollowsEndDate(p: Paragraph, fields: Row)
    requires WithEndDate in p.variations && WithoutEndDate in p.variations
    requires p.variations[WithEndDate] != "" && p.variations[WithoutEndDate] != ""
    ensures Truthy(Get(fields, "end_date")) ==> TemplateText(p, fields) == p.template + " " + p.variations[WithEndDate]
    ensures !Truthy(Get(fields, "end_date")) ==> TemplateText(p, fields) == p.template + " " + p.variations[WithoutEndDate]
  {
  }

  /** `generate_paragraph`: fill the pattern, then apply the business rules to the filled text. */
  function GenerateParagraph(p: Paragraph, fields: Row): (r: Result<string, FillError>)
    ensures r.Failure? <==> Fill(TemplateText(p, fields), fields).Failure?
    ensures r.Failure? ==> r.error == Fill(TemplateText(p, fields), fields).error
    ensures r.Success? ==> r.value == ApplyBusinessRules(Fill(TemplateText(p, fields), fields).value)
  {
    match Fill(TemplateText(p, fields), fields)
    case Failure(e) => Failure(e)
    case Success(filled) => Success(ApplyBusinessRules(filled))
  }

  /** A generated paragraph never says "last dose", whatever the template and the data. */
  lemma ParagraphAvoidsLastDose(p: Paragraph, fields: Row)
    requires GenerateParagraph(p, fields).Success?
    ensures NoWholeWord(GenerateParagraph(p, fields).value, LastDose)
  {
    DoseRules.NoLastDoseAfterRules(Fill(TemplateText(p, fields), fields).value);
  }

  /** A paragraph whose chosen text is written as plain pieces is its reference filling, rewritten by the rules. */
  lemma ParagraphMeansRewrittenFilling(p: Paragraph, ps: seq<Piece>, fields: Row)
    requires PlainPieces(ps) && TemplateText(p, fields) == Encode(ps)
    ensures GenerateParagraph(p, fields) == Success(ApplyBusinessRules(Expected(ps, fields)))
  {
    FillMeansExpected(ps, fields);
  }

  /**
   * A paragraph with a non-empty variation for the event: the base filling, a
   * space and the variation's filling, rewritten by the rules as one text.
   */
  lemma VariationMeansRewrittenFilling(p: Paragraph, fields: Row, base: seq<Piece>, variant: seq<Piece>)
    requires PlainPieces(base) && PlainPieces(variant) && |variant| > 0
    requires p.template == Encode(base)
    requires VariantKey(fields) in p.variations && p.variations[VariantKey(fields)] == Encode(variant)
    ensures GenerateParagraph(p, fields)
      == Success(ApplyBusinessRules(Expected(base, fields) + " " + Expected(variant, fields)))
  {
    var ps := base + [Lit(' ')] + variant;
    assert Encode(variant) != "" by {
      assert |Encode(variant)| >= 1;
    }
    assert TemplateText(p, fields) == Encode(base) + " " + Encode(variant);
    EncodeConcat(base + [Lit(' ')], variant);
    EncodeConcat(base, [Lit(' ')]);
    assert Encode([Lit(' ')]) == " " by {
      assert [Lit(' ')][1..] == [];
    }
    ExpectedConcat(base + [Lit(' ')], variant, fields);
    ExpectedConcat(base, [Lit(' ')], fields);
    assert Expected([Lit(' ')], fields) == " " by {
      assert [Lit(' ')][1..] == [];
    }
    PlainAround(base, ' ', variant);
    ParagraphMeansRewrittenFilling(p, ps, fields);
  }

  // ---------------------------------------------------------------------
  // `sorted(template["paragraphs"], key=lambda p: p["number"])`

  predicate SortedByNumber(s: seq<Paragraph>) {
    forall i, j :: 0 <= i < j < |s| ==> s[i].number <= s[j].number
  }

  /** Places `x` behind every paragraph whose number is not larger, as a stable sort does. */
  function InsertByNumber(x: Paragraph, s: seq<Paragraph>): (r: seq<Paragraph>)
    requires SortedByNumber(s)
    ensures SortedByNumber(r) && multiset(r) == multiset(s) + multiset{x} && |r| == |s| + 1
    decreases |s|
  {
    if |s| == 0 then [x]
    else
      var n := |s| - 1;
      if s[n].number <= x.number then s + [x]
      else
        var front := InsertByNumber(x, s[..n]);
        assert s == s[..n] + [s[n]];
        InsertBelow(x, s[..n], front, s[n].number);
        front + [s[n]]
  }

  /** Inserting below a bound keeps every number below it. */
  lemma InsertBelow(x: Paragraph, s: seq<Paragraph>, r: seq<Paragraph>, bound: int)
    requires multiset(r) == multiset(s) + multiset{x}
    requires x.number <= bound && forall y :: y in s ==> y.number <= bound
    ensures forall y :: y in r ==> y.number <= bound
  {
    forall y | y in r ensures y.number <= bound {
      assert y in multiset(r);
      if y != x {
        assert y in multiset(s);
      }
    }
  }

  /** The paragraphs ordered by number, ties kept in their configured order. */
  function SortByNumber(ps: seq<Paragraph>): (r: seq<Paragraph>)
    ensures SortedByNumber(r) && multiset(r) == multiset(ps) && |r| == |ps|
    decreases |ps|
  {
    if |ps| == 0 then []
    else
      var n := |ps| - 1;
      assert ps == ps[..n] + [ps[n]];
      InsertByNumber(ps[n], SortByNumber(ps[..n]))
  }

  /** The paragraphs of `s` with number `k`, in order. */
  function WithNumber(s: seq<Paragraph>, k: int): seq<Paragraph> {
    if |s| == 0 then []
    else WithNumber(s[..|s| - 1], k) + (if s[|s| - 1].number == k then [s[|s| - 1]] else [])
  }

  lemma WithNumberSnoc(s: seq<Paragraph>, y: Paragraph, k: int)
    ensures WithNumber(s + [y], k) == WithNumber(s, k) + (if y.number == k then [y] else [])
  {
    assert (s + [y])[..|s|] == s;
  }

  lemma InsertShape(x: Paragraph, s: seq<Paragraph>)
    requires SortedByNumber(s) && |s| > 0
    ensures s[|s| - 1].number <= x.number ==> InsertByNumber(x, s) == s + [x]
    ensures s[|s| - 1].number > x.number ==>
      InsertByNumber(x, s) == InsertByNumber(x, s[..|s| - 1]) + [s[|s| - 1]]
  {
  }

  lemma {:induction false} InsertKeepsTies(x: Paragraph, s: seq<Paragraph>, k: int)
    requires SortedByNumber(s)
    ensures WithNumber(InsertByNumber(x, s), k) == WithNumber(s, k) + (if x.number == k then [x] else [])
    decreases |s|
  {
    if |s| == 0 {
      assert InsertByNumber(x, s) == [] + [x];
      WithNumberSnoc([], x, k);
    } else {
      var n := |s| - 1;
      InsertShape(x, s);
      var prefix, last := s[..n], s[n];
      assert s == prefix + [last];
      WithNumberSnoc(prefix, last, k);
      if last.number <= x.number {
        WithNumberSnoc(s, x, k);
      } else {
        var front := InsertByNumber(x, prefix);
        InsertKeepsTies(x, prefix, k);
        WithNumberSnoc(front, last, k);
      }
    }
  }

  /** The sort is stable: for every number, its paragraphs keep their configured order. */
  lemma {:induction false} SortIsStable(ps: seq<Paragraph>, k: int)
    ensures WithNumber(SortByNumber(ps), k) == WithNumber(ps, k)
    decreases |ps|
  {
    if |ps| > 0 {
      var n := |ps| - 1;
      SortIsStable(ps[..n], k);
      InsertKeepsTies(ps[n], SortByNumber(ps[..n]), k);
    }
  }

  // ---------------------------------------------------------------------
  // `generate_narrative`

  datatype NarrativeError =
    | SelectionFailed(selection: SelectionError)
    | FillFailed(number: int, fill: FillError)

  /** What `generate_paragraph` gives for each of the paragraphs, in order. */
  function Outcomes(ps: seq<Paragraph>, fields: Row): (r: seq<Result<string, FillError>>)
    ensures |r| == |ps|
    ensures forall i :: 0 <= i < |ps| ==> r[i] == GenerateParagraph(ps[i], fields)
  {
    seq(|ps|, i requires 0 <= i < |ps| => GenerateParagraph(ps[i], fields))
  }

  /** The index of the first failed outcome from `from` on, or the count if none failed. */
  function FirstFailure(outs: seq<Result<string, FillError>>, from: nat := 0): (i: nat)
    requires from <= |outs|
    ensures from <= i <= |outs|
    ensures forall j :: from <= j < i ==> outs[j].Success?
    ensures i < |outs| ==> outs[i].Failure?
    decreases |outs| - from
  {
    if from == |outs| || outs[from].Failure? then from
    else FirstFailure(outs, from + 1)
  }

  /**
   * The paragraph loop from `from` on: every paragraph's text in order, or
   * the first failure, tagged with its paragraph's number.
   */
  function Collect(ps: seq<Paragraph>, outs: seq<Result<string, FillError>>, from: nat := 0):
    (r: Result<seq<string>, NarrativeError>)
    requires |outs| == |ps| && from <= |ps|
    ensures r.Success? <==> FirstFailure(outs, from) == |ps|
    ensures r.Success? ==> |r.value| == |ps| - from
    ensures r.Success? ==> forall i :: from <= i < |ps| ==> r.value[i - from] == outs[i].value
    ensures r.Failure? ==> var i := FirstFailure(outs, from);
      i < |ps| && r.error == FillFailed(ps[i].number, outs[i].error)
    decreases |ps| - from
  {
    if from == |ps| then Success([])
    else if outs[from].Failure? then Failure(FillFailed(ps[from].number, outs[from].error))
    else
      var rest := Collect(ps, outs, from + 1);
      if rest.Failure? then Failure(rest.error)
      else Success([outs[from].value] + rest.value)
  }

  /** Every one of the paragraphs can be filled with the fields. */
  predicate EveryParagraphFills(ps: seq<Paragraph>, fields: Row) {
    forall i :: 0 <= i < |ps| ==> GenerateParagraph(ps[i], fields).Success?
  }

  /** The paragraph loop of `generate_narrative`: generate each paragraph in turn, stopping at the first error. */
  function RenderParagraphs(ps: seq<Paragraph>, fields: Row): (r: Result<seq<string>, NarrativeError>)
    ensures r.Success? <==> EveryParagraphFills(ps, fields)
    ensures r.Success? ==> |r.value| == |ps|
    ensures r.Success? ==> forall i :: 0 <= i < |ps| ==> r.value[i] == GenerateParagraph(ps[i], fields).value
    ensures r.Failure? ==> r.error.FillFailed?
  {
    var outs := Outcomes(ps, fields);
    var r := Collect(ps, outs);
    if r.Failure? then
      var i := FirstFailure(outs);
      assert outs[i] == GenerateParagraph(ps[i], fields);
      r
    else
      assert forall i :: 0 <= i < |ps| ==> r.value[i] == r.value[i - 0];
      r
  }

  /** A failed loop reports the first paragraph that cannot be filled, after all earlier ones succeeded. */
  lemma FirstFailureReported(ps: seq<Paragraph>, fields: Row)
    requires RenderParagraphs(ps, fields).Failure?
    ensures var i := FirstFailure(Outcomes(ps, fields));
      && i < |ps|
      && (forall j :: 0 <= j < i ==> GenerateParagraph(ps[j], fields).Success?)
      && GenerateParagraph(ps[i], fields).Failure?
      && RenderParagraphs(ps, fields).error == FillFailed(ps[i].number, GenerateParagraph(ps[i], fields).error)
  {
    var outs := Outcomes(ps, fields);
    var i := FirstFailure(outs);
    assert RenderParagraphs(ps, fields) == Collect(ps, outs);
    assert outs[i] == GenerateParagraph(ps[i], fields);
    forall j | 0 <= j < i ensures GenerateParagraph(ps[j], fields).Success? {
      assert outs[j] == GenerateParagraph(ps[j], fields);
    }
  }

  /** The body of `generate_narrative` once the fields are mapped and the template chosen. */
  function ComposeNarrative(template: Template, fields: Row, enhancer: Option<ClientReply>):
    (r: Result<string, NarrativeError>)
    requires !template.Blank?
    ensures r.Success? <==> EveryParagraphFills(SortByNumber(template.paragraphs), fields)
    ensures r.Failure? ==> r.error.FillFailed?
  {
    match RenderParagraphs(SortByNumber(template.paragraphs), fields)
    case Failure(e) => Failure(e)
    case Success(texts) =>
      var baseline := Join(texts, ParagraphBreak);
      match enhancer
      case None => Success(baseline)
      case Some(reply) => Success(Enhance(reply, baseline))
  }

  /** `generate_narrative`, with the enhancer's client reduced to its reply (`None`: no enhancer). */
  function GenerateNarrative(config: Config, ts: Templates, rows: Rows, enhancer: Option<ClientReply>):
    (r: Result<string, NarrativeError>)
    ensures SelectTemplate(ts, rows.event.GetOr(map[])).Failure? ==>
      r == Failure(SelectionFailed(SelectTemplate(ts, rows.event.GetOr(map[])).error))
    ensures SelectTemplate(ts, rows.event.GetOr(map[])).Success? ==>
      r == ComposeNarrative(SelectTemplate(ts, rows.event.GetOr(map[])).value, MapAllFields(config, rows), enhancer)
    ensures r.Success? <==>
      && SelectTemplate(ts, rows.event.GetOr(map[])).Success?
      && EveryParagraphFills(SortByNumber(SelectTemplate(ts, rows.event.GetOr(map[])).value.paragraphs), MapAllFields(config, rows))
    ensures r.Failure? ==> (r.error.SelectionFailed? <==> SelectTemplate(ts, rows.event.GetOr(map[])).Failure?)
  {
    match SelectTemplate(ts, rows.event.GetOr(map[]))
    case Failure(e) => Failure(SelectionFailed(e))
    case Success(template) => ComposeNarrative(template, MapAllFields(config, rows), enhancer)
  }

  /** Two texts without a whole-word "last dose" keep it out when joined by a paragraph break. */
  lemma SeparatedKeepsOut(a: string, b: string)
    requires NoWholeWord(a, LastDose) && NoWholeWord(b, LastDose)
    ensures NoWholeWord(a + ParagraphBreak + b, LastDose)
  {
    var front := a + ParagraphBreak;
    var o := front + b;
    forall k: nat | k < |o| ensures !OccursAt(o, k, LastDose, false) {
      if k + |LastDose| <= |a| {
        forall j | k <= j < k + |LastDose| ensures o[j] == a[j] { }
        if k > 0 {
          assert o[k - 1] == a[k - 1];
        }
        if k + |LastDose| < |a| {
          assert o[k + |LastDose|] == a[k + |LastDose|];
        } else {
          assert o[k + |LastDose|] == '\n';
        }
        assert OccursAt(o, k, LastDose, false) == OccursAt(a, k, LastDose, false);
      } else if k < |front| {
        var idx := if k < |a| then |a| else k;
        assert o[idx] == '\n';
        if idx - k < |LastDose| {
          assert !CharEq(o[k + (idx - k)], LastDose[idx - k], true);
        }
      } else {
        ShiftOccurrence(front, b, k - |front|, LastDose, false);
        assert front[|front| - 1] == '\n';
      }
    }
  }

  /** The paragraphs of a narrative, none with a whole-word "last dose", stay so when joined. */
  lemma {:induction false} JoinKeepsOut(parts: seq<string>)
    requires forall i :: 0 <= i < |parts| ==> NoWholeWord(parts[i], LastDose)
    ensures NoWholeWord(Join(parts, ParagraphBreak), LastDose)
    decreases |parts|
  {
    if |parts| > 1 {
      JoinKeepsOut(parts[1..]);
      SeparatedKeepsOut(parts[0], Join(parts[1..], ParagraphBreak));
    }
  }

  /** Without an enhancer, a composed narrative never says "last dose". */
  lemma ComposedAvoidsLastDose(template: Template, fields: Row)
    requires !template.Blank? && ComposeNarrative(template, fields, None).Success?
    ensures NoWholeWord(ComposeNarrative(template, fields, None).value, LastDose)
  {
    var sorted := SortByNumber(template.paragraphs);
    var texts := RenderParagraphs(sorted, fields).value;
    forall i | 0 <= i < |texts| ensures NoWholeWord(texts[i], LastDose) {
      ParagraphAvoidsLastDose(sorted[i], fields);
    }
    JoinKeepsOut(texts);
  }

  /** Without an enhancer, a generated narrative never says "last dose". */
  lemma NarrativeAvoidsLastDose(config: Config, ts: Templates, rows: Rows)
    requires GenerateNarrative(config, ts, rows, None).Success?
    ensures NoWholeWord(GenerateNarrative(config, ts, rows, None).value, LastDose)
  {
    var template := SelectTemplate(ts, rows.event.GetOr(map[])).value;
    ComposedAvoidsLastDose(template, MapAllFields(config, rows));
  }

  /**
   * Without an enhancer, a narrative is the texts of the template's
   * paragraphs, in number order, joined by blank lines; it fails exactly when
   * one of those paragraphs cannot be filled.
   */
  lemma NarrativeLayout(template: Template, fields: Row)
    requires !template.Blank?
    ensures ComposeNarrative(template, fields, None).Success? <==>
      EveryParagraphFills(SortByNumber(template.paragraphs), fields)
    ensures ComposeNarrative(template, fields, None).Success? ==>
      ComposeNarrative(template, fields, None).value
        == Join(RenderParagraphs(SortByNumber(template.paragraphs), fields).value, ParagraphBreak)
  {
    var sorted := SortByNumber(template.paragraphs);
    var rp := RenderParagraphs(sorted, fields);
    if rp.Failure? {
      assert ComposeNarrative(template, fields, None) == Failure(rp.error);
    } else {
      assert ComposeNarrative(template, fields, None) == Success(Join(rp.value, ParagraphBreak));
    }
  }

  /** A failing client leaves the narrative exactly as it would be without the enhancer. */
  lemma FailedClientKeepsBaseline(config: Config, ts: Templates, rows: Rows)
    ensures GenerateNarrative(config, ts, rows, Some(Raised)) == GenerateNarrative(config, ts, rows, None)
  {
    if SelectTemplate(ts, rows.event.GetOr(map[])).Success? {
      ClientReplyOnly(SelectTemplate(ts, rows.event.GetOr(map[])).value, MapAllFields(config, rows), Raised);
    }
  }

  /** The enhancer sees the template narrative and changes nothing but the final text. */
  lemma ClientReplyOnly(template: Template, fields: Row, reply: ClientReply)
    requires !template.Blank?
    ensures ComposeNarrative(template, fields, None).Failure? ==>
      ComposeNarrative(template, fields, Some(reply)) == ComposeNarrative(template, fields, None)
    ensures ComposeNarrative(template, fields, None).Success? ==>
      ComposeNarrative(template, fields, Some(reply)) == Success(Enhance(reply, ComposeNarrative(template, fields, None).value))
  {
  }

  /** An empty reply gives the baseline without its surrounding whitespace. */
  lemma EmptyReplyStripsBaseline(config: Config, ts: Templates, rows: Rows)
    requires GenerateNarrative(config, ts, rows, None).Success?
    ensures GenerateNarrative(config, ts, rows, Some(Replied(None)))
      == Success(Strip(GenerateNarrative(config, ts, rows, None).value))
  {
    var template := SelectTemplate(ts, rows.event.GetOr(map[])).value;
    var fields := MapAllFields(config, rows);
    ClientReplyOnly(template, fields, Replied(None));
    var baseline := ComposeNarrative(template, fields, None).value;
    assert Enhance(Replied(None), baseline) == Strip(baseline);
  }

  /** A real reply replaces the template narrative entirely, and errors come before the enhancer. */
  lemma ReplyReplacesNarrative(config: Config, ts: Templates, rows: Rows, answer: string)
    requires answer != ""
    ensures GenerateNarrative(config, ts, rows, None).Success? ==>
      GenerateNarrative(config, ts, rows, Some(Replied(Some(answer)))) == Success(Strip(answer))
    ensures GenerateNarrative(config, ts, rows, None).Failure? ==>
      GenerateNarrative(config, ts, rows, Some(Replied(Some(answer)))) == GenerateNarrative(config, ts, rows, None)
  {
    if SelectTemplate(ts, rows.event.GetOr(map[])).Success? {
      ClientReplyOnly(SelectTemplate(ts, rows.event.GetOr(map[])).value, MapAllFields(config, rows), Replied(Some(answer)));
    }
  }
}
