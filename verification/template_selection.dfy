/**
 * Narrative templates and the fixed priority cascade that picks one of them
 * from an adverse event's seriousness flags.
 */
module TemplateSelection {
  import opened Wrappers
  import opened Text
  import opened Values

  /**
   * One paragraph of a template: its ordering number, the base pattern and
   * the optional "variations" keyed "with_end_date" / "without_end_date"
   * (empty when absent).
   */
  datatype Paragraph = Paragraph(number: int, template: string, variations: map<string, string>)

  /**
   * A configured template entry. `Blank` stands for a falsy JSON value
   * (`null`, `{}`), which the cascade skips like a missing key.
   */
  datatype Template = Blank | Template(templateId: string, paragraphs: seq<Paragraph>)

  type Templates = map<string, Template>

  const HospitalizationKey := "sae_hospitalization"
  const MedicallyImportantKey := "sae_medically_important"
  const GenericKey := "sae_generic"
  const NonSeriousKey := "ae_non_serious"

  /** `if template:` after `templates.get(key)`. */
  predicate Configured(ts: Templates, key: string) {
    key in ts && !ts[key].Blank?
  }

  datatype SelectionError =
    /** A flag held a non-zero number, on which `.upper()` raises `AttributeError`. */
    | FlagNotText(flag: string)
    /**
     * The cascade found no configured template (`ValueError`). The message
     * lists the configured keys in file order; `available` keeps only the set.
     */
    | NoTemplate(serious: string, hospitalization: string, medicallyImportant: string, available: set<string>)

  /** `(event_data.get(key) or "").upper()`. */
  function FlagText(event: Row, key: string): (r: Option<string>)
    ensures !Truthy(Get(event, key)) ==> r == Some("")
    ensures Get(event, key).Str? ==> r == Some(UpperStr(Get(event, key).text))
    ensures r.None? <==> Truthy(Get(event, key)) && !Get(event, key).Str?
  {
    var v := Get(event, key);
    if !Truthy(v) then Some("")
    else match v
      case Str(s) => Some(UpperStr(s))
      case _ => None
  }

  /** The cascade of `select_template`, over normalised flags, as the key it settles on. */
  function SelectKey(ts: Templates, serious: string, hosp: string, medImp: string): (r: Option<string>)
    ensures r.Some? ==> Configured(ts, r.value)
  {
    if serious == "Y" && hosp == "Y" && Configured(ts, HospitalizationKey) then Some(HospitalizationKey)
    else if serious == "Y" && hosp == "N" && medImp == "Y" && Configured(ts, MedicallyImportantKey) then
      Some(MedicallyImportantKey)
    else if serious == "Y" && hosp != "Y" && Configured(ts, MedicallyImportantKey) then Some(MedicallyImportantKey)
    else if serious == "Y" && Configured(ts, GenericKey) then Some(GenericKey)
    else if serious == "Y" && Configured(ts, HospitalizationKey) then Some(HospitalizationKey)
    else if Configured(ts, NonSeriousKey) then Some(NonSeriousKey)
    else None
  }

  /** `select_template`: normalise the three flags in order, then run the cascade. */
  function SelectTemplate(ts: Templates, event: Row): (r: Result<Template, SelectionError>)
    ensures r.Success? ==> r.value in ts.Values && !r.value.Blank?
  {
    var serious := FlagText(event, "serious_event");
    var hosp := FlagText(event, "hospitalization");
    var medImp := FlagText(event, "other_medically_important");
    if serious.None? then Failure(FlagNotText("serious_event"))
    else if hosp.None? then Failure(FlagNotText("hospitalization"))
    else if medImp.None? then Failure(FlagNotText("other_medically_important"))
    else
      match SelectKey(ts, serious.value, hosp.value, medImp.value)
      case Some(k) => Success(ts[k])
      case None => Failure(NoTemplate(serious.value, hosp.value, medImp.value, ts.Keys))
  }

  /**
   * Reference definition of the cascade: the keys it tries, in order, for a
   * combination of normalised flags.
   */
  function CandidateKeys(serious: string, hosp: string, medImp: string): seq<string> {
    if serious != "Y" then [NonSeriousKey]
    else if hosp == "Y" then [HospitalizationKey, GenericKey, HospitalizationKey, NonSeriousKey]
    else [MedicallyImportantKey, GenericKey, HospitalizationKey, NonSeriousKey]
  }

  /** The first configured key of a list. */
  function FirstConfigured(ts: Templates, keys: seq<string>): (r: Option<string>)
    ensures r.Some? ==> r.value in keys && Configured(ts, r.value)
    ensures r.None? <==> forall k :: k in keys ==> !Configured(ts, k)
  {
    if |keys| == 0 then None
    else if Configured(ts, keys[0]) then Some(keys[0])
    else FirstConfigured(ts, keys[1..])
  }

  /** The cascade returns the first configured key among the ones it tries, in order. */
  lemma CascadeIsFirstConfigured(ts: Templates, serious: string, hosp: string, medImp: string)
    ensures SelectKey(ts, serious, hosp, medImp) == FirstConfigured(ts, CandidateKeys(serious, hosp, medImp))
  {
    var keys := CandidateKeys(serious, hosp, medImp);
    if serious == "Y" {
      var first := if hosp == "Y" then HospitalizationKey else MedicallyImportantKey;
      assert keys == [first, GenericKey, HospitalizationKey, NonSeriousKey];
      assert keys[1..] == [GenericKey, HospitalizationKey, NonSeriousKey];
      assert keys[1..][1..] == [HospitalizationKey, NonSeriousKey];
      assert keys[1..][1..][1..] == [NonSeriousKey];
      var last := FirstConfigured(ts, [NonSeriousKey]);
      assert last == (if Configured(ts, NonSeriousKey) then Some(NonSeriousKey) else None) by {
        assert [NonSeriousKey][1..] == [];
      }
      var third := FirstConfigured(ts, [HospitalizationKey, NonSeriousKey]);
      assert third == (if Configured(ts, HospitalizationKey) then Some(HospitalizationKey) else last);
      var second := FirstConfigured(ts, [GenericKey, HospitalizationKey, NonSeriousKey]);
      assert second == (if Configured(ts, GenericKey) then Some(GenericKey) else third);
      assert FirstConfigured(ts, keys) == (if Configured(ts, first) then Some(first) else second);
    } else {
      assert [NonSeriousKey][1..] == [];
    }
  }

  /** Selection fails for lack of a template exactly when no key the cascade tries is configured. */
  lemma NoTemplateExactly(ts: Templates, event: Row)
    requires FlagText(event, "serious_event").Some?
    requires FlagText(event, "hospitalization").Some?
    requires FlagText(event, "other_medically_important").Some?
    ensures var s, h, m := FlagText(event, "serious_event").value, FlagText(event, "hospitalization").value,
        FlagText(event, "other_medically_important").value;
      SelectTemplate(ts, event).Failure? <==> forall k :: k in CandidateKeys(s, h, m) ==> !Configured(ts, k)
  {
    var s, h, m := FlagText(event, "serious_event").value, FlagText(event, "hospitalization").value,
      FlagText(event, "other_medically_important").value;
    CascadeIsFirstConfigured(ts, s, h, m);
  }

  /** Priority 1: a hospitalised SAE gets the hospitalisation template, whatever the third flag says. */
  lemma HospitalizationFirst(ts: Templates, event: Row)
    requires FlagText(event, "serious_event") == Some("Y")
    requires FlagText(event, "hospitalization") == Some("Y")
    requires FlagText(event, "other_medically_important").Some?
    requires Configured(ts, HospitalizationKey)
    ensures SelectTemplate(ts, event) == Success(ts[HospitalizationKey])
  {
  }

  /**
   * Priorities 2 and 3: an SAE whose hospitalisation flag is anything but "Y"
   * gets the medically-important template, whatever the third flag says.
   */
  lemma MedicallyImportantWithoutHospitalization(ts: Templates, event: Row)
    requires FlagText(event, "serious_event") == Some("Y")
    requires FlagText(event, "hospitalization").Some? && FlagText(event, "hospitalization") != Some("Y")
    requires FlagText(event, "other_medically_important").Some?
    requires Configured(ts, MedicallyImportantKey)
    ensures SelectTemplate(ts, event) == Success(ts[MedicallyImportantKey])
  {
  }

  /** Priority 5: an event not flagged serious ("N", missing or anything else) never gets an SAE template. */
  lemma NonSeriousOnly(ts: Templates, event: Row)
    requires FlagText(event, "serious_event").Some? && FlagText(event, "serious_event") != Some("Y")
    requires FlagText(event, "hospitalization").Some?
    requires FlagText(event, "other_medically_important").Some?
    ensures Configured(ts, NonSeriousKey) ==> SelectTemplate(ts, event) == Success(ts[NonSeriousKey])
    ensures !Configured(ts, NonSeriousKey) ==> SelectTemplate(ts, event).Failure?
  {
  }

  /** Flags are compared case-insensitively: "y" selects like "Y", and a missing flag like "". */
  lemma FlagNormalisation(event: Row, key: string)
    ensures Get(event, key) == Str("y") ==> FlagText(event, key) == Some("Y")
    ensures key !in event ==> FlagText(event, key) == Some("")
  {
    assert UpperStr("y") == "Y";
  }
}
