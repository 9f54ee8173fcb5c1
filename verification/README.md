# Adverse-event narrative generation, modelled in Dafny

This project models the core of a pipeline that writes adverse-event
narratives for clinical-trial safety reports. For one subject and one event
it does the following:

- Resolves the configured fields from the subject, event and treatment rows.
  Each value goes through its categorical value map, and date fields are
  reformatted to `DD-Mon-YYYY`.
- Picks a narrative template from the event's seriousness flags, using a
  fixed priority cascade with fallbacks.
- Fills each paragraph's placeholders. Missing data is shown as
  `[NOT AVAILABLE]`.
- Rewrites each paragraph with an ordered list of house-style rules. These
  cover "last dose" wording, ISO dates, lower-cased clauses, age phrases,
  race and ethnicity casing, and the term after "SAE of".
- Joins the paragraphs in paragraph-number order.
- Optionally hands the draft to a language-model enhancer. When the
  enhancer fails, the draft is kept.

Modules, in dependency order:

| module | file | what it holds |
|---|---|---|
| `Wrappers` | wrappers.dfy | `Option` and `Result` |
| `Text` | text.dfy | ASCII character classes, case mapping, `str.strip`, `str.join` |
| `Values` | values.dfy | the dynamically typed cell values (`None`, string, integer) and rows |
| `Dates`, `DateFacts` | dates.dfy | `strptime` for `%Y-%m-%d` and `%d-%b-%Y`, `strftime("%d-%b-%Y")`, and their round trips |
| `FieldMapper` | field_mapper.dfy | value mapping, field formatting, date parsing, field resolution |
| `TemplateSelection` | template_selection.dfy | the template cascade |
| `TemplateFill` | template_fill.dfy | `str.format` over named fields with the missing-value marker |
| `BusinessRules` | business_rules.dfy | the rewrite rules and a `re.sub` scanner |
| `RuleFacts` | rule_facts.dfy | general facts about the scanner, and the rules that only lower-case |
| `DoseWording`, `DoseRules` | dose_wording.dfy | "last dose" never survives the rules |
| `RuleExamples` | rule_examples.dfy | the individual rules on concrete and general inputs |
| `RuleSites` | rule_sites.dfy | the date, age, race and "SAE of" rules at a match inside running text |
| `AiEnhancer` | ai_enhancer.dfy | the enhancer's fallback, `_extract_category` and `_format_dict` |
| `NarrativeAssembly` | narrative_assembly.dfy | paragraph generation and the whole narrative |

Each `re.sub` is one `Rule`. `Table(rule, s)` records, for every position,
the match the pattern would make there. `Rewrite` walks the text from left to
right: it copies a character where nothing matches, and after a match it
resumes right behind it. These are exactly `re.sub`'s non-overlapping
semantics.

Three behaviours of the code are easy to miss:

- **The rules are not idempotent.** The date rule can create a new
  ISO-shaped date out of the text it has just rewritten.
  `RuleExamples.RulesNotIdempotent` exhibits `2023-12-05-12-02`
  (src/narrative_generator.py:130-139). One pass gives `05-Dec-2023-12-02`
  and a second pass gives `05-Dec-02-Dec-2023`.
- **An unknown placeholder is not an error.** `fill_template` catches
  `KeyError` and turns it into a `ValueError`
  (src/narrative_generator.py:121-123). That handler never fires for a named
  field. `_SafeDict.__missing__` (src/narrative_generator.py:247-249)
  answers every unknown name with `[NOT AVAILABLE]`, so `vformat` never
  raises `KeyError` (`TemplateFill.Substitution`, `TemplateFill.SingleField`).
- **A blank reply gives an empty narrative.** The enhancer uses the reply
  whenever it is a non-empty string, and only then strips it
  (src/ai_enhancer.py:91-93). A whitespace-only reply is non-empty, so it
  becomes the empty narrative (`AiEnhancer.BlankAnswerEmptiesNarrative`). An
  empty or missing reply falls back to the stripped draft.

## Model

| member | source | states |
|---|---|---|
| TemplateSelection.FlagText | src/narrative_generator.py:50-52 | An absent or falsy flag reads as the empty string, and a text flag is upper-cased. The read fails exactly for a truthy non-text flag, such as a non-zero number, where `.upper()` raises `AttributeError`. |
| TemplateSelection.FlagNormalisation | src/narrative_generator.py:50-52 | A lower-case `"y"` counts as `"Y"`, and a missing key counts as the empty flag. |
| TemplateSelection.SelectTemplate | src/narrative_generator.py:47-106 | Whatever the cascade returns is one of the configured templates, never a falsy entry. |
| TemplateSelection.CascadeIsFirstConfigured | src/narrative_generator.py:54-99 | The cascade returns the first configured key from a fixed candidate list. For a serious hospitalised event the list is hospitalization, generic, hospitalization, non-serious. For any other serious event it is medically-important, generic, hospitalization, non-serious. For everything else it is only the non-serious key. |
| TemplateSelection.NoTemplateExactly | src/narrative_generator.py:101-106 | Selection fails if and only if no candidate key for the flags is configured. |
| TemplateSelection.HospitalizationFirst | src/narrative_generator.py:54-59 | A serious, hospitalised event gets the hospitalization template whenever it is configured. |
| TemplateSelection.MedicallyImportantWithoutHospitalization | src/narrative_generator.py:61-75 | A serious event without hospitalization gets the medically-important template whenever it is configured, whatever its medically-important flag says. |
| TemplateSelection.NonSeriousOnly | src/narrative_generator.py:89-106 | An event not flagged serious gets the non-serious template, or an error when it is missing. No SAE template is ever used for it. |
| TemplateFill.RenderValue | src/narrative_generator.py:110-117 | A value renders as the marker exactly when it is `None`, `""`, `"nan"`, `"NaN"` or the marker itself. Any other value renders as its `str()`. |
| TemplateFill.Substitution | src/narrative_generator.py:111-117 | A name with no field entry renders as the marker, as `_SafeDict.__missing__` does. A name with an entry renders its value. |
| TemplateFill.FillMeansExpected | src/narrative_generator.py:108-123 | Any template made of literal characters (braces doubled) and plain named fields fills without error. The result is the literal text with each field replaced by its substitution. |
| TemplateFill.SingleField | src/narrative_generator.py:247-249 | A template that is a single named field yields that field's substitution, including the marker for an unknown name. |
| TemplateFill.MalformedTemplates | src/narrative_generator.py:118-123 | A lone `}`, an unclosed `{` and an empty positional `{}` are errors, not text. |
| NarrativeAssembly.VariantKey | src/narrative_generator.py:183 | The with-end-date variation is chosen if and only if `end_date` is truthy. |
| NarrativeAssembly.TemplateText | src/narrative_generator.py:179-186 | The paragraph text is the base pattern, or the base pattern plus a space plus the chosen variation. It differs from the base pattern if and only if that variation exists and is non-empty. |
| NarrativeAssembly.VariantFollowsEndDate | src/narrative_generator.py:180-186 | With both variations configured, an ended event uses the with-end-date text and any other event uses the without-end-date text. |
| NarrativeAssembly.GenerateParagraph | src/narrative_generator.py:176-188 | A paragraph fails if and only if filling its chosen text fails, and then with the same error. On success the paragraph is the business rules applied to that filling. |
| NarrativeAssembly.ParagraphMeansRewrittenFilling | src/narrative_generator.py:176-188 | Whenever the chosen text, with or without a variation, is made of literals and plain named fields, the paragraph is the business rules applied to the reference filling of that text. |
| NarrativeAssembly.VariationMeansRewrittenFilling | src/narrative_generator.py:179-188 | When the variation for the event's end date is configured and non-empty, the paragraph is the business rules applied to the filled base, a space, and the filled variation. |
| NarrativeAssembly.ParagraphAvoidsLastDose | src/narrative_generator.py:187-188 | No generated paragraph contains "last dose" as a whole word, in any letter case. |
| NarrativeAssembly.SortByNumber | src/narrative_generator.py:195 | The paragraphs are ordered by number, and the result is a permutation of the input. |
| NarrativeAssembly.SortIsStable | src/narrative_generator.py:195 | Paragraphs with equal numbers keep their configured order, as Python's stable `sorted` does. |
| NarrativeAssembly.RenderParagraphs | src/narrative_generator.py:194-203 | The loop succeeds if and only if every paragraph fills. The i-th result is then the i-th generated paragraph. |
| NarrativeAssembly.FirstFailureReported | src/narrative_generator.py:194-197 | When the loop fails, its error is the fill error of the first failing paragraph, unchanged. All earlier paragraphs succeeded. The paragraph number carried next to the error is an annotation of the model. |
| NarrativeAssembly.NarrativeLayout | src/narrative_generator.py:194-204 | Without an enhancer, the narrative exists if and only if every paragraph fills, in number order. It is then the generated paragraphs joined by a blank line. |
| NarrativeAssembly.GenerateNarrative | src/narrative_generator.py:190-216 | A narrative is produced if and only if a template is selected for the event and every paragraph of that template, in number order, fills with the fields resolved from the same rows. A failure is a selection failure exactly when no template is selected, and then carries the cascade's error. With a template selected, the result is that template composed with those fields. |
| NarrativeAssembly.NarrativeAvoidsLastDose | src/narrative_generator.py:190-204 | No narrative produced without an enhancer contains "last dose" as a whole word. |
| NarrativeAssembly.FailedClientKeepsBaseline | src/narrative_generator.py:205-215 | An enhancer whose call raises gives the same result as no enhancer. |
| NarrativeAssembly.ClientReplyOnly | src/narrative_generator.py:205-215 | The enhancer sees only a draft that was built successfully. Its output replaces the draft and nothing else changes. |
| NarrativeAssembly.EmptyReplyStripsBaseline | src/ai_enhancer.py:91-93 | An answer with no content yields the stripped draft. |
| NarrativeAssembly.ReplyReplacesNarrative | src/ai_enhancer.py:91-93 | A non-empty answer replaces a successful draft with the stripped answer, and leaves a failure a failure. |
| AiEnhancer.FallbacksAgreeUpToWhitespace | src/ai_enhancer.py:83-100 | A missing or empty answer gives the stripped draft, while a raised call gives the draft untouched. The two differ only by surrounding whitespace. |
| AiEnhancer.TrimmedBaselineSurvivesFallback | src/ai_enhancer.py:91-100 | A draft without surrounding whitespace comes back unchanged from every fallback path. |
| AiEnhancer.AnswerIsTrimmed | src/ai_enhancer.py:91-93 | An answered call's result never starts or ends with whitespace. |
| AiEnhancer.BlankAnswerEmptiesNarrative | src/ai_enhancer.py:91-93 | Any non-empty answer made only of whitespace becomes the empty narrative, whatever the draft. |
| AiEnhancer.ExtractCategory | src/ai_enhancer.py:222-224 | A key is kept if and only if it is in the data, listed, and not `None`. Kept keys keep their values. |
| AiEnhancer.ExtractCategoryIdempotent | src/ai_enhancer.py:222-224 | Extracting a category twice is the same as extracting it once. |
| AiEnhancer.FalsyButPresentKept | src/ai_enhancer.py:224 | An empty string or zero is kept, because only `None` is dropped. |
| AiEnhancer.FormatDict | src/ai_enhancer.py:227-232 | Empty data gives the no-data line. Otherwise the result is one `  - key: value` line per key, in sorted key order, joined by newlines. |
| AiEnhancer.KeyOrderUnique | src/ai_enhancer.py:231 | There is exactly one sorted listing of a dictionary's keys, so the layout is determined by the data. |
| AiEnhancer.TwoEntryListing | src/ai_enhancer.py:231-232 | Two entries are listed with the smaller key first. |
| Text.StripShape | src/ai_enhancer.py:93 | `strip()` returns a contiguous piece of its input. Everything removed is whitespace, and the result neither starts nor ends with whitespace. |
| Text.StripIdempotent | src/ai_enhancer.py:93 | Stripping twice is stripping once. |
| Text.TrimmedIsFixed | src/ai_enhancer.py:93 | `strip()` leaves a string unchanged if and only if it neither starts nor ends with whitespace. |
| FieldMapper.ApplyValueMapping | src/field_mapper.py:78-89 | `None`, or an empty map, passes the value through. The result is the value or one of the map's values. A truthy entry under the upper-cased text wins. Failing that, a non-`None` entry under the raw value is used. When that is absent or `None` too, the value is unchanged. |
| FieldMapper.RawKeyFallback | src/field_mapper.py:85 | A string whose upper-cased key is absent or falsy maps through its own, raw key when that entry is not `None`. |
| FieldMapper.RawKeyExamples | src/field_mapper.py:85-89 | With only `"Male"` configured, `"Male"` maps through it. An empty `"MALE"` entry is skipped in favour of `"Male"`. |
| FieldMapper.MappingIgnoresCase | src/field_mapper.py:85 | Two spellings that agree after upper-casing map to the same configured value. |
| FieldMapper.MappingExample | src/field_mapper.py:78-89 | With the map `{"MALE": "male"}`, both `"MALE"` and `"Male"` become `"male"`. |
| FieldMapper.FormatField | src/field_mapper.py:91-104 | `None` stays `None`, and a non-date field is unchanged. A date field holding a parsable date becomes its `DD-Mon-YYYY` text, and any other date value is unchanged. |
| FieldMapper.FormatFieldIdempotent | src/field_mapper.py:91-104 | Formatting an already formatted value changes nothing. |
| FieldMapper.ParseDateReadsBoth | src/field_mapper.py:168-180 | Both accepted spellings of a valid date, ISO and `DD-Mon-YYYY`, parse back to that date. |
| FieldMapper.DateFieldExample | src/field_mapper.py:95-103 | A date field holding `"2023-12-20"` becomes `"20-Dec-2023"`. |
| FieldMapper.MissingCellIsNull | src/field_mapper.py:115-133 | A missing row, or a row without the column, resolves to `None` rather than failing. |
| FieldMapper.MapAllFields | src/field_mapper.py:128-144 | Every configured field name gets an entry, and every entry belongs to a configured field. |
| FieldMapper.LastEntryWins | src/field_mapper.py:129-136 | When several fields share a name, the map holds the value of the last one, resolved from its own table and column. |
| DateFacts.IsoRoundTrip | src/field_mapper.py:172-174 | Every valid date's ISO text parses back to that date under `%Y-%m-%d`. |
| DateFacts.DmyRoundTrip | src/field_mapper.py:176-178 | Every valid date's `DD-Mon-YYYY` text parses back to that date under `%d-%b-%Y`. |
| DateFacts.FormattedIsNotIso | src/field_mapper.py:172-178 | A formatted date never parses as ISO, so `_parse_date` reads it through its second format. |
| DateFacts.IsoTokenParse | src/narrative_generator.py:131-137 | An ISO-shaped token parses if and only if its numbers form a real date, and that date's ISO text is the token again. |
| DateFacts.FormatExample | src/narrative_generator.py:135 | 20 December 2023 is written `20-Dec-2023`. |
| DateFacts.ParseExample | src/narrative_generator.py:134 | `2023-12-20` parses to 20 December 2023. |
| DateFacts.NoThirteenthMonth | src/narrative_generator.py:133-137 | `2023-13-01` does not parse, so the date rule keeps it as written. |
| DateFacts.NoThirtiethOfFebruary | src/narrative_generator.py:133-137 | `2023-02-30` does not parse, because the calendar check rejects it. |
| DoseRules.FirstRuleRemovesLastDose | src/narrative_generator.py:127-128 | After the first rule, no whole-word "last dose" is left in any letter case. |
| DoseRules.LaterRuleKeepsOut | src/narrative_generator.py:130-172 | No later rule brings a whole-word "last dose" back. |
| DoseRules.NoLastDoseAfterRules | src/narrative_generator.py:125-174 | The output of the whole rule list never contains "last dose" as a whole word. |
| RuleFacts.CaseRulesOnlyLowercase | src/narrative_generator.py:141-172 | The clause, ethnicity and "SAE of" rules change nothing but the case of letters, and only from upper to lower. |
| RuleSites.IsoTokenInText | src/narrative_generator.py:130-139 | An ISO-shaped token with `\b` on both sides, anywhere in a text, is replaced by what `_date_repl` makes of it. The text before it and the text after it are rewritten exactly as they would be on their own. |
| RuleSites.IsoTokenRewritten | src/narrative_generator.py:130-139 | The ISO text of any valid date, standing as a word anywhere in a text, is replaced by its `DD-Mon-YYYY` text. The text around it is rewritten on its own. |
| RuleSites.InvalidIsoTokenKept | src/narrative_generator.py:133-137 | An ISO-shaped token that is not a real date, standing as a word anywhere in a text, is kept as written. The text around it is rewritten on its own. |
| RuleExamples.FormattedDateKept | src/narrative_generator.py:139 | A date already in `DD-Mon-YYYY` form is untouched by the date rule. |
| RuleExamples.ClauseLowered | src/narrative_generator.py:141-155 | At the trigger, written in any letter case, the trigger is kept as written and the clause after it is lower-cased up to the next full stop. The full stop is kept and the text after it is rewritten on its own. |
| RuleExamples.ClauseToEnd | src/narrative_generator.py:141-155 | A clause with no full stop after the trigger is lower-cased to the end of the text. |
| RuleExamples.ClausePrefixCopied | src/narrative_generator.py:141-155 | Text before the first occurrence of the trigger is copied unchanged, and the rest is rewritten on its own. |
| RuleExamples.ClauseTriggers | src/narrative_generator.py:141-155 | Rules 3 and 4 are the clause rule for the action-taken and the causality trigger, and neither trigger starts with a full stop. |
| RuleSites.AgeRewritten | src/narrative_generator.py:157-158 | Anywhere in a text not preceded by a digit, a run of digits followed by `-YEARS-old` in any letter case becomes the same digits followed by `-year-old`. The text before and after is rewritten on its own. |
| RuleSites.SaeOfLowered | src/narrative_generator.py:167-172 | At the first "SAE of " in a text, a capital letter right after it is lower-cased. Everything before it is unchanged, and the text after the letter is rewritten on its own. |
| RuleSites.RaceFixInText | src/narrative_generator.py:160-165 | Each of the five race and ethnicity values, standing as a word group anywhere in a text, is replaced by its mixed-case spelling. The text before and after it is rewritten on its own. |
| RuleSites.WholeWordInText | src/narrative_generator.py:160-165 | A case-sensitive `\b...\b` pattern whose words after the first do not start with its first character is replaced wherever it stands as a word group. The text around it is rewritten on its own. |
| RuleFacts.SiteRewrite | src/narrative_generator.py:125-172 | When a match replaces `x` in `pre + x + post`, and `pre` and `post` match as they do alone, `re.sub` gives the rewrite of `pre`, the replacement, and the rewrite of `post`. |
| RuleExamples.PlainUntouched | src/narrative_generator.py:125-174 | Text made only of digits, `-` and `Dec` is changed by no rule except the date rule. |
| RuleExamples.RulesNotIdempotent | src/narrative_generator.py:125-174 | Applying the rules twice to `2023-12-05-12-02` gives a different text than applying them once. |
| RuleExamples.EthnicityOrder | src/narrative_generator.py:164-165 | Because the longer ethnicity value is fixed first, `NOT HISPANIC OR LATINO` becomes `Not Hispanic or Latino`. In the opposite order its `NOT` would stay upper-case. |

## Left out

- Database access is not modelled. The subject, event and treatment rows are a parameter (`Rows`). This covers `get_subject_data`, `get_treatment_data`, `get_event_data`, `_fetch_one`, the loader and the schema script. `generate_narrative` reads the event row twice, and the model reads it once, assuming both reads agree.
- JSON and text configuration loading is not modelled. The field configuration, the templates and the style guide are parameters.
- The language-model client is not modelled, and neither are the prompt builders or client construction. What the call did is a free parameter (`ClientReply`), so the prompt is not built.
- Logging, `save_to_database`, the command-line entry points and the web app are outside the core.
- `\w`, `\d`, `IGNORECASE`, `upper()` and `lower()` are ASCII only. Python's Unicode classes and special case mappings (such as `ß` to `SS`) are not modelled.
- Dates.FormatDmy: month abbreviations are the English ones of the C locale. `strftime("%b")` and `strptime("%b")` follow the process locale.
- NarrativeAssembly.RenderParagraphs: a failure carries the paragraph's number next to the fill error. Python re-raises the `vformat` error unchanged and names no paragraph.
- Dates.FormatDmy: years below 1000 are always written with four digits. `strftime("%Y")` is platform-dependent there.
- FieldMapper.ParseDate: `datetime` objects are not a `Value`, so the `isinstance(value, datetime)` branch is not modelled. SQLite rows deliver dates as text.
- Float values, including a float NaN, are not a `Value`. The missing-value check covers the strings `"nan"` and `"NaN"` only.
- TemplateFill.Fill does not implement `str.format`'s conversions, format specs, attribute or index access, or nested fields. It reports these as `UnsupportedField` rather than formatting them. An empty or numeric field name is reported as `PositionalField`, the `IndexError` Python raises with no positional arguments.
- Missing `template_id`, `paragraphs`, `template`, `number`, `name`, `db_table` or `db_column` keys, which raise `KeyError`, cannot be expressed: the datatypes always carry these fields.
- Paragraph numbers are integers. Mixed types that `sorted` cannot compare are not modelled.
- AiEnhancer.Enhance: its own contract only restates the choice of answer. The properties are stated by the fallback lemmas listed above.
