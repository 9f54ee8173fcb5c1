/**
 * Field resolution: per configured field, read the raw cell from one of the
 * three source rows, rewrite it through the field's categorical value map, then
 * format it (dates only), and collect the results under the field names.
 */
module FieldMapper {
  import opened Wrappers
  import opened Text
  import opened Values
  import opened Dates
  import DateFacts

  /**
   * One entry of a section's "fields" list: the canonical name, the source
   * table and column, the optional "value_map" (empty when absent) and the
   * optional "format".
   */
  datatype FieldSpec = FieldSpec(
    name: string,
    table: string,
    column: string,
    valueMap: map<string, Value>,
    format: Option<string>)

  /** The field-mapping configuration: its sections in order, each a list of fields. */
  type Config = seq<seq<FieldSpec>>

  /** The subject, adverse-event and treatment rows of one request; `None` when not found. */
  datatype Rows = Rows(subject: Option<Row>, event: Option<Row>, treatment: Option<Row>)

  /** The key of the first lookup: `str(value).upper()`. */
  function UpperKey(v: Value): string {
    UpperStr(ToStr(v))
  }

  /** `value_map.get(key)` as an optional entry (a JSON `null` entry reads as `Some(Null)`). */
  function Lookup(valueMap: map<string, Value>, key: string): Option<Value> {
    if key in valueMap then Some(valueMap[key]) else None
  }

  /** `value_map.get(value)`: only a string value can equal a JSON object key. */
  function RawLookup(valueMap: map<string, Value>, v: Value): Option<Value> {
    if v.Str? then Lookup(valueMap, v.text) else None
  }

  /** The upper-cased key has a truthy entry, so `or` stops at the first lookup. */
  predicate UpperHit(spec: FieldSpec, v: Value) {
    UpperKey(v) in spec.valueMap && Truthy(spec.valueMap[UpperKey(v)])
  }

  /**
   * `apply_value_mapping`. The upper-cased key is tried first; Python's `or`
   * falls through to the raw key when the first lookup is missing or falsy,
   * and a final `None` means "no mapping", so the value passes through.
   */
  function ApplyValueMapping(spec: FieldSpec, v: Value): (r: Value)
    ensures v == Null || |spec.valueMap| == 0 ==> r == v
    ensures r == v || r in spec.valueMap.Values
    ensures v != Null && UpperKey(v) in spec.valueMap && Truthy(spec.valueMap[UpperKey(v)])
      ==> r == spec.valueMap[UpperKey(v)]
    ensures v != Null && !UpperHit(spec, v) && v.Str? && v.text in spec.valueMap && spec.valueMap[v.text] != Null
      ==> r == spec.valueMap[v.text]
    ensures v != Null && !UpperHit(spec, v) && (RawLookup(spec.valueMap, v).None? || RawLookup(spec.valueMap, v) == Some(Null))
      ==> r == v
  {
    if v == Null || |spec.valueMap| == 0 then v
    else
      var first := Lookup(spec.valueMap, UpperKey(v));
      var mapped := if first.Some? && Truthy(first.value) then first else RawLookup(spec.valueMap, v);
      if mapped.None? || mapped.value == Null then v else mapped.value
  }

  /** `_parse_date`: `%Y-%m-%d` first, then `%d-%b-%Y`; a non-string raises `TypeError`, read as no date. */
  function ParseDate(v: Value): (r: Option<Date>)
    ensures r.Some? ==> v.Str? && ValidDate(r.value)
  {
    match v
    case Str(s) => if ParseYmd(s).Some? then ParseYmd(s) else ParseDmy(s)
    case _ => None
  }

  /**
   * When the upper-cased key is missing or maps to a falsy value, the value's
   * own spelling is looked up, and a non-`None` entry there is the result.
   */
  lemma RawKeyFallback(spec: FieldSpec, s: string)
    requires UpperStr(s) !in spec.valueMap || !Truthy(spec.valueMap[UpperStr(s)])
    requires s in spec.valueMap && spec.valueMap[s] != Null
    ensures ApplyValueMapping(spec, Str(s)) == spec.valueMap[s]
  {
    assert UpperKey(Str(s)) == UpperStr(s);
  }

  /** Two examples: a mixed-case key reached only through the raw lookup, and a falsy upper-case entry passed over. */
  lemma RawKeyExamples()
    ensures ApplyValueMapping(FieldSpec("sex", "subjects", "sex", map["Male" := Str("m")], None), Str("Male")) == Str("m")
    ensures ApplyValueMapping(FieldSpec("sex", "subjects", "sex", map["MALE" := Str(""), "Male" := Str("x")], None), Str("Male"))
      == Str("x")
  {
    assert UpperStr("Male") == "MALE";
    RawKeyFallback(FieldSpec("sex", "subjects", "sex", map["Male" := Str("m")], None), "Male");
    RawKeyFallback(FieldSpec("sex", "subjects", "sex", map["MALE" := Str(""), "Male" := Str("x")], None), "Male");
  }

  /** Both spellings `_parse_date` accepts read back the date that wrote them. */
  lemma ParseDateReadsBoth(d: Date)
    requires ValidDate(d)
    ensures ParseDate(Str(IsoText(d))) == Some(d)
    ensures ParseDate(Str(FormatDmy(d))) == Some(d)
  {
    DateFacts.IsoRoundTrip(d);
    DateFacts.FormattedIsNotIso(d);
    DateFacts.DmyRoundTrip(d);
  }

  /** `format_field`. */
  function FormatField(spec: FieldSpec, v: Value): (r: Value)
    ensures v == Null ==> r == Null
    ensures spec.format != Some("date") ==> r == v
    ensures v != Null && spec.format == Some("date") ==>
      (if ParseDate(v).Some? then r == Str(FormatDmy(ParseDate(v).value)) else r == v)
  {
    if v == Null then Null
    else if spec.format == Some("date") then
      match ParseDate(v)
      case Some(d) => Str(FormatDmy(d))
      case None => v
    else v
  }

  /** `data_sources.get(table, {})` where each missing row is `{}`. */
  function SourceRow(rows: Rows, table: string): Row {
    if table == "subjects" then rows.subject.GetOr(map[])
    else if table == "adverse_events" then rows.event.GetOr(map[])
    else if table == "treatment_exposure" then rows.treatment.GetOr(map[])
    else map[]
  }

  /** The value `map_all_fields` stores for one field: mapping first, then formatting. */
  function ResolveField(spec: FieldSpec, rows: Rows): Value {
    FormatField(spec, ApplyValueMapping(spec, Get(SourceRow(rows, spec.table), spec.column)))
  }

  /** All fields of all sections, in configuration order. */
  function Flatten(config: Config): (specs: seq<FieldSpec>)
    ensures forall sec, f :: sec in config && f in sec ==> f in specs
    ensures forall f :: f in specs ==> exists sec :: sec in config && f in sec
  {
    if |config| == 0 then [] else config[0] + Flatten(config[1..])
  }

  /** No later entry of `specs` shares the name of entry `i`. */
  predicate LastWithName(specs: seq<FieldSpec>, i: int)
    requires 0 <= i < |specs|
  {
    forall j :: i < j < |specs| ==> specs[j].name != specs[i].name
  }

  /** The names `specs` assigns. */
  function Names(specs: seq<FieldSpec>): set<string> {
    set i | 0 <= i < |specs| :: specs[i].name
  }

  /** The value each entry of `specs` resolves to, in order. */
  function Resolved(specs: seq<FieldSpec>, rows: Rows): (vs: seq<Value>)
    ensures |vs| == |specs|
    ensures forall i :: 0 <= i < |specs| ==> vs[i] == ResolveField(specs[i], rows)
  {
    seq(|specs|, i requires 0 <= i < |specs| => ResolveField(specs[i], rows))
  }

  /** The assignments `mapped_fields[name] = value`, in configuration order. */
  function Assign(specs: seq<FieldSpec>, values: seq<Value>): (r: Row)
    requires |values| == |specs|
    ensures r.Keys == Names(specs)
    decreases |specs|
  {
    if |specs| == 0 then map[]
    else
      var n := |specs| - 1;
      var prior := Assign(specs[..n], values[..n]);
      assert Names(specs) == Names(specs[..n]) + {specs[n].name} by {
        assert forall i :: 0 <= i < n ==> specs[..n][i] == specs[i];
        forall x | x in Names(specs) ensures x in Names(specs[..n]) + {specs[n].name} {
          var i :| 0 <= i < |specs| && specs[i].name == x;
          if i < n {
            assert specs[..n][i].name == x;
          }
        }
      }
      prior[specs[n].name := values[n]]
  }

  /** A later assignment to the same name overwrites an earlier one. */
  lemma {:induction false} LastAssignmentWins(specs: seq<FieldSpec>, values: seq<Value>, i: int)
    requires |values| == |specs| && 0 <= i < |specs| && LastWithName(specs, i)
    ensures specs[i].name in Assign(specs, values)
    ensures Assign(specs, values)[specs[i].name] == values[i]
    decreases |specs|
  {
    var n := |specs| - 1;
    if i < n {
      var init := specs[..n];
      assert init[i] == specs[i] && values[..n][i] == values[i];
      assert LastWithName(init, i) by {
        forall j | i < j < n ensures init[j].name != init[i].name {
          assert init[j] == specs[j];
        }
      }
      LastAssignmentWins(init, values[..n], i);
      assert specs[n].name != specs[i].name;
    }
  }

  /** Every configured field resolved and stored under its name. */
  function MapFields(specs: seq<FieldSpec>, rows: Rows): (r: Row)
    ensures r.Keys == Names(specs)
  {
    Assign(specs, Resolved(specs, rows))
  }

  /** A later entry with the same name overwrites an earlier one: each name holds its last entry's value. */
  lemma LastEntryWins(specs: seq<FieldSpec>, rows: Rows, i: int)
    requires 0 <= i < |specs| && LastWithName(specs, i)
    ensures specs[i].name in MapFields(specs, rows)
    ensures MapFields(specs, rows)[specs[i].name] == ResolveField(specs[i], rows)
  {
    LastAssignmentWins(specs, Resolved(specs, rows), i);
  }

  /** `map_all_fields` over rows already fetched. */
  function MapAllFields(config: Config, rows: Rows): (r: Row)
    ensures forall sec, f :: sec in config && f in sec ==> f.name in r
    ensures forall name :: name in r ==> exists sec, f :: sec in config && f in sec && f.name == name
  {
    var specs := Flatten(config);
    var r := MapFields(specs, rows);
    assert forall f :: f in specs ==> f.name in r by {
      forall f | f in specs ensures f.name in r {
        var i :| 0 <= i < |specs| && specs[i] == f;
      }
    }
    assert forall name :: name in r ==> exists sec, f :: sec in config && f in sec && f.name == name by {
      forall name | name in r ensures exists sec, f :: sec in config && f in sec && f.name == name {
        var i :| 0 <= i < |specs| && specs[i].name == name;
        assert specs[i] in specs;
      }
    }
    r
  }

  /** A missing row, or a row without the column, resolves to `None` rather than failing. */
  lemma MissingCellIsNull(spec: FieldSpec, rows: Rows)
    requires spec.column !in SourceRow(rows, spec.table)
    ensures ResolveField(spec, rows) == Null
  {
  }

  /** Upper-case spelling variants of a string map alike when the upper-cased key is mapped. */
  lemma MappingIgnoresCase(spec: FieldSpec, a: string, b: string)
    requires UpperStr(a) == UpperStr(b)
    requires UpperStr(a) in spec.valueMap && Truthy(spec.valueMap[UpperStr(a)])
    ensures ApplyValueMapping(spec, Str(a)) == ApplyValueMapping(spec, Str(b)) == spec.valueMap[UpperStr(a)]
  {
    assert UpperKey(Str(a)) == UpperStr(a) && UpperKey(Str(b)) == UpperStr(b);
  }

  /** Formatting an already formatted value changes nothing: `DD-Mon-YYYY` re-renders to itself. */
  lemma FormatFieldIdempotent(spec: FieldSpec, v: Value)
    ensures FormatField(spec, FormatField(spec, v)) == FormatField(spec, v)
  {
    if v != Null && spec.format == Some("date") && ParseDate(v).Some? {
      var d := ParseDate(v).value;
      DateFacts.FormattedIsNotIso(d);
      DateFacts.DmyRoundTrip(d);
      assert ParseDate(Str(FormatDmy(d))) == Some(d);
    }
  }

  const SexField := FieldSpec("sex", "subjects", "sex", map["MALE" := Str("male")], None)
  const FirstDoseField := FieldSpec("first_dose_date", "treatment_exposure", "first_dose_date", map[], Some("date"))

  /** Worked case from the field-mapping tests: sex "MALE", in any spelling, maps to "male". */
  lemma MappingExample()
    ensures ApplyValueMapping(SexField, Str("MALE")) == Str("male")
    ensures ApplyValueMapping(SexField, Str("Male")) == Str("male")
  {
    assert UpperStr("MALE") == "MALE";
    assert UpperStr("Male") == "MALE";
  }

  /** Worked case from the field-mapping tests: a date column is reformatted. */
  lemma DateFieldExample()
    ensures FormatField(FirstDoseField, Str("2023-12-20")) == Str("20-Dec-2023")
  {
    DateFacts.FormatExample();
    DateFacts.ParseExample();
    assert ParseDate(Str("2023-12-20")) == Some(Date(2023, 12, 20));
  }
}
