/**
 * Placeholder filling: Python's `str.format` over plain `{name}` fields and
 * the `{{` / `}}` escapes, against a field map in which every missing value
 * (and every missing key) renders as a visible marker.
 */
module TemplateFill {
  import opened Wrappers
  import opened Text
  import opened Values

  const NotAvailable := "[NOT AVAILABLE]"

  /** The values `fill_template` treats as missing data. */
  predicate MissingValue(v: Value) {
    v == Null || v == Str("") || v == Str("nan") || v == Str("NaN")
  }

  /** How one field value is written into the text. */
  function RenderValue(v: Value): (r: string)
    ensures r == NotAvailable <==> MissingValue(v) || v == Str(NotAvailable)
    ensures !MissingValue(v) ==> r == ToStr(v)
  {
    if MissingValue(v) then NotAvailable
    else
      assert v.Int? ==> ToStr(v) != NotAvailable by {
        if v.Int? {
          var t := ToStr(v);
          assert t[|t| - 1] != ']';
        }
      }
      ToStr(v)
  }

  /** The lookup through `_SafeDict`: a key with no entry renders as the marker too. */
  function Substitution(fields: Row, name: string): (r: string)
    ensures name !in fields ==> r == NotAvailable
    ensures name in fields ==> r == RenderValue(fields[name])
  {
    if name in fields then RenderValue(fields[name]) else NotAvailable
  }

  /** The `ValueError` / `IndexError` cases of `Formatter.vformat`, which `fill_template` lets propagate. */
  datatype FillError =
    | SingleCloseBrace
    | UnclosedField
    | PositionalField(name: string)
    | UnsupportedField(name: string)

  /** The index of the first brace at or after `p`, or `|t|` if there is none. */
  function NextBrace(t: string, p: nat): (r: nat)
    requires p <= |t|
    ensures p <= r <= |t|
    ensures r < |t| ==> t[r] == '{' || t[r] == '}'
    ensures forall k :: p <= k < r ==> t[k] != '{' && t[k] != '}'
    decreases |t| - p
  {
    if p == |t| || t[p] == '{' || t[p] == '}' then p else NextBrace(t, p + 1)
  }

  /** Characters that start an attribute, index, conversion or format spec inside a field. */
  predicate IsFieldSyntax(c: char) {
    c == '.' || c == '[' || c == '!' || c == ':'
  }

  /** A field name looked up as a key: non-empty, not numeric, no braces and no field syntax. */
  predicate PlainName(n: string) {
    && n != ""
    && !AllDigits(n)
    && forall k :: 0 <= k < |n| ==> n[k] != '{' && n[k] != '}' && !IsFieldSyntax(n[k])
  }

  function Prepend(head: string, rest: Result<string, FillError>): (r: Result<string, FillError>)
    ensures rest.Success? ==> r == Success(head + rest.value)
    ensures rest.Failure? ==> r == rest
  {
    match rest
    case Success(s) => Success(head + s)
    case Failure(e) => Failure(e)
  }

  /** `Formatter().vformat(text, (), _SafeDict(...))`. */
  function Fill(t: string, fields: Row): Result<string, FillError>
    decreases |t|
  {
    if |t| == 0 then Success("")
    else if t[0] == '{' then
      if |t| > 1 && t[1] == '{' then Prepend("{", Fill(t[2..], fields))
      else
        var j := NextBrace(t, 1);
        var name := t[1..j];
        if j == |t| then Failure(UnclosedField)
        else if t[j] == '{' then Failure(UnsupportedField(name))
        else if name == "" || AllDigits(name) then Failure(PositionalField(name))
        else if exists k :: 0 <= k < |name| && IsFieldSyntax(name[k]) then Failure(UnsupportedField(name))
        else Prepend(Substitution(fields, name), Fill(t[j + 1..], fields))
    else if t[0] == '}' then
      if |t| > 1 && t[1] == '}' then Prepend("}", Fill(t[2..], fields))
      else Failure(SingleCloseBrace)
    else Prepend([t[0]], Fill(t[1..], fields))
  }

  /** A template read as pieces: a literal character or a named field. */
  datatype Piece = Lit(c: char) | Field(name: string)

  predicate PlainPieces(ps: seq<Piece>) {
    forall i :: 0 <= i < |ps| ==> ps[i].Field? ==> PlainName(ps[i].name)
  }

  /** The template text that spells the pieces, doubling literal braces. */
  function Encode(ps: seq<Piece>): string {
    if |ps| == 0 then ""
    else
      var head := match ps[0]
        case Lit(c) => if c == '{' || c == '}' then [c, c] else [c]
        case Field(n) => "{" + n + "}";
      head + Encode(ps[1..])
  }

  /** Reference meaning of a template: literals as written, each field by its substitution. */
  function Expected(ps: seq<Piece>, fields: Row): string {
    if |ps| == 0 then ""
    else
      var head := match ps[0]
        case Lit(c) => [c]
        case Field(n) => Substitution(fields, n);
      head + Expected(ps[1..], fields)
  }

  /** Filling the text of any plain template yields its reference meaning, and never fails. */
  lemma {:induction false} FillMeansExpected(ps: seq<Piece>, fields: Row)
    requires PlainPieces(ps)
    ensures Fill(Encode(ps), fields) == Success(Expected(ps, fields))
    decreases |ps|
  {
    if |ps| > 0 {
      var rest := Encode(ps[1..]);
      assert PlainPieces(ps[1..]) by {
        forall i | 0 <= i < |ps[1..]| && ps[1..][i].Field? ensures PlainName(ps[1..][i].name) {
          assert ps[1..][i] == ps[i + 1];
        }
      }
      FillMeansExpected(ps[1..], fields);
      match ps[0]
      case Lit(c) =>
        assert Encode(ps) == (if c == '{' || c == '}' then [c, c] else [c]) + rest;
        assert Expected(ps, fields) == [c] + Expected(ps[1..], fields);
        FillLiteral(c, rest, fields);
      case Field(n) =>
        assert PlainName(n) by { assert ps[0].Field?; }
        assert Encode(ps) == "{" + n + "}" + rest;
        assert Expected(ps, fields) == Substitution(fields, n) + Expected(ps[1..], fields);
        FillPlainField(n, rest, fields);
    }
  }

  /** Spelling two piece lists one after the other spells their concatenation. */
  lemma {:induction false} EncodeConcat(a: seq<Piece>, b: seq<Piece>)
    ensures Encode(a + b) == Encode(a) + Encode(b)
    decreases |a|
  {
    if |a| == 0 {
      assert a + b == b;
    } else {
      assert (a + b)[1..] == a[1..] + b;
      EncodeConcat(a[1..], b);
    }
  }

  /** The reference meaning of a concatenation is the concatenation of the meanings. */
  lemma {:induction false} ExpectedConcat(a: seq<Piece>, b: seq<Piece>, fields: Row)
    ensures Expected(a + b, fields) == Expected(a, fields) + Expected(b, fields)
    decreases |a|
  {
    if |a| == 0 {
      assert a + b == b;
    } else {
      assert (a + b)[1..] == a[1..] + b;
      ExpectedConcat(a[1..], b, fields);
    }
  }

  /** Joining two plain piece lists around a literal keeps them plain. */
  lemma PlainAround(a: seq<Piece>, c: char, b: seq<Piece>)
    requires PlainPieces(a) && PlainPieces(b)
    ensures PlainPieces(a + [Lit(c)] + b)
  {
    var ps := a + [Lit(c)] + b;
    forall i | 0 <= i < |ps| && ps[i].Field? ensures PlainName(ps[i].name) {
      if i < |a| {
        assert ps[i] == a[i];
      } else if i > |a| {
        assert ps[i] == b[i - |a| - 1];
      }
    }
  }

  /** A literal character, its brace doubled, is copied in front of the rest's filling. */
  lemma FillLiteral(c: char, rest: string, fields: Row)
    ensures Fill((if c == '{' || c == '}' then [c, c] else [c]) + rest, fields) == Prepend([c], Fill(rest, fields))
  {
    if c == '{' || c == '}' {
      var t := [c, c] + rest;
      assert t[2..] == rest;
    } else {
      var t := [c] + rest;
      assert t[1..] == rest;
    }
  }

  /** A plain field is replaced by its substitution in front of the rest's filling. */
  lemma FillPlainField(n: string, rest: string, fields: Row)
    requires PlainName(n)
    ensures Fill("{" + n + "}" + rest, fields) == Prepend(Substitution(fields, n), Fill(rest, fields))
  {
    var t := "{" + n + "}" + rest;
    assert t[0] == '{' && t[1] != '{' && t[1] != '}';
    var j := |n| + 1;
    assert t[j] == '}';
    assert forall k :: 1 <= k < j ==> t[k] == n[k - 1];
    NextBraceStops(t, 1, j);
    assert t[1..j] == n;
    assert !(exists k :: 0 <= k < |n| && IsFieldSyntax(n[k]));
    assert t[j + 1..] == rest;
  }

  lemma {:induction false} NextBraceStops(t: string, p: nat, j: nat)
    requires p <= j < |t| && (t[j] == '{' || t[j] == '}')
    requires forall k :: p <= k < j ==> t[k] != '{' && t[k] != '}'
    ensures NextBrace(t, p) == j
    decreases j - p
  {
    if p < j {
      NextBraceStops(t, p + 1, j);
    }
  }

  /** A lone field reads its value through the missing-data rules. */
  lemma SingleField(fields: Row, name: string)
    requires PlainName(name)
    ensures Fill("{" + name + "}", fields) == Success(Substitution(fields, name))
  {
    FillMeansExpected([Field(name)], fields);
    assert Encode([Field(name)]) == "{" + name + "}" by {
      assert [Field(name)][1..] == [];
    }
    assert Expected([Field(name)], fields) == Substitution(fields, name) by {
      assert [Field(name)][1..] == [];
    }
  }

  /** A stray closing brace or an unclosed field is an error, as in Python. */
  lemma MalformedTemplates(fields: Row)
    ensures Fill("}", fields) == Failure(SingleCloseBrace)
    ensures Fill("{age", fields) == Failure(UnclosedField)
    ensures Fill("{}", fields) == Failure(PositionalField(""))
  {
    assert NextBrace("{age", 1) == 4;
    assert NextBrace("{}", 1) == 1;
    assert "{}"[1..1] == "";
  }
}
