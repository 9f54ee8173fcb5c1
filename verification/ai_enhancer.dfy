/**
 * The parts of `OpenAINarrativeEnhancer` that do not depend on the model's
 * answer: the fallback contract of `enhance`, and the two helpers that lay
 * out the structured data in the prompt. The chat-completion call itself is
 * a parameter: `ClientReply` is what the client did.
 */
module AiEnhancer {
  import opened Wrappers
  import opened Text
  import opened Values

  /** What the chat-completion call did: raised, or answered with the first choice's content. */
  datatype ClientReply = Raised | Replied(content: Option<string>)

  /** `enhance`: the model's stripped answer, or the baseline when there is none. */
  function Enhance(reply: ClientReply, baseline: string): (r: string)
    ensures reply.Raised? ==> r == baseline
    ensures reply.Replied? ==> r == Strip(if reply.content.Some? && reply.content.value != "" then reply.content.value else baseline)
  {
    match reply
    case Raised => baseline
    case Replied(content) =>
      var text := if content.Some? && content.value != "" then content.value else baseline;
      Strip(text)
  }

  /**
   * A failed call hands back the baseline exactly as it was, while an empty
   * answer hands it back stripped: the two fallbacks differ only by
   * surrounding whitespace.
   */
  lemma FallbacksAgreeUpToWhitespace(baseline: string)
    ensures Enhance(Replied(None), baseline) == Enhance(Replied(Some("")), baseline) == Strip(baseline)
    ensures Enhance(Raised, baseline) == baseline
    ensures Strip(Enhance(Raised, baseline)) == Enhance(Replied(None), baseline)
  {
  }

  /** A baseline without surrounding whitespace comes back unchanged from every fallback. */
  lemma TrimmedBaselineSurvivesFallback(reply: ClientReply, baseline: string)
    requires Trimmed(baseline)
    requires reply.Raised? || reply.content.None? || reply.content.value == ""
    ensures Enhance(reply, baseline) == baseline
  {
    TrimmedIsFixed(baseline);
  }

  /** The answer is never whitespace-padded, whatever the model wrote. */
  lemma AnswerIsTrimmed(content: string, baseline: string)
    ensures Strip(Enhance(Replied(Some(content)), baseline)) == Enhance(Replied(Some(content)), baseline)
  {
    StripIdempotent(if content != "" then content else baseline);
  }

  /**
   * An answer of only whitespace is not empty, so it is taken, and
   * stripping it leaves the empty narrative rather than the baseline.
   */
  lemma BlankAnswerEmptiesNarrative(answer: string, baseline: string)
    requires answer != "" && forall k :: 0 <= k < |answer| ==> IsSpace(answer[k])
    ensures Enhance(Replied(Some(answer)), baseline) == ""
  {
    StripShape(answer);
  }

  /** `_extract_category`: the entries whose key is in the category and whose value is not `None`. */
  function ExtractCategory(data: Row, keys: seq<string>): (r: Row)
    ensures forall k :: k in r <==> k in data && k in keys && data[k] != Null
    ensures forall k :: k in r ==> r[k] == data[k]
  {
    map k | k in data && k in keys && data[k] != Null :: data[k]
  }

  /** Extracting a category twice gives the same entries as extracting it once. */
  lemma ExtractCategoryIdempotent(data: Row, keys: seq<string>)
    ensures ExtractCategory(ExtractCategory(data, keys), keys) == ExtractCategory(data, keys)
  {
  }

  /** Falsy values other than `None` (an empty string, a zero) are kept. */
  lemma FalsyButPresentKept(data: Row, keys: seq<string>, k: string)
    requires k in data && k in keys && (data[k] == Str("") || data[k] == Int(0))
    ensures k in ExtractCategory(data, keys) && !Truthy(ExtractCategory(data, keys)[k])
  {
  }

  /** Python's `<` on strings: code-point lexicographic order, a proper prefix first. */
  predicate Below(a: string, b: string) {
    |b| > 0 && (|a| == 0 || a[0] < b[0] || (a[0] == b[0] && Below(a[1..], b[1..])))
  }

  lemma {:induction false} BelowIrreflexive(a: string)
    ensures !Below(a, a)
  {
    if |a| > 0 {
      BelowIrreflexive(a[1..]);
    }
  }

  lemma {:induction false} BelowTransitive(a: string, b: string, c: string)
    requires Below(a, b) && Below(b, c)
    ensures Below(a, c)
  {
    if |a| > 0 && a[0] == b[0] && b[0] == c[0] {
      BelowTransitive(a[1..], b[1..], c[1..]);
    }
  }

  lemma {:induction false} BelowTotal(a: string, b: string)
    requires a != b
    ensures Below(a, b) || Below(b, a)
  {
    if |a| > 0 && |b| > 0 && a[0] == b[0] {
      assert a == [a[0]] + a[1..] && b == [b[0]] + b[1..];
      BelowTotal(a[1..], b[1..]);
    }
  }

  /** Strictly increasing, so also free of duplicates. */
  predicate Increasing(ks: seq<string>) {
    forall i, j :: 0 <= i < j < |ks| ==> Below(ks[i], ks[j])
  }

  /** `ks` lists the keys of `data` in Python's sorted order. */
  predicate KeyOrder(ks: seq<string>, data: Row) {
    Increasing(ks) && (forall k :: k in ks ==> k in data) && (forall k :: k in data ==> k in ks)
  }

  /** Inserts a new key into an increasing sequence at its place. */
  function InsertKey(ks: seq<string>, k: string): (r: seq<string>)
    requires Increasing(ks) && k !in ks
    ensures Increasing(r) && |r| == |ks| + 1
    ensures forall x :: x in r <==> x in ks || x == k
  {
    if |ks| == 0 then [k]
    else if Below(k, ks[0]) then
      assert forall j :: 0 < j < |ks| ==> Below(k, ks[j]) by {
        forall j | 0 < j < |ks| ensures Below(k, ks[j]) {
          BelowTransitive(k, ks[0], ks[j]);
        }
      }
      [k] + ks
    else
      BelowTotal(k, ks[0]);
      var rest := InsertKey(ks[1..], k);
      assert forall x :: x in rest ==> Below(ks[0], x) by {
        forall x | x in rest ensures Below(ks[0], x) {
          if x != k {
            var j :| 0 <= j < |ks[1..]| && ks[1..][j] == x;
            assert ks[j + 1] == x;
          }
        }
      }
      [ks[0]] + rest
  }

  lemma {:induction false} BelowAsymmetric(a: string, b: string)
    ensures !(Below(a, b) && Below(b, a))
  {
    if |a| > 0 && |b| > 0 && a[0] == b[0] {
      BelowAsymmetric(a[1..], b[1..]);
    }
  }

  /** The first element of an increasing sequence is below every other one. */
  lemma FirstIsLeast(a: seq<string>, x: string)
    requires Increasing(a) && x in a
    ensures x == a[0] || Below(a[0], x)
  {
  }

  lemma TailMembers(a: seq<string>, x: string)
    requires Increasing(a) && |a| > 0
    ensures x in a[1..] <==> x in a && x != a[0]
  {
    if x in a[1..] {
      var i :| 0 <= i < |a| - 1 && a[1..][i] == x;
      assert Below(a[0], a[i + 1]);
      BelowIrreflexive(a[0]);
    }
    if x in a && x != a[0] {
      var j :| 0 <= j < |a| && a[j] == x;
      assert a[1..][j - 1] == x;
    }
  }

  /** Two increasing sequences with the same elements are the same sequence. */
  lemma {:induction false} IncreasingUnique(a: seq<string>, b: seq<string>)
    requires Increasing(a) && Increasing(b)
    requires forall x :: x in a <==> x in b
    ensures a == b
  {
    assert |a| == 0 <==> |b| == 0 by {
      if |a| > 0 {
        assert a[0] in a;
      }
      if |b| > 0 {
        assert b[0] in b;
      }
    }
    if |a| > 0 {
      FirstIsLeast(a, b[0]);
      FirstIsLeast(b, a[0]);
      BelowAsymmetric(a[0], b[0]);
      forall x ensures x in a[1..] <==> x in b[1..] {
        TailMembers(a, x);
        TailMembers(b, x);
      }
      IncreasingUnique(a[1..], b[1..]);
      assert a == [a[0]] + a[1..] && b == [b[0]] + b[1..];
    }
  }

  const NoData := "  (no data available)"

  /** One line of the listing: `  - key: value`. */
  function Line(k: string, v: Value): string {
    "  - " + k + ": " + ToStr(v)
  }

  function Lines(ks: seq<string>, data: Row): (r: seq<string>)
    requires forall k :: k in ks ==> k in data
    ensures |r| == |ks|
    ensures forall i :: 0 <= i < |ks| ==> r[i] == Line(ks[i], data[ks[i]])
  {
    if |ks| == 0 then [] else [Line(ks[0], data[ks[0]])] + Lines(ks[1..], data)
  }

  /** `_format_dict`: one line per entry in key order, or the no-data marker. */
  method FormatDict(data: Row) returns (r: string)
    ensures |data| == 0 ==> r == NoData
    ensures |data| > 0 ==> exists ks :: KeyOrder(ks, data) && r == Join(Lines(ks, data), "\n")
  {
    if |data| == 0 {
      return NoData;
    }
    var rest := data.Keys;
    var ks: seq<string> := [];
    while rest != {}
      invariant Increasing(ks)
      invariant forall k :: k in ks ==> k in data && k !in rest
      invariant forall k :: k in data ==> k in ks || k in rest
      invariant rest <= data.Keys
      decreases |rest|
    {
      var k :| k in rest;
      ks := InsertKey(ks, k);
      rest := rest - {k};
    }
    assert KeyOrder(ks, data);
    r := Join(Lines(ks, data), "\n");
  }

  /** The listing is determined by the data: there is one key order. */
  lemma KeyOrderUnique(data: Row, a: seq<string>, b: seq<string>)
    requires KeyOrder(a, data) && KeyOrder(b, data)
    ensures a == b
  {
    IncreasingUnique(a, b);
  }

  /** A single entry is listed on one line. */
  lemma SingleEntryListing(k: string, v: Value)
    ensures KeyOrder([k], map[k := v])
    ensures Join(Lines([k], map[k := v]), "\n") == "  - " + k + ": " + ToStr(v)
  {
  }

  /** Two entries are listed in key order whatever order they were given in. */
  lemma TwoEntryListing(a: string, b: string, va: Value, vb: Value)
    requires Below(a, b)
    ensures KeyOrder([a, b], map[b := vb, a := va])
    ensures Join(Lines([a, b], map[b := vb, a := va]), "\n") == Line(a, va) + "\n" + Line(b, vb)
  {
    BelowIrreflexive(a);
    assert a != b;
    var data := map[b := vb, a := va];
    assert Lines([a, b], data) == [Line(a, va), Line(b, vb)];
  }
}
