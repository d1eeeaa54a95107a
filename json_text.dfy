/** Text handling of the schema writer: Java's literal `String.replace`, the two
    clean-ups applied to the serializer's output, and the namespace-to-directory
    mapping. */
module JsonText {
  import opened Schema

  /** Every occurrence of `pattern` in `s` replaced by `replacement`, scanning from the
      left and never re-reading replaced text, as Java's `String.replace` does for a
      non-empty target. A replacement as long as the target keeps the length of the
      text, and a shorter one never lengthens it. */
  function ReplaceAll(s: string, pattern: string, replacement: string): (r: string)
    requires |pattern| > 0
    ensures |replacement| <= |pattern| ==> |r| <= |s|
    ensures |replacement| == |pattern| ==> |r| == |s|
    decreases |s|
  {
    if |s| < |pattern| then s
    else if s[..|pattern|] == pattern then replacement + ReplaceAll(s[|pattern|..], pattern, replacement)
    else [s[0]] + ReplaceAll(s[1..], pattern, replacement)
  }

  /** `pattern` appears in `s` starting at index `i`. */
  predicate OccursAt(s: string, pattern: string, i: int)
  {
    0 <= i && i + |pattern| <= |s| && s[i..i + |pattern|] == pattern
  }

  /** `pattern` appears somewhere in `s`. */
  predicate Occurs(s: string, pattern: string)
  {
    exists i :: 0 <= i <= |s| && OccursAt(s, pattern, i)
  }

  /** Text in which the pattern does not appear comes back unchanged. */
  lemma {:induction false} ReplaceAbsent(s: string, pattern: string, replacement: string)
    requires |pattern| > 0 && !Occurs(s, pattern)
    ensures ReplaceAll(s, pattern, replacement) == s
  {
    if |s| >= |pattern| {
      assert s[0..|pattern|] == s[..|pattern|];
      assert !OccursAt(s, pattern, 0);
      forall i | OccursAt(s[1..], pattern, i) ensures OccursAt(s, pattern, i + 1) {
        assert s[1..][i..i + |pattern|] == s[i + 1..i + 1 + |pattern|];
      }
      ReplaceAbsent(s[1..], pattern, replacement);
      assert [s[0]] + s[1..] == s;
    }
  }

  /** A shorter replacement strictly shortens text in which the pattern appears. */
  lemma {:induction false} ReplacePresent(s: string, pattern: string, replacement: string)
    requires |pattern| > 0 && |replacement| < |pattern| && Occurs(s, pattern)
    ensures |ReplaceAll(s, pattern, replacement)| < |s|
    decreases |s|
  {
    var i :| 0 <= i <= |s| && OccursAt(s, pattern, i);
    if s[..|pattern|] != pattern {
      assert i != 0 by {
        assert s[0..|pattern|] == s[..|pattern|];
      }
      assert s[1..][i - 1..i - 1 + |pattern|] == s[i..i + |pattern|];
      assert OccursAt(s[1..], pattern, i - 1);
      ReplacePresent(s[1..], pattern, replacement);
    }
  }

  /** Replacing one character by another works character by character. */
  lemma {:induction false} ReplaceChar(s: string, c: char, d: char)
    ensures forall i :: 0 <= i < |s| ==> ReplaceAll(s, [c], [d])[i] == if s[i] == c then d else s[i]
    decreases |s|
  {
    if |s| >= 1 {
      ReplaceChar(s[1..], c, d);
    }
  }

  /** The quoted empty list the serializer writes, and the bare one it should be. */
  const QuotedEmptyList := "\"[]\""
  const EmptyList := "[]"
  /** A default given as the string "null", and the JSON null it should be. */
  const QuotedNullDefault := "\"default\" : \"null\""
  const NullDefault := "\"default\" : null"

  /** The two clean-ups of the serializer's output, in order. Both replacements are
      shorter than their targets, so the text never grows. */
  function ReplaceValues(value: string): (r: string)
    ensures |r| <= |value|
  {
    ReplaceAll(ReplaceAll(value, QuotedEmptyList, EmptyList), QuotedNullDefault, NullDefault)
  }

  /** The clean-ups leave a text unchanged exactly when neither pattern appears in it. */
  lemma ReplaceValuesUnchanged(value: string)
    ensures ReplaceValues(value) == value <==> !Occurs(value, QuotedEmptyList) && !Occurs(value, QuotedNullDefault)
  {
    if Occurs(value, QuotedEmptyList) {
      ReplacePresent(value, QuotedEmptyList, EmptyList);
    } else {
      ReplaceAbsent(value, QuotedEmptyList, EmptyList);
      if Occurs(value, QuotedNullDefault) {
        ReplacePresent(value, QuotedNullDefault, NullDefault);
      } else {
        ReplaceAbsent(value, QuotedNullDefault, NullDefault);
      }
    }
  }

  /** The clean-ups are not idempotent: a quoted empty list wrapped in one more pair of
      quotes loses one pair per application. */
  lemma ReplaceValuesNotIdempotent()
    ensures ReplaceValues("\"\"[]\"\"") == QuotedEmptyList
    ensures ReplaceValues(ReplaceValues("\"\"[]\"\"")) == EmptyList
  {
    var s := "\"\"[]\"\"";
    assert ReplaceAll(s, QuotedEmptyList, EmptyList) == QuotedEmptyList by {
      assert s[..4] != QuotedEmptyList;
      assert s[1..][..4] == QuotedEmptyList;
      assert s[1..][4..] == "\"";
    }
    ReplaceAbsentShort(QuotedEmptyList, QuotedNullDefault, NullDefault);
    assert ReplaceAll(QuotedEmptyList, QuotedEmptyList, EmptyList) == EmptyList by {
      assert QuotedEmptyList[..4] == QuotedEmptyList;
      assert QuotedEmptyList[4..] == "";
    }
    ReplaceAbsentShort(EmptyList, QuotedNullDefault, NullDefault);
  }

  /** Text shorter than the pattern comes back unchanged. */
  lemma ReplaceAbsentShort(s: string, pattern: string, replacement: string)
    requires 0 < |pattern| && |s| < |pattern|
    ensures ReplaceAll(s, pattern, replacement) == s
  {
  }

  /** The directory of a namespace: each '.' becomes '/'. */
  function NamespacePath(namespace: string): (path: string)
    ensures |path| == |namespace|
    ensures forall i :: 0 <= i < |path| ==> path[i] == if namespace[i] == '.' then '/' else namespace[i]
    ensures forall i :: 0 <= i < |path| ==> path[i] != '.'
  {
    ReplaceChar(namespace, '.', '/');
    ReplaceAll(namespace, ".", "/")
  }

  /** The JSON text of a schema entry: the serializer's output with the clean-ups
      applied, or the serializer's failure wrapped as a schema generation error. The
      serializer is a parameter; it receives stub entries (None) as well. */
  function GetJson(serialize: Option<NamedType> -> Result<string, string>, entry: Option<NamedType>): (r: Result<string, Error>)
    ensures r.Success? <==> serialize(entry).Success?
    ensures r.Success? ==> r.value == ReplaceValues(serialize(entry).value)
    ensures r.Failure? ==> r.error == SchemagenException(serialize(entry).error)
  {
    match serialize(entry)
    case Success(json) => Success(ReplaceValues(json))
    case Failure(cause) => Failure(SchemagenException(cause))
  }
}
