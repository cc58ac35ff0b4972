/** Kotlin's case-insensitive string comparisons, `String.equals(other,
    ignoreCase = true)` and `String.contains(other, ignoreCase = true)`, with
    case mapping restricted to the ASCII letters. */
module Text {

  function UppercaseChar(c: char): char
  {
    if 'a' <= c <= 'z' then (c as int - 32) as char else c
  }

  function LowercaseChar(c: char): char
  {
    if 'A' <= c <= 'Z' then (c as int + 32) as char else c
  }

  /** `Char.equals(other, ignoreCase = true)`: equal as written, equal once
      upper-cased, or equal once upper-cased and then lower-cased. */
  predicate CharEqualsIgnoreCase(a: char, b: char)
  {
    || a == b
    || UppercaseChar(a) == UppercaseChar(b)
    || LowercaseChar(UppercaseChar(a)) == LowercaseChar(UppercaseChar(b))
  }

  function Lowercase(s: string): (r: string)
    ensures |r| == |s|
  {
    seq(|s|, i requires 0 <= i < |s| => LowercaseChar(s[i]))
  }

  lemma CharEqualsIgnoreCaseIffSameLowercase(a: char, b: char)
    ensures CharEqualsIgnoreCase(a, b) <==> LowercaseChar(a) == LowercaseChar(b)
  {
  }

  /** `String.equals(other, ignoreCase = true)`: same length, and the
      characters agree position by position, ignoring case. */
  predicate EqualsIgnoreCase(a: string, b: string)
  {
    |a| == |b| && forall i :: 0 <= i < |a| ==> CharEqualsIgnoreCase(a[i], b[i])
  }

  /** Case-insensitive equality is equality of the lower-cased strings. */
  lemma EqualsIgnoreCaseIffSameLowercase(a: string, b: string)
    ensures EqualsIgnoreCase(a, b) <==> Lowercase(a) == Lowercase(b)
  {
    if EqualsIgnoreCase(a, b) {
      forall i | 0 <= i < |a| ensures Lowercase(a)[i] == Lowercase(b)[i] {
        CharEqualsIgnoreCaseIffSameLowercase(a[i], b[i]);
      }
    }
    if Lowercase(a) == Lowercase(b) {
      forall i | 0 <= i < |a| ensures CharEqualsIgnoreCase(a[i], b[i]) {
        assert Lowercase(a)[i] == Lowercase(b)[i];
        CharEqualsIgnoreCaseIffSameLowercase(a[i], b[i]);
      }
    }
  }

  /** `regionMatches(i, query, 0, |query|, ignoreCase = true)`: `query`
      occurs in `text` at offset `i`, ignoring case. */
  predicate MatchesAt(text: string, query: string, i: int)
  {
    0 <= i && i + |query| <= |text| && EqualsIgnoreCase(text[i..i + |query|], query)
  }

  /** The search `indexOf(query, from, ignoreCase = true)` performs: try
      every offset from `from` on at which `query` still fits. */
  function ContainsFrom(text: string, query: string, from: nat): (r: bool)
    ensures r <==> exists i :: from <= i && MatchesAt(text, query, i)
    decreases |text| - from
  {
    if from + |query| > |text| then false
    else MatchesAt(text, query, from) || ContainsFrom(text, query, from + 1)
  }

  /** `String.contains(query, ignoreCase = true)`. */
  function ContainsIgnoreCase(text: string, query: string): (r: bool)
    ensures r <==> exists i :: MatchesAt(text, query, i)
  {
    ContainsFrom(text, query, 0)
  }

  /** The empty string occurs in every string. */
  lemma ContainsEmptyQuery(text: string)
    ensures ContainsIgnoreCase(text, "")
  {
    assert MatchesAt(text, "", 0);
  }

  /** Queries that differ only in case find the same occurrences. */
  lemma ContainsIgnoresQueryCase(text: string, q1: string, q2: string)
    requires Lowercase(q1) == Lowercase(q2)
    ensures ContainsIgnoreCase(text, q1) == ContainsIgnoreCase(text, q2)
  {
    assert |q1| == |q2|;
    forall i | 0 <= i && i + |q1| <= |text|
      ensures MatchesAt(text, q1, i) <==> MatchesAt(text, q2, i)
    {
      EqualsIgnoreCaseIffSameLowercase(text[i..i + |q1|], q1);
      EqualsIgnoreCaseIffSameLowercase(text[i..i + |q2|], q2);
    }
  }

  /** A character equals `c` ignoring case only if it is `c` or one of its
      two case variants. */
  lemma CaseVariants(x: char, c: char)
    requires CharEqualsIgnoreCase(x, c)
    ensures x == c || x == LowercaseChar(c) || x == UppercaseChar(c)
  {
  }

  /** A query whose first character appears in `text` in neither case
      does not occur in it. */
  lemma NotContainedWithoutFirstChar(text: string, query: string)
    requires |query| > 0
    requires query[0] !in text && LowercaseChar(query[0]) !in text && UppercaseChar(query[0]) !in text
    ensures !ContainsIgnoreCase(text, query)
  {
    forall i | MatchesAt(text, query, i) ensures false {
      assert text[i..i + |query|][0] == text[i];
      CaseVariants(text[i], query[0]);
    }
  }
}
