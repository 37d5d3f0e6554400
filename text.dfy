/** The string operations the validation rules rely on: lower-casing and blankness. */
module Text {
  import opened Primitives

  predicate IsAsciiUpper(c: char) { 'A' <= c <= 'Z' }

  /** `char.ToLower`, restricted to ASCII: upper-case letters become lower-case, all else stays. */
  function LowerChar(c: char): char
  {
    if IsAsciiUpper(c) then (c as int + 32) as char else c
  }

  /** `string.ToLower`: the string with every character lowered, and no upper-case letter left. */
  function Lower(s: string): (r: string)
    ensures |r| == |s|
    ensures forall i :: 0 <= i < |s| ==> r[i] == LowerChar(s[i])
    ensures forall i :: 0 <= i < |r| ==> !IsAsciiUpper(r[i])
    decreases |s|
  {
    if s == [] then [] else [LowerChar(s[0])] + Lower(s[1..])
  }

  /** Lower-casing twice is lower-casing once. */
  lemma LowerIdempotent(s: string)
    ensures Lower(Lower(s)) == Lower(s)
  {
    var l := Lower(s);
    assert |Lower(l)| == |l|;
    forall i | 0 <= i < |l| ensures Lower(l)[i] == l[i] {
      assert !IsAsciiUpper(l[i]);
    }
  }

  /** Two strings that differ at most in the letter case of their ASCII letters. */
  predicate EqualIgnoringCase(s: string, t: string)
  {
    |s| == |t| && forall i :: 0 <= i < |s| ==> LowerChar(s[i]) == LowerChar(t[i])
  }

  /** Comparing lowered strings is exactly comparing ignoring case. */
  lemma LowerEqualIff(s: string, t: string)
    ensures Lower(s) == Lower(t) <==> EqualIgnoringCase(s, t)
  {
    if EqualIgnoringCase(s, t) {
      assert |Lower(s)| == |Lower(t)|;
      forall i | 0 <= i < |s| ensures Lower(s)[i] == Lower(t)[i] { }
    }
    if Lower(s) == Lower(t) {
      forall i | 0 <= i < |s| ensures LowerChar(s[i]) == LowerChar(t[i]) {
        assert Lower(s)[i] == Lower(t)[i];
      }
    }
  }

  /** A word without upper-case letters is matched ignoring case by a string exactly when the
      string lowers to that word. */
  lemma LowerMatchesWord(s: string, word: string)
    requires forall i :: 0 <= i < |word| ==> !IsAsciiUpper(word[i])
    ensures Lower(s) == word <==> EqualIgnoringCase(s, word)
  {
    LowerEqualIff(s, word);
    LowerIdempotent(word);
    assert Lower(word) == word by {
      forall i | 0 <= i < |word| ensures Lower(word)[i] == word[i] { }
    }
  }

  /** `char.IsWhiteSpace`: the Unicode space separators, the line and paragraph separators,
      and U+0009 to U+000D, U+0085 and U+00A0. */
  predicate IsWhiteSpace(c: char)
  {
    || c == ' ' || '\t' <= c <= '\r' || c == '\U{85}' || c == '\U{A0}' || c == '\U{1680}'
    || '\U{2000}' <= c <= '\U{200A}' || c == '\U{2028}' || c == '\U{2029}' || c == '\U{202F}'
    || c == '\U{205F}' || c == '\U{3000}'
  }

  /** `string.IsNullOrWhiteSpace`. */
  predicate IsNullOrWhiteSpace(s: Option<string>)
  {
    s.None? || forall i :: 0 <= i < |s.value| ==> IsWhiteSpace(s.value[i])
  }
}
