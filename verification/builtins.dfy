/** The few Python built-ins the redaction pipeline leans on, with their
    Python meaning: failure-carrying results, `int()` applied to a float,
    `str.lower()` and `str.endswith()`. */
module Builtins {

  datatype Option<+T> = None | Some(value: T)

  datatype Result<+T, +E> = Success(value: T) | Failure(error: E)

  /** Python's `int(v)` for a float `v`: truncation toward zero (not the
      floor, which differs for negative non-integers). */
  function Trunc(v: real): (t: int)
    ensures 0.0 <= v ==> t as real <= v < t as real + 1.0
    ensures v <= 0.0 ==> t as real - 1.0 < v <= t as real
  {
    if v >= 0.0 then v.Floor else -((-v).Floor)
  }

  /** `str.lower()` on one character, as far as it can decide a comparison
      with an ASCII string: the letters A-Z, and KELVIN SIGN (U+212A), the
      only non-ASCII character whose lower case is a single ASCII letter. */
  function LowerChar(c: char): (d: char)
    ensures !('A' <= d <= 'Z')
    ensures 'A' <= c <= 'Z' ==> 'a' <= d <= 'z' && d as int - c as int == 'a' as int - 'A' as int
    ensures d != c ==> 'A' <= c <= 'Z' || c == '\U{212A}'
    ensures c == '\U{212A}' ==> d == 'k'
  {
    if 'A' <= c <= 'Z' then (c as int + 32) as char
    else if c == '\U{212A}' then 'k'
    else c
  }

  /** `str.lower()`, character by character. */
  function Lower(s: string): (t: string)
    ensures |t| == |s|
  {
    seq(|s|, i requires 0 <= i < |s| => LowerChar(s[i]))
  }

  /** What lower-casing does to each character: no upper-case ASCII letter
      is left, lower-case letters stay, and the only characters that change
      are A-Z and KELVIN SIGN. */
  lemma LowerCharacters(s: string)
    ensures forall i :: 0 <= i < |s| ==> !('A' <= Lower(s)[i] <= 'Z')
    ensures forall i :: 0 <= i < |s| && 'a' <= s[i] <= 'z' ==> Lower(s)[i] == s[i]
    ensures forall i :: 0 <= i < |s| && Lower(s)[i] != s[i] ==> 'A' <= s[i] <= 'Z' || s[i] == '\U{212A}'
  {
  }

  /** Lower-casing twice is lower-casing once: a lower-cased string has no
      character left that lower-casing would change. */
  lemma LowerIdempotent(s: string)
    ensures Lower(Lower(s)) == Lower(s)
  {
  }

  /** Lower-casing distributes over concatenation. */
  lemma LowerAppend(a: string, b: string)
    ensures Lower(a + b) == Lower(a) + Lower(b)
  {
  }

  /** `s.endswith(suffix)`. */
  predicate EndsWith(s: string, suffix: string)
  {
    |suffix| <= |s| && s[|s| - |suffix|..] == suffix
  }

  /** `s.endswith(suffix)` holds exactly when `s` is some string followed
      by `suffix`. */
  lemma EndsWithIffConcat(s: string, suffix: string)
    ensures EndsWith(s, suffix) <==> exists front :: s == front + suffix
  {
    if EndsWith(s, suffix) {
      assert s == s[..|s| - |suffix|] + suffix;
    }
    forall front | s == front + suffix
      ensures EndsWith(s, suffix)
    {
      assert s[|front|..] == suffix;
    }
  }
}
