/** Character and string primitives used by the record predicates: ASCII
    lower-casing (Python's `str.lower` restricted to ASCII letters) and literal
    substring search (what `re.search` and the `in` operator do on patterns
    without regular-expression metacharacters). */
module Text {

  predicate IsUpper(c: char) { 'A' <= c <= 'Z' }

  predicate IsLower(c: char) { 'a' <= c <= 'z' }

  /** Lower-case an ASCII letter; every other character is left alone. */
  function ToLower(c: char): char
  {
    if IsUpper(c) then (c as int + 32) as char else c
  }

  /** Flip the case of an ASCII letter; every other character is left alone. */
  function SwapCase(c: char): char
  {
    if IsUpper(c) then (c as int + 32) as char
    else if IsLower(c) then (c as int - 32) as char
    else c
  }

  /** `s.lower()`, character by character. */
  function Lower(s: string): string
  {
    seq(|s|, i requires 0 <= i < |s| => ToLower(s[i]))
  }

  /** No ASCII upper-case letter occurs in `s`. */
  ghost predicate IsLowerCase(s: string)
  {
    forall i :: 0 <= i < |s| ==> !IsUpper(s[i])
  }

  /** `t` is `s` with the letter case of some of its letters flipped. */
  ghost predicate CaseVariant(s: string, t: string)
  {
    |s| == |t| && forall i :: 0 <= i < |s| ==> t[i] == s[i] || t[i] == SwapCase(s[i])
  }

  /** Lower-casing yields a lower-case string of the same length and does
      nothing to a string that is already lower-case. */
  lemma LowerIsLowerCase(s: string)
    ensures |Lower(s)| == |s| && IsLowerCase(Lower(s))
    ensures IsLowerCase(s) ==> Lower(s) == s
  {
  }

  /** Lower-casing is idempotent. */
  lemma LowerIdempotent(s: string)
    ensures Lower(Lower(s)) == Lower(s)
  {
  }

  /** Lower-casing forgets the letter case: two case variants of one string
      lower-case to the same string. */
  lemma LowerIgnoresCase(s: string, t: string)
    requires CaseVariant(s, t)
    ensures Lower(s) == Lower(t)
  {
  }

  /** `needle` occurs contiguously in `hay`, starting at index `i`. */
  ghost predicate OccursAt(hay: string, needle: string, i: int)
  {
    0 <= i && i + |needle| <= |hay| && hay[i..i + |needle|] == needle
  }

  /** `needle` occurs contiguously somewhere in `hay`. */
  ghost predicate Occurs(hay: string, needle: string)
  {
    exists i :: OccursAt(hay, needle, i)
  }

  /** Literal substring search, scanning `hay` from the left. */
  function Contains(hay: string, needle: string): bool
    decreases |hay|
  {
    if |needle| > |hay| then false
    else hay[..|needle|] == needle || Contains(hay[1..], needle)
  }

  /** The search finds `needle` exactly when it occurs somewhere in `hay`. */
  lemma {:induction false} ContainsIff(hay: string, needle: string)
    ensures Contains(hay, needle) <==> Occurs(hay, needle)
    decreases |hay|
  {
    if |needle| > |hay| {
      assert forall i :: !OccursAt(hay, needle, i);
    } else if hay[..|needle|] == needle {
      assert OccursAt(hay, needle, 0);
    } else {
      var tail := hay[1..];
      ContainsIff(tail, needle);
      if Contains(tail, needle) {
        var i :| OccursAt(tail, needle, i);
        assert tail[i..i + |needle|] == hay[i + 1..i + 1 + |needle|];
        assert OccursAt(hay, needle, i + 1);
      }
      if Occurs(hay, needle) {
        var i :| OccursAt(hay, needle, i);
        assert i != 0;
        assert tail[i - 1..i - 1 + |needle|] == hay[i..i + |needle|];
        assert OccursAt(tail, needle, i - 1);
      }
    }
  }

  /** A non-empty string never occurs in the empty string. */
  lemma NothingOccursInEmpty(needle: string)
    requires needle != []
    ensures !Occurs([], needle)
  {
  }
}
