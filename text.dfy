/**
 * Character classes and string tests with the meaning Python 3 gives them:
 * the `in` operator on strings, the `re` module's word characters (`\w`, `\b`)
 * and its IGNORECASE comparison, for the pattern characters this model uses.
 */
module Text {

  predicate IsAsciiLower(c: char) { 'a' <= c <= 'z' }
  predicate IsAsciiUpper(c: char) { 'A' <= c <= 'Z' }
  predicate IsAsciiDigit(c: char) { '0' <= c <= '9' }

  /**
   * A word character of Python's `re` on a str pattern: `_` or a character
   * for which `str.isalnum()` holds. Exact for U+0000..U+00FF (the range an
   * ISO-8859-1 decoded document is made of) and for the four non-ASCII letters
   * that IGNORECASE lets stand for ASCII letters; every other character above
   * U+00FF is taken to be a non-word character.
   */
  predicate IsWordChar(c: char) {
    || IsAsciiLower(c) || IsAsciiUpper(c) || IsAsciiDigit(c) || c == '_'
    || c == '\U{AA}' || c == '\U{B2}' || c == '\U{B3}' || c == '\U{B5}'
    || c == '\U{B9}' || c == '\U{BA}' || '\U{BC}' <= c <= '\U{BE}'
    || '\U{C0}' <= c <= '\U{D6}' || '\U{D8}' <= c <= '\U{F6}' || '\U{F8}' <= c <= '\U{FF}'
    || c == '\U{130}' || c == '\U{131}' || c == '\U{17F}' || c == '\U{212A}'
  }

  /** Every character of `s` is a word character. */
  predicate AllWordChars(s: string) {
    forall j :: 0 <= j < |s| ==> IsWordChar(s[j])
  }

  /**
   * Subject character `c` matches pattern character `p` under re.IGNORECASE,
   * for `p` a lower-case ASCII letter, a digit or punctuation: `p` itself, its
   * upper-case form, and the non-ASCII letters Python's documentation lists
   * (U+0130 and U+0131 for `i`, U+017F for `s`, the Kelvin sign for `k`).
   */
  predicate FoldEq(c: char, p: char) {
    || c == p
    || (IsAsciiLower(p) && c as int == p as int - 32)
    || (p == 'i' && (c == '\U{130}' || c == '\U{131}'))
    || (p == 's' && c == '\U{17F}')
    || (p == 'k' && c == '\U{212A}')
  }

  /** `t` matches the literal pattern `w` under re.IGNORECASE. */
  predicate MatchesIgnoringCase(t: string, w: string) {
    |t| == |w| && forall j :: 0 <= j < |t| ==> FoldEq(t[j], w[j])
  }

  /** The literal pattern `w` matches `s` at position `i` under re.IGNORECASE. */
  predicate MatchesIgnoringCaseAt(s: string, w: string, i: int) {
    0 <= i && i + |w| <= |s| && forall j :: 0 <= j < |w| ==> FoldEq(s[i + j], w[j])
  }

  /** `needle` starts at position `i` of `hay`. */
  predicate OccursAt(hay: string, needle: string, i: int) {
    0 <= i && i + |needle| <= |hay| && hay[i..i + |needle|] == needle
  }

  /** Python's `needle in hay` on two strings: try each start from the left. */
  predicate Contains(hay: string, needle: string)
    decreases |hay|
  {
    if |needle| > |hay| then false
    else hay[..|needle|] == needle || Contains(hay[1..], needle)
  }

  /** `needle` starts at position `i + 1` of `hay` exactly when it starts at position `i` of `hay[1..]`. */
  lemma OccursAtShift(hay: string, needle: string, i: nat)
    requires |hay| > 0
    ensures OccursAt(hay, needle, i + 1) <==> OccursAt(hay[1..], needle, i)
  {
    if i + 1 + |needle| <= |hay| {
      assert hay[1..][i..i + |needle|] == hay[i + 1..i + 1 + |needle|];
    }
  }

  /** `needle in hay` holds exactly when `needle` starts at some position of `hay`. */
  lemma {:induction false} ContainsIff(hay: string, needle: string)
    ensures Contains(hay, needle) <==> exists i :: 0 <= i <= |hay| - |needle| && OccursAt(hay, needle, i)
    decreases |hay|
  {
    if |needle| <= |hay| {
      if hay[..|needle|] == needle {
        assert OccursAt(hay, needle, 0);
      } else {
        ContainsIff(hay[1..], needle);
        if Contains(hay[1..], needle) {
          var i :| 0 <= i <= |hay| - 1 - |needle| && OccursAt(hay[1..], needle, i);
          OccursAtShift(hay, needle, i);
        } else {
          assert !OccursAt(hay, needle, 0) by { assert hay[0..|needle|] == hay[..|needle|]; }
          forall i | 0 < i <= |hay| - |needle| ensures !OccursAt(hay, needle, i) {
            OccursAtShift(hay, needle, i - 1);
          }
        }
      }
    }
  }

  /** Python's `s.endswith(t)` once both are compared under re.IGNORECASE. */
  predicate EndsWithIgnoringCase(s: string, t: string) {
    |t| <= |s| && MatchesIgnoringCase(s[|s| - |t|..], t)
  }

  /** `\b` at position `j` of `s`: exactly one of the two neighbours of `j` is a word character, positions outside `s` counting as non-word. */
  predicate AtWordBoundary(s: string, j: int)
    requires 0 <= j <= |s|
  {
    (j > 0 && IsWordChar(s[j - 1])) != (j < |s| && IsWordChar(s[j]))
  }

  /** The empty string is in every string, and a string is in itself. */
  lemma ContainsTrivial(hay: string)
    ensures Contains(hay, "")
    ensures Contains(hay, hay)
  {
    assert OccursAt(hay, "", 0);
    assert OccursAt(hay, hay, 0);
    ContainsIff(hay, "");
    ContainsIff(hay, hay);
  }

  /** A substring of a part is a substring of the whole. */
  lemma ContainsInConcat(a: string, b: string, c: string, needle: string)
    requires Contains(b, needle)
    ensures Contains(a + b + c, needle)
  {
    ContainsIff(b, needle);
    var i :| 0 <= i <= |b| - |needle| && OccursAt(b, needle, i);
    assert (a + b + c)[|a| + i..|a| + i + |needle|] == b[i..i + |needle|];
    assert OccursAt(a + b + c, needle, |a| + i);
    ContainsIff(a + b + c, needle);
  }

  /** Appending never removes a substring. */
  lemma ContainsInLonger(hay: string, more: string, needle: string)
    requires Contains(hay, needle)
    ensures Contains(hay + more, needle)
  {
    ContainsInConcat([], hay, more, needle);
    assert [] + hay + more == hay + more;
  }

  /** Containment is transitive. */
  lemma ContainsTransitive(a: string, b: string, c: string)
    requires Contains(a, b) && Contains(b, c)
    ensures Contains(a, c)
  {
    ContainsIff(a, b);
    ContainsIff(b, c);
    ContainsIff(a, c);
    var i :| 0 <= i <= |a| - |b| && OccursAt(a, b, i);
    var j :| 0 <= j <= |b| - |c| && OccursAt(b, c, j);
    assert b == a[i..i + |b|];
    forall t | 0 <= t < |c| ensures a[i + j + t] == c[t] {
      assert c[t] == b[j + t];
    }
    assert a[i + j..i + j + |c|] == c;
    assert OccursAt(a, c, i + j);
  }

  /** Every character of a substring occurs in the string. */
  lemma ContainsNeedsEveryChar(hay: string, needle: string, j: nat)
    requires Contains(hay, needle) && j < |needle|
    ensures needle[j] in hay
  {
    ContainsIff(hay, needle);
    var i :| 0 <= i <= |hay| - |needle| && OccursAt(hay, needle, i);
    assert hay[i + j] == hay[i..i + |needle|][j];
  }

  /** A string occurring at a known position is contained. */
  lemma ContainsAt(hay: string, needle: string, i: nat)
    requires OccursAt(hay, needle, i)
    ensures Contains(hay, needle)
  {
    ContainsIff(hay, needle);
  }
}
