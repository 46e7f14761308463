/**
 * The string operations the route lookup relies on: `String.prototype.trim`,
 * `String.prototype.toLowerCase` (restricted to the letters that occur in
 * Portuguese place names) and the comparison used to sort city names.
 */
module Text {

  /** The characters `trim` removes: ECMAScript WhiteSpace and LineTerminator. */
  predicate IsJsWhitespace(c: char) {
    || c == '\t' || c == '\n' || c == '\U{B}' || c == '\U{C}' || c == '\r' || c == ' '
    || c == '\U{A0}' || c == '\U{1680}' || ('\U{2000}' <= c <= '\U{200A}')
    || c == '\U{2028}' || c == '\U{2029}' || c == '\U{202F}' || c == '\U{205F}'
    || c == '\U{3000}' || c == '\U{FEFF}'
  }

  /** Every character of `s` is whitespace. */
  predicate AllWhitespace(s: string) {
    forall i :: 0 <= i < |s| ==> IsJsWhitespace(s[i])
  }

  /** Where the leading whitespace of `s` ends, scanning from position `i`. */
  function LeadingFrom(s: string, i: nat): (n: nat)
    requires i <= |s|
    requires forall k :: 0 <= k < i ==> IsJsWhitespace(s[k])
    ensures i <= n <= |s|
    ensures forall k :: 0 <= k < n ==> IsJsWhitespace(s[k])
    ensures n < |s| ==> !IsJsWhitespace(s[n])
    decreases |s| - i
  {
    if i < |s| && IsJsWhitespace(s[i]) then LeadingFrom(s, i + 1) else i
  }

  /** The number of whitespace characters `s` starts with. */
  function LeadingWhitespace(s: string): (n: nat)
    ensures n <= |s|
    ensures forall k :: 0 <= k < n ==> IsJsWhitespace(s[k])
    ensures n < |s| ==> !IsJsWhitespace(s[n])
  {
    LeadingFrom(s, 0)
  }

  /** Where the trailing whitespace of `s` starts, scanning down from position `j`. */
  function TrailingFrom(s: string, j: nat): (m: nat)
    requires j <= |s|
    requires forall k :: j <= k < |s| ==> IsJsWhitespace(s[k])
    ensures m <= j
    ensures forall k :: m <= k < |s| ==> IsJsWhitespace(s[k])
    ensures m > 0 ==> !IsJsWhitespace(s[m - 1])
  {
    if j > 0 && IsJsWhitespace(s[j - 1]) then TrailingFrom(s, j - 1) else j
  }

  /** The position where the whitespace `s` ends with starts. */
  function TrailingWhitespace(s: string): (m: nat)
    ensures m <= |s|
    ensures forall k :: m <= k < |s| ==> IsJsWhitespace(s[k])
    ensures m > 0 ==> !IsJsWhitespace(s[m - 1])
  {
    TrailingFrom(s, |s|)
  }

  /** `s` neither starts nor ends with whitespace. */
  predicate Trimmed(s: string) {
    |s| == 0 || (!IsJsWhitespace(s[0]) && !IsJsWhitespace(s[|s| - 1]))
  }

  /**
   * `trim`: the slice of `s` after its leading whitespace, with only whitespace
   * after it and none at its own ends; it is empty exactly when `s` is all whitespace.
   */
  function Trim(s: string): (r: string)
    ensures Trimmed(r)
    ensures var k := LeadingWhitespace(s);
      && k + |r| <= |s|
      && r == s[k..k + |r|]
      && forall i :: k + |r| <= i < |s| ==> IsJsWhitespace(s[i])
    ensures r == [] <==> AllWhitespace(s)
  {
    var k := LeadingWhitespace(s);
    if k == |s| then []
    else
      var m := TrailingWhitespace(s);
      assert !AllWhitespace(s) by {
        assert !IsJsWhitespace(s[k]);
      }
      s[k..m]
  }

  /** Trimming a string without whitespace at its ends changes nothing. */
  lemma TrimOfTrimmed(s: string)
    requires Trimmed(s)
    ensures Trim(s) == s
  {
  }

  /** Trimming twice is trimming once. */
  lemma TrimIdempotent(s: string)
    ensures Trim(Trim(s)) == Trim(s)
  {
    TrimOfTrimmed(Trim(s));
  }

  /** The capitals `toLowerCase` maps here: ASCII `A`..`Z` and the Latin-1 capitals `À`..`Þ` (except `×`). */
  predicate IsCapital(c: char) {
    'A' <= c <= 'Z' || ('\U{C0}' <= c <= '\U{DE}' && c != '\U{D7}')
  }

  /** The small letters paired with those capitals: `a`..`z` and `à`..`þ` (except `÷`). */
  predicate IsSmall(c: char) {
    'a' <= c <= 'z' || ('\U{E0}' <= c <= '\U{FE}' && c != '\U{F7}')
  }

  /** The capital of a small letter: in both blocks it sits 32 code points lower. */
  function UpperChar(c: char): (u: char)
    requires IsSmall(c)
    ensures IsCapital(u)
  {
    (c as int - 32) as char
  }

  /**
   * The lower-case form of one character: a capital becomes the small letter it is
   * the capital of, any other character is kept, and whitespace stays whitespace.
   */
  function LowerChar(c: char): (l: char)
    ensures IsCapital(c) ==> IsSmall(l) && UpperChar(l) == c
    ensures !IsCapital(l)
    ensures !IsCapital(c) ==> l == c
    ensures IsJsWhitespace(l) <==> IsJsWhitespace(c)
  {
    if IsCapital(c) then (c as int + 32) as char else c
  }

  /**
   * `toLowerCase`, character by character: the result has no capitals left,
   * whitespace stays where it was, and a trimmed string stays trimmed.
   */
  function Lower(s: string): (r: string)
    ensures |r| == |s|
    ensures forall i :: 0 <= i < |s| ==> r[i] == LowerChar(s[i])
    ensures forall i :: 0 <= i < |r| ==> !IsCapital(r[i])
    ensures forall i :: 0 <= i < |r| ==> (IsJsWhitespace(r[i]) <==> IsJsWhitespace(s[i]))
    ensures Trimmed(s) ==> Trimmed(r)
  {
    seq(|s|, i requires 0 <= i < |s| => LowerChar(s[i]))
  }

  /** A string without capitals is its own lower-case form. */
  lemma LowerOfLower(s: string)
    requires forall i :: 0 <= i < |s| ==> !IsCapital(s[i])
    ensures Lower(s) == s
  {
  }

  /** Lower-casing twice is lower-casing once. */
  lemma LowerIdempotent(s: string)
    ensures Lower(Lower(s)) == Lower(s)
  {
    LowerOfLower(Lower(s));
  }

  /** Lower-casing the capital of a small letter gives the letter back. */
  lemma LowerOfUpper(c: char)
    requires IsSmall(c)
    ensures LowerChar(UpperChar(c)) == c
    ensures LowerChar(c) == LowerChar(UpperChar(c))
  {
  }

  /** `a` is `b` with some of its small letters written as capitals. */
  predicate CaseVariant(a: string, b: string) {
    && |a| == |b|
    && forall i :: 0 <= i < |a| ==> a[i] == b[i] || (IsSmall(b[i]) && a[i] == UpperChar(b[i]))
  }

  /** `a` and `b` have whitespace at the same positions. */
  predicate SameWhitespace(a: string, b: string) {
    && |a| == |b|
    && forall i :: 0 <= i < |a| ==> (IsJsWhitespace(a[i]) <==> IsJsWhitespace(b[i]))
  }

  /** Letters are not whitespace, so a case variant keeps the whitespace where it was. */
  lemma CaseVariantSameWhitespace(a: string, b: string)
    requires CaseVariant(a, b)
    ensures SameWhitespace(a, b)
  {
  }

  /** Strings with whitespace at the same positions start with the same amount of it. */
  lemma LeadingSameWhitespace(a: string, b: string)
    requires SameWhitespace(a, b)
    ensures LeadingWhitespace(a) == LeadingWhitespace(b)
  {
    var ka, kb := LeadingWhitespace(a), LeadingWhitespace(b);
    assert ka < |a| ==> !IsJsWhitespace(b[ka]);
    assert kb < |b| ==> !IsJsWhitespace(a[kb]);
  }

  /** Strings with whitespace at the same positions are blank together. */
  lemma BlankSameWhitespace(a: string, b: string)
    requires SameWhitespace(a, b)
    ensures AllWhitespace(a) <==> AllWhitespace(b)
  {
  }

  /** Strings with whitespace at the same positions are trimmed at the same positions. */
  lemma TrimSameWhitespace(a: string, b: string)
    requires SameWhitespace(a, b)
    ensures LeadingWhitespace(a) == LeadingWhitespace(b)
    ensures |Trim(a)| == |Trim(b)|
  {
    LeadingSameWhitespace(a, b);
    BlankSameWhitespace(a, b);
    var k, ra, rb := LeadingWhitespace(a), Trim(a), Trim(b);
    assert ra != [] ==> !IsJsWhitespace(b[k + |ra| - 1]);
    assert rb != [] ==> !IsJsWhitespace(a[k + |rb| - 1]);
  }

  /** Writing small letters as capitals does not change the lower-case form. */
  lemma LowerIgnoresCase(a: string, b: string)
    requires CaseVariant(a, b)
    ensures Lower(a) == Lower(b)
  {
    forall i | 0 <= i < |a|
      ensures LowerChar(a[i]) == LowerChar(b[i])
    {
      if a[i] != b[i] {
        LowerOfUpper(b[i]);
      }
    }
  }

  /** Trimming a case variant gives a case variant of the trimmed string. */
  lemma TrimIgnoresCase(a: string, b: string)
    requires CaseVariant(a, b)
    ensures CaseVariant(Trim(a), Trim(b))
  {
    CaseVariantSameWhitespace(a, b);
    TrimSameWhitespace(a, b);
    var k, ra, rb := LeadingWhitespace(a), Trim(a), Trim(b);
    forall i | 0 <= i < |ra|
      ensures ra[i] == rb[i] || (IsSmall(rb[i]) && ra[i] == UpperChar(rb[i]))
    {
      assert ra[i] == a[k + i] && rb[i] == b[k + i];
    }
  }

  /**
   * Lexicographic order on character codes, a shorter prefix first; it stands
   * for the locale comparison `a.localeCompare(b) <= 0`.
   */
  predicate LexLe(a: string, b: string)
    decreases |a|
  {
    |a| == 0 || (|b| > 0 && (a[0] < b[0] || (a[0] == b[0] && LexLe(a[1..], b[1..]))))
  }

  /** Any two strings compare. */
  lemma {:induction false} LexLeTotal(a: string, b: string)
    ensures LexLe(a, b) || LexLe(b, a)
    decreases |a|
  {
    if |a| > 0 && |b| > 0 && a[0] == b[0] {
      LexLeTotal(a[1..], b[1..]);
    }
  }

  /** The order chains. */
  lemma {:induction false} LexLeTransitive(a: string, b: string, c: string)
    requires LexLe(a, b) && LexLe(b, c)
    ensures LexLe(a, c)
    decreases |a|
  {
    if |a| > 0 && a[0] == b[0] && b[0] == c[0] {
      LexLeTransitive(a[1..], b[1..], c[1..]);
    }
  }

  /** Strings that compare both ways are equal. */
  lemma {:induction false} LexLeAntisymmetric(a: string, b: string)
    requires LexLe(a, b) && LexLe(b, a)
    ensures a == b
    decreases |a|
  {
    if |a| > 0 {
      LexLeAntisymmetric(a[1..], b[1..]);
      assert a == [a[0]] + a[1..];
      assert b == [b[0]] + b[1..];
    }
  }
}
