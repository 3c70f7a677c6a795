/** Character-level helpers the page script relies on: `String.prototype.trim`,
    the case-insensitive comparison of the regular expression's `i` flag, and
    the search that `RegExp.prototype.exec` performs for a literal pattern. */
module Strings {

  datatype Option<T> = None | Some(value: T)

  /** The ECMAScript WhiteSpace and LineTerminator code points outside the block of
      spaces U+2000..U+200A. */
  const SpaceChars: set<char> := {
    ' ', '\t', '\n', '\r', '\U{B}', '\U{C}', '\U{A0}', '\U{1680}',
    '\U{2028}', '\U{2029}', '\U{202F}', '\U{205F}', '\U{3000}', '\U{FEFF}'
  }

  /** The code points `trim` strips: ECMAScript WhiteSpace and LineTerminator. */
  predicate IsSpace(c: char) {
    c in SpaceChars || '\U{2000}' <= c <= '\U{200A}'
  }

  predicate AllSpace(s: string) {
    forall k :: 0 <= k < |s| ==> IsSpace(s[k])
  }

  /** The first offset at or after `i` that is not white space, or `|s|`. */
  function SkipLeading(s: string, i: nat): (n: nat)
    requires i <= |s|
    ensures i <= n <= |s|
    ensures forall k :: i <= k < n ==> IsSpace(s[k])
    ensures n < |s| ==> !IsSpace(s[n])
    decreases |s| - i
  {
    if i < |s| && IsSpace(s[i]) then SkipLeading(s, i + 1) else i
  }

  /** The offset just after the last character in `[lo, j)` that is not white space, or `lo`. */
  function SkipTrailing(s: string, lo: nat, j: nat): (n: nat)
    requires lo <= j <= |s|
    ensures lo <= n <= j
    ensures forall k :: n <= k < j ==> IsSpace(s[k])
    ensures n > lo ==> !IsSpace(s[n - 1])
    decreases j
  {
    if j > lo && IsSpace(s[j - 1]) then SkipTrailing(s, lo, j - 1) else j
  }

  /** Where the text `trim` keeps starts and ends. */
  function TrimBegin(s: string): nat {
    SkipLeading(s, 0)
  }

  function TrimStop(s: string): (j: nat)
    ensures TrimBegin(s) <= j <= |s|
  {
    SkipTrailing(s, TrimBegin(s), |s|)
  }

  /** `String.prototype.trim` (script.js:97): `s` without white space at either end. Its
      properties are TrimIsSlice and TrimEmptyIff. */
  function Trim(s: string): string {
    s[TrimBegin(s)..TrimStop(s)]
  }

  /** Everything `trim` cuts off at either end is white space, and the first and last
      characters it keeps are not. */
  lemma TrimIsSlice(s: string)
    ensures AllSpace(s[..TrimBegin(s)]) && AllSpace(s[TrimStop(s)..])
    ensures Trim(s) != [] ==> !IsSpace(Trim(s)[0]) && !IsSpace(Trim(s)[|Trim(s)| - 1])
  {
    var i, j := TrimBegin(s), TrimStop(s);
    assert forall k :: 0 <= k < i ==> s[..i][k] == s[k];
    assert forall k :: 0 <= k < |s| - j ==> s[j..][k] == s[j + k];
  }

  /** The trimmed query is empty exactly when the input was empty or white space only. */
  lemma TrimEmptyIff(s: string)
    ensures Trim(s) == [] <==> AllSpace(s)
  {
    var i, j := TrimBegin(s), TrimStop(s);
    if AllSpace(s) {
      assert i == |s|;
    }
  }

  /** ASCII case fold: upper-case Latin letters map to lower case, everything else to itself. */
  function Fold(c: char): (r: char)
    ensures 'A' <= c <= 'Z' ==> r as int == c as int + 32
    ensures !('A' <= c <= 'Z') ==> r == c
  {
    if 'A' <= c <= 'Z' then (c as int + 32) as char else c
  }

  /** `s` with every character case-folded. */
  function Folded(s: string): (r: string)
    ensures |r| == |s|
  {
    if s == [] then [] else [Fold(s[0])] + Folded(s[1..])
  }

  /** Two strings are equal up to ASCII case. */
  predicate EqualsIgnoreCase(a: string, b: string) {
    Folded(a) == Folded(b)
  }

  /** The literal query `q` occurs, up to ASCII case, at offset `i` of `text`. */
  predicate MatchesAt(text: string, i: nat, q: string) {
    i + |q| <= |text| && EqualsIgnoreCase(text[i..i + |q|], q)
  }

  /** No match of `q` starts at any offset in `[lo, hi)`. */
  predicate NoMatchIn(text: string, q: string, lo: nat, hi: nat) {
    forall p :: lo <= p < hi ==> !MatchesAt(text, p, q)
  }

  /** The leftmost match at or after `from`, which is what `regex.exec` returns when
      its `lastIndex` is `from`; `None` is the `null` that ends the scan. */
  function NextMatch(text: string, q: string, from: nat): (r: Option<nat>)
    requires from <= |text|
    ensures r.Some? ==> from <= r.value && MatchesAt(text, r.value, q) && NoMatchIn(text, q, from, r.value)
    ensures r.None? ==> NoMatchIn(text, q, from, |text| + 1)
    decreases |text| - from
  {
    if from + |q| > |text| then None
    else if MatchesAt(text, from, q) then Some(from)
    else NextMatch(text, q, from + 1)
  }

  /** The scan finds something exactly when a match starts somewhere after `from`. */
  lemma NextMatchFindsAny(text: string, q: string, from: nat)
    requires from <= |text|
    ensures NextMatch(text, q, from).Some? <==> exists p :: from <= p <= |text| && MatchesAt(text, p, q)
  {
    var r := NextMatch(text, q, from);
    if r.Some? {
      assert from <= r.value <= |text| && MatchesAt(text, r.value, q);
    }
  }

  /** A match at `i` with none in `[from, i)` is the one the scan finds next. */
  lemma NextMatchIs(text: string, q: string, from: nat, i: nat)
    requires from <= i && MatchesAt(text, i, q) && NoMatchIn(text, q, from, i)
    ensures from <= |text| && NextMatch(text, q, from) == Some(i)
  {
  }

  lemma ConcatAssoc(a: string, b: string, c: string)
    ensures (a + b) + c == a + (b + c)
  {
  }

  /** There is only one leftmost match after `from`. */
  lemma LeftmostMatchUnique(text: string, q: string, from: nat, i: nat, i': nat)
    requires from <= i && MatchesAt(text, i, q) && NoMatchIn(text, q, from, i)
    requires from <= i' && MatchesAt(text, i', q) && NoMatchIn(text, q, from, i')
    ensures i == i'
  {
  }
}
