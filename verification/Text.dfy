/**
 * The two string operations the grocery search relies on: lower-casing
 * (JavaScript's `String.prototype.toLowerCase`, restricted here to the ASCII
 * letters) and substring search (`String.prototype.includes`).
 *
 * `Contains` is the declarative meaning of "is a substring of"; `Includes` is
 * the left-to-right scan over start indices that the filter evaluates, and its
 * contract states that the two agree on every input.
 */
module Text {

  /** An ASCII upper-case letter. */
  predicate IsUpper(c: char) {
    'A' <= c <= 'Z'
  }

  /** Lower-cases one character: ASCII capitals map to their small letter, everything else is unchanged. */
  function ToLowerChar(c: char): (r: char)
    ensures !IsUpper(r)
    ensures IsUpper(c) ==> 'a' <= r <= 'z' && r as int - 'a' as int == c as int - 'A' as int
    ensures !IsUpper(c) ==> r == c
  {
    if IsUpper(c) then (c as int - 'A' as int + 'a' as int) as char else c
  }

  /**
   * Lower-cases a string character by character: each character is replaced
   * by its lower-case form in place, so no capital letter is left, every other
   * character stays where it was, and the length never changes.
   */
  function ToLower(s: string): (r: string)
    ensures |r| == |s|
    ensures forall i :: 0 <= i < |s| ==> r[i] == ToLowerChar(s[i])
    ensures forall i :: 0 <= i < |r| ==> !IsUpper(r[i])
    ensures forall i :: 0 <= i < |s| && !IsUpper(s[i]) ==> r[i] == s[i]
  {
    seq(|s|, i requires 0 <= i < |s| => ToLowerChar(s[i]))
  }

  /** `sub` occurs in `s` starting at index `i`. */
  ghost predicate OccursAt(s: string, sub: string, i: int) {
    0 <= i && i + |sub| <= |s| && s[i..i + |sub|] == sub
  }

  /** `sub` is a substring of `s`: it occurs at some index. */
  ghost predicate Contains(s: string, sub: string) {
    exists i :: OccursAt(s, sub, i)
  }

  /**
   * Compares `sub[k..]` with `s` character by character, `sub[k]` against
   * `s[from + k]` first, stopping at the first difference.  It succeeds exactly
   * when the rest of `sub` lines up with `s` shifted by `from`.
   */
  predicate MatchesAt(s: string, sub: string, from: nat, k: nat): (b: bool)
    requires from + |sub| <= |s| && k <= |sub|
    ensures b <==> forall j :: k <= j < |sub| ==> s[from + j] == sub[j]
    decreases |sub| - k
  {
    k == |sub| || (s[from + k] == sub[k] && MatchesAt(s, sub, from, k + 1))
  }

  /**
   * The scan `s.includes(sub)` performs: try `sub` at each start index
   * `from`, `from + 1`, ..., as long as `sub` still fits in `s`.  It finds
   * `sub` exactly when `sub` occurs at some index `from` or later.
   */
  predicate IncludesFrom(s: string, sub: string, from: nat): (b: bool)
    ensures b <==> exists k :: from <= k && OccursAt(s, sub, k)
    decreases |s| - from
  {
    if from + |sub| > |s| then
      assert forall k :: from <= k ==> !OccursAt(s, sub, k);
      false
    else if MatchesAt(s, sub, from, 0) then
      assert OccursAt(s, sub, from);
      true
    else
      assert !OccursAt(s, sub, from);
      IncludesFrom(s, sub, from + 1)
  }

  /**
   * `s.includes(sub)`: the scan started at index 0.  It holds exactly when
   * `sub` is a substring of `s`; in particular the empty string is included in
   * every string.
   */
  predicate Includes(s: string, sub: string): (b: bool)
    ensures b <==> Contains(s, sub)
  {
    IncludesFrom(s, sub, 0)
  }

  /** The empty string is a substring of every string. */
  lemma EmptyContained(s: string)
    ensures Contains(s, "")
  {
    assert OccursAt(s, "", 0);
  }

  /** Substring is transitive: a substring of a substring of `s` is a substring of `s`. */
  lemma ContainsTransitive(a: string, b: string, c: string)
    requires Contains(a, b) && Contains(b, c)
    ensures Contains(a, c)
  {
    var i :| OccursAt(a, b, i);
    var j :| OccursAt(b, c, j);
    forall k | 0 <= k < |c|
      ensures a[i + j..i + j + |c|][k] == c[k]
    {
      assert c[k] == b[j + k] == a[i + (j + k)];
    }
    assert OccursAt(a, c, i + j);
  }

  /** Lower-casing a string is the same as lower-casing any slice of it in place. */
  lemma ToLowerSlice(s: string, i: int, j: int)
    requires 0 <= i <= j <= |s|
    ensures ToLower(s[i..j]) == ToLower(s)[i..j]
  {
    assert forall k :: 0 <= k < j - i ==> ToLower(s[i..j])[k] == ToLower(s)[i..j][k];
  }

  /** Lower-casing both sides keeps a substring a substring. */
  lemma ToLowerPreservesContains(s: string, sub: string)
    requires Contains(s, sub)
    ensures Contains(ToLower(s), ToLower(sub))
  {
    var i :| OccursAt(s, sub, i);
    ToLowerSlice(s, i, i + |sub|);
    assert OccursAt(ToLower(s), ToLower(sub), i);
  }

  /** Lower-casing twice is lower-casing once. */
  lemma ToLowerIdempotent(s: string)
    ensures ToLower(ToLower(s)) == ToLower(s)
  {
    assert forall k :: 0 <= k < |s| ==> ToLower(ToLower(s))[k] == ToLower(s)[k];
  }
}
