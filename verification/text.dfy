/** String operations of the JavaScript runtime that the contact form relies on:
    the whitespace class shared by `\s` and `String.prototype.trim`, `trim`
    itself, and `replace` with a one-character string pattern (which replaces
    the first occurrence only). `IndexOf` is this model's own first-occurrence
    helper, used to state what `replace` does; the code never calls `indexOf`. */
module Text {

  /** ECMAScript WhiteSpace and LineTerminator code points: exactly what a
      regular expression's `\s` matches and what `trim` strips. */
  predicate IsSpace(c: char)
  {
    || ('\U{0009}' <= c <= '\U{000D}')
    || c == ' '
    || c == '\U{00A0}'
    || c == '\U{1680}'
    || ('\U{2000}' <= c <= '\U{200A}')
    || c == '\U{2028}'
    || c == '\U{2029}'
    || c == '\U{202F}'
    || c == '\U{205F}'
    || c == '\U{3000}'
    || c == '\U{FEFF}'
  }

  /** Every character of `s` is whitespace (vacuously true of ""). */
  predicate AllSpace(s: string)
  {
    SpaceBetween(s, 0, |s|)
  }

  /** Every character of `s` at a position in [lo, hi) is whitespace. */
  predicate SpaceBetween(s: string, lo: int, hi: int)
    requires 0 <= lo && hi <= |s|
  {
    forall k :: lo <= k < hi ==> IsSpace(s[k])
  }

  /** The first position at or after `i` that holds no whitespace (|s| if
      none): where the text starts once leading whitespace is dropped. */
  function SkipSpaceForward(s: string, i: nat): (a: nat)
    requires i <= |s|
    ensures i <= a <= |s|
    ensures SpaceBetween(s, i, a)
    ensures a < |s| ==> !IsSpace(s[a])
    decreases |s| - i
  {
    if i < |s| && IsSpace(s[i]) then SkipSpaceForward(s, i + 1) else i
  }

  /** The smallest `b` with `lo <= b <= j` such that s[b..j] is all
      whitespace: where the text ends once trailing whitespace is dropped. */
  function SkipSpaceBackward(s: string, lo: nat, j: nat): (b: nat)
    requires lo <= j <= |s|
    ensures lo <= b <= j
    ensures SpaceBetween(s, b, j)
    ensures b > lo ==> !IsSpace(s[b - 1])
    decreases j
  {
    if j > lo && IsSpace(s[j - 1]) then SkipSpaceBackward(s, lo, j - 1) else j
  }

  /** `r` is the infix of `s` starting at `a`, and everything of `s` outside
      it is whitespace. */
  predicate TrimmedAt(s: string, r: string, a: int)
  {
    && 0 <= a <= |s| - |r|
    && r == s[a..a + |r|]
    && SpaceBetween(s, 0, a)
    && SpaceBetween(s, a + |r|, |s|)
  }

  /** `String.prototype.trim`: `s` without leading and trailing whitespace.
      The result is the infix of `s` left after dropping an all-whitespace
      prefix and an all-whitespace suffix, it does not itself begin or end
      with whitespace, and it is empty exactly when `s` is all whitespace. */
  function Trim(s: string): (r: string)
    ensures r == [] <==> AllSpace(s)
    ensures r != [] ==> !IsSpace(r[0]) && !IsSpace(r[|r| - 1])
    ensures exists a :: TrimmedAt(s, r, a)
  {
    var a := SkipSpaceForward(s, 0);
    var b := SkipSpaceBackward(s, a, |s|);
    assert TrimmedAt(s, s[a..b], a);
    s[a..b]
  }

  /** Trimming is idempotent. */
  lemma TrimIdempotent(s: string)
    ensures Trim(Trim(s)) == Trim(s)
  {
  }

  /** The position of the first occurrence of `c` in `s`, or |s| when it
      does not occur (where JavaScript's `indexOf` would answer -1). */
  function IndexOf(s: string, c: char): (k: nat)
    ensures k <= |s|
    ensures k < |s| ==> s[k] == c
    ensures c !in s[..k]
    ensures k == |s| <==> c !in s
  {
    if s == [] then 0
    else if s[0] == c then 0
    else
      var k := IndexOf(s[1..], c);
      assert s[..k + 1] == [s[0]] + s[1..][..k];
      k + 1
  }

  /** `s.replace(from, to)` for one-character string arguments: only the
      first occurrence of `from` is replaced. A string without `from` comes
      back unchanged; otherwise the character at the first occurrence
      becomes `to` and everything before and after it, later occurrences of
      `from` included, is kept. */
  function ReplaceFirst(s: string, from: char, to: char): (r: string)
    ensures |r| == |s|
    ensures from !in s ==> r == s
    ensures from in s ==>
              var k := IndexOf(s, from);
              r == s[..k] + [to] + s[k + 1..]
  {
    if s == [] then []
    else if s[0] == from then [to] + s[1..]
    else
      assert from in s[1..] ==>
        var k := IndexOf(s[1..], from); s[..k + 1] == [s[0]] + s[1..][..k];
      [s[0]] + ReplaceFirst(s[1..], from, to)
  }

  /** Whichever way the first occurrence is found: when `from` occurs at
      `k` and nowhere before, `replace` yields the text before `k`, then
      `to`, then the untouched rest. */
  lemma ReplaceFirstAt(s: string, from: char, to: char, k: nat)
    requires k < |s| && s[k] == from && from !in s[..k]
    ensures ReplaceFirst(s, from, to) == s[..k] + [to] + s[k + 1..]
  {
  }
}
