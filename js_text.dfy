/** The two string primitives of ECMAScript that the translator relies on:
    `String.prototype.trim` and `String.prototype.includes`. */
module JsText {

  /** The characters ECMAScript's `trim` removes: WhiteSpace (TAB, VT, FF,
      ZWNBSP and every space separator of category Zs) and LineTerminator
      (LF, CR, LS, PS). */
  predicate IsWhitespace(c: char) {
    c == '\t' || c == '\U{000B}' || c == '\U{000C}' || c == ' ' || c == '\U{00A0}' ||
    c == '\U{FEFF}' || c == '\U{1680}' || ('\U{2000}' <= c <= '\U{200A}') ||
    c == '\U{202F}' || c == '\U{205F}' || c == '\U{3000}' ||
    c == '\n' || c == '\r' || c == '\U{2028}' || c == '\U{2029}'
  }

  /** Every character of `s` is whitespace (the empty string included). */
  predicate IsBlank(s: string) {
    forall i :: 0 <= i < |s| ==> IsWhitespace(s[i])
  }

  /** The first index at or after `i` that holds no whitespace, or `|s|`. */
  function SkipForward(s: string, i: nat): (k: nat)
    requires i <= |s|
    ensures i <= k <= |s|
    ensures forall j :: i <= j < k ==> IsWhitespace(s[j])
    ensures k == |s| || !IsWhitespace(s[k])
    decreases |s| - i
  {
    if i < |s| && IsWhitespace(s[i]) then SkipForward(s, i + 1) else i
  }

  /** The index just past the last non-whitespace character in
      `s[lo..hi]`, or `lo` when there is none. */
  function SkipBackward(s: string, lo: nat, hi: nat): (k: nat)
    requires lo <= hi <= |s|
    ensures lo <= k <= hi
    ensures forall j :: k <= j < hi ==> IsWhitespace(s[j])
    ensures k == lo || !IsWhitespace(s[k - 1])
    decreases hi
  {
    if lo < hi && IsWhitespace(s[hi - 1]) then SkipBackward(s, lo, hi - 1) else hi
  }

  /** `r` is the piece of `s` that starts at `lo`, with only whitespace
      before and after it. */
  predicate PieceAmidWhitespace(s: string, lo: int, r: string) {
    0 <= lo <= |s| - |r| && s[lo..lo + |r|] == r &&
    (forall j :: 0 <= j < lo ==> IsWhitespace(s[j])) &&
    (forall j :: lo + |r| <= j < |s| ==> IsWhitespace(s[j]))
  }

  /** `s.trim()`: a contiguous piece of `s` with whitespace only around it,
      and neither starting nor ending with whitespace. */
  function Trim(s: string): (r: string)
    ensures exists lo :: PieceAmidWhitespace(s, lo, r)
    ensures r == [] || (!IsWhitespace(r[0]) && !IsWhitespace(r[|r| - 1]))
    ensures r == [] <==> IsBlank(s)
  {
    var lo := SkipForward(s, 0);
    var hi := SkipBackward(s, lo, |s|);
    var r := s[lo..hi];
    assert PieceAmidWhitespace(s, lo, r);
    assert r != [] ==> r[0] == s[lo] && r[|r| - 1] == s[hi - 1];
    assert r == [] ==> IsBlank(s);
    assert IsBlank(s) ==> lo == |s|;
    r
  }

  /** A string that starts and ends with a non-whitespace character is its
      own trim. */
  lemma TrimOfTrimmed(s: string)
    requires s == [] || (!IsWhitespace(s[0]) && !IsWhitespace(s[|s| - 1]))
    ensures Trim(s) == s
  {
    var lo := SkipForward(s, 0);
    assert lo == 0;
    var hi := SkipBackward(s, lo, |s|);
    assert hi == |s|;
    assert s[lo..hi] == s;
  }

  /** Trimming twice is trimming once. */
  lemma TrimIdempotent(s: string)
    ensures Trim(Trim(s)) == Trim(s)
  {
    TrimOfTrimmed(Trim(s));
  }

  /** Trimming a string that starts with a non-whitespace character keeps
      its first `n` characters whenever the one at `n - 1` is not
      whitespace. */
  lemma TrimKeepsPrefix(s: string, n: nat)
    requires 0 < n <= |s| && !IsWhitespace(s[0]) && !IsWhitespace(s[n - 1])
    ensures n <= |Trim(s)| && Trim(s)[..n] == s[..n]
  {
    var lo := SkipForward(s, 0);
    assert lo == 0;
    var hi := SkipBackward(s, lo, |s|);
    assert hi >= n;
    assert Trim(s) == s[..hi];
  }

  /** `sub` appears in `s` at position `i`. */
  predicate OccursAt(s: string, sub: string, i: int) {
    0 <= i <= |s| - |sub| && s[i..i + |sub|] == sub
  }

  /** `s.includes(sub)`: `sub` appears somewhere in `s`. */
  function Contains(s: string, sub: string): (r: bool)
    ensures r <==> exists i :: OccursAt(s, sub, i)
    decreases |s|
  {
    if |sub| > |s| then
      false
    else if s[..|sub|] == sub then
      assert OccursAt(s, sub, 0);
      true
    else
      var r := Contains(s[1..], sub);
      assert r ==> exists i :: OccursAt(s, sub, i) by {
        if r {
          var i :| OccursAt(s[1..], sub, i);
          assert s[1..][i..i + |sub|] == s[i + 1..i + 1 + |sub|];
          assert OccursAt(s, sub, i + 1);
        }
      }
      assert (exists i :: OccursAt(s, sub, i)) ==> r by {
        if exists i :: OccursAt(s, sub, i) {
          var i :| OccursAt(s, sub, i);
          assert i != 0;
          assert s[1..][i - 1..i - 1 + |sub|] == s[i..i + |sub|];
          assert OccursAt(s[1..], sub, i - 1);
        }
      }
      r
  }

  /** A string includes every piece placed in it. */
  lemma ContainsMiddle(a: string, b: string, c: string)
    ensures Contains(a + b + c, b)
  {
    assert (a + b + c)[|a|..|a| + |b|] == b;
    assert OccursAt(a + b + c, b, |a|);
  }
}
