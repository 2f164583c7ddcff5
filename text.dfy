/** String primitives the task page relies on: JavaScript's String.prototype.trim,
    and the case folding and literal search that a case-insensitive, non-Unicode
    RegExp performs when its pattern is a lower-case ASCII word. */
module Text {

  // ---------------------------------------------------------------------------
  // Whitespace and trim
  // ---------------------------------------------------------------------------

  /** The code points String.prototype.trim strips: ECMAScript WhiteSpace (TAB, VT,
      FF, ZWNBSP and the Unicode category Zs) and LineTerminator (LF, CR, LS, PS). */
  predicate IsWhitespace(c: char) {
    c == '\t' || c == '\n' || c == '\U{000B}' || c == '\U{000C}' || c == '\r' ||
    c == ' ' || c == '\U{00A0}' || c == '\U{1680}' ||
    ('\U{2000}' <= c <= '\U{200A}') ||
    c == '\U{2028}' || c == '\U{2029}' || c == '\U{202F}' || c == '\U{205F}' ||
    c == '\U{3000}' || c == '\U{FEFF}'
  }

  predicate AllWhitespace(s: string) {
    forall k :: 0 <= k < |s| ==> IsWhitespace(s[k])
  }

  /** Drops leading whitespace: the result is a suffix of s, everything dropped is
      whitespace, and the result does not start with whitespace. */
  function TrimStart(s: string): (r: string)
    ensures |r| <= |s| && r == s[|s| - |r|..]
    ensures forall k :: 0 <= k < |s| - |r| ==> IsWhitespace(s[k])
    ensures r == [] || !IsWhitespace(r[0])
  {
    if s != [] && IsWhitespace(s[0]) then TrimStart(s[1..]) else s
  }

  /** Drops trailing whitespace: the result is a prefix of s, everything dropped is
      whitespace, and the result does not end with whitespace. */
  function TrimEnd(s: string): (r: string)
    ensures |r| <= |s| && r == s[..|r|]
    ensures forall k :: |r| <= k < |s| ==> IsWhitespace(s[k])
    ensures r == [] || !IsWhitespace(r[|r| - 1])
  {
    if s != [] && IsWhitespace(s[|s| - 1]) then TrimEnd(s[..|s| - 1]) else s
  }

  /** String.prototype.trim. The result is a contiguous piece of s that neither starts
      nor ends with whitespace, and it is empty exactly when s is all whitespace. */
  function Trim(s: string): (r: string)
    ensures r == [] || (!IsWhitespace(r[0]) && !IsWhitespace(r[|r| - 1]))
    ensures r == [] <==> AllWhitespace(s)
  {
    var t := TrimStart(s);
    var r := TrimEnd(t);
    assert r == [] ==> AllWhitespace(s) by {
      if r == [] {
        forall k | 0 <= k < |s| ensures IsWhitespace(s[k]) {
          if k >= |s| - |t| {
            assert s[k] == t[k - (|s| - |t|)];
          }
        }
      }
    }
    r
  }

  // ---------------------------------------------------------------------------
  // ASCII case folding
  // ---------------------------------------------------------------------------

  function LowerChar(c: char): char {
    if 'A' <= c <= 'Z' then (c as int - 'A' as int + 'a' as int) as char else c
  }

  /** Folds the ASCII capitals of s to lower case, leaving every other character alone. */
  function Lower(s: string): string {
    seq(|s|, k requires 0 <= k < |s| => LowerChar(s[k]))
  }

  // ---------------------------------------------------------------------------
  // Literal search
  // ---------------------------------------------------------------------------

  /** w occurs in s starting at position i. */
  predicate OccursAt(s: string, w: string, i: int) {
    0 <= i && i + |w| <= |s| && s[i..i + |w|] == w
  }

  /** The scan a RegExp test makes for a literal word: try each start position
      from the left until the word matches there. */
  function Contains(s: string, w: string): bool
    decreases |s|
  {
    if |s| < |w| then false
    else if s[..|w|] == w then true
    else Contains(s[1..], w)
  }

  /** The scan finds the word exactly when it occurs somewhere. */
  lemma {:induction false} ContainsIff(s: string, w: string)
    ensures Contains(s, w) <==> exists i :: OccursAt(s, w, i)
    decreases |s|
  {
    if |s| < |w| {
    } else if s[..|w|] == w {
      assert OccursAt(s, w, 0);
    } else {
      ContainsIff(s[1..], w);
      if Contains(s[1..], w) {
        var i :| OccursAt(s[1..], w, i);
        assert s[1..][i..i + |w|] == s[i + 1..i + 1 + |w|];
        assert OccursAt(s, w, i + 1);
      }
      if exists i :: OccursAt(s, w, i) {
        var i :| OccursAt(s, w, i);
        assert i != 0;
        assert s[1..][i - 1..i - 1 + |w|] == s[i..i + |w|];
        assert OccursAt(s[1..], w, i - 1);
      }
    }
  }

  /** A word with a character that s lacks is not found in s. */
  lemma MissingCharNotContained(s: string, w: string, j: int)
    requires 0 <= j < |w|
    requires forall i :: 0 <= i < |s| ==> s[i] != w[j]
    ensures !Contains(s, w)
  {
    ContainsIff(s, w);
    forall i | 0 <= i ensures !OccursAt(s, w, i) {
      if i + |w| <= |s| {
        assert s[i..i + |w|][j] == s[i + j];
      }
    }
  }

  /** An occurrence survives any text put around it: the search is unanchored. */
  lemma OccursInContext(p: string, s: string, q: string, w: string, i: int)
    requires OccursAt(s, w, i)
    ensures OccursAt(p + s + q, w, |p| + i)
  {
    assert (p + s + q)[|p| + i..|p| + i + |w|] == s[i..i + |w|];
  }

  /** Case folding distributes over concatenation. */
  lemma LowerConcat(a: string, b: string)
    ensures Lower(a + b) == Lower(a) + Lower(b)
  {
  }
}
