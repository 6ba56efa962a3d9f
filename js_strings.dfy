/** The JavaScript string primitives the selector parser relies on:
    `String.prototype.trim`, `toLowerCase` and `substring`. */
module JsStrings {

  /** ECMAScript WhiteSpace and LineTerminator code points, the set `trim` removes. */
  predicate IsWhitespace(c: char)
  {
    if c < '\U{00A0}' then
      c == ' ' || '\t' <= c <= '\r'
    else
      (c == '\U{00A0}' || c == '\U{1680}' || '\U{2000}' <= c <= '\U{200A}' || c == '\U{2028}' || c == '\U{2029}'
       || c == '\U{202F}' || c == '\U{205F}' || c == '\U{3000}' || c == '\U{FEFF}')
  }

  /** ECMAScript LineTerminator code points: what a regular-expression `.` does not match. */
  predicate IsLineTerminator(c: char)
  {
    c == '\n' || c == '\r' || c == '\U{2028}' || c == '\U{2029}'
  }

  /** Number of whitespace characters at the start of `s`. */
  function LeadingSpace(s: string): (n: nat)
    ensures n <= |s|
  {
    if |s| > 0 && IsWhitespace(s[0]) then 1 + LeadingSpace(s[1..]) else 0
  }

  /** Number of whitespace characters at the end of `s`. */
  function TrailingSpace(s: string): (n: nat)
    ensures n <= |s|
  {
    if |s| > 0 && IsWhitespace(s[|s| - 1]) then 1 + TrailingSpace(s[..|s| - 1]) else 0
  }

  lemma {:induction false} LeadingSpaceIsSpace(s: string)
    ensures forall k :: 0 <= k < LeadingSpace(s) ==> IsWhitespace(s[k])
    ensures LeadingSpace(s) < |s| ==> !IsWhitespace(s[LeadingSpace(s)])
  {
    if |s| > 0 && IsWhitespace(s[0]) {
      LeadingSpaceIsSpace(s[1..]);
    }
  }

  lemma {:induction false} TrailingSpaceIsSpace(s: string)
    ensures forall k :: |s| - TrailingSpace(s) <= k < |s| ==> IsWhitespace(s[k])
    ensures TrailingSpace(s) < |s| ==> !IsWhitespace(s[|s| - 1 - TrailingSpace(s)])
  {
    if |s| > 0 && IsWhitespace(s[|s| - 1]) {
      TrailingSpaceIsSpace(s[..|s| - 1]);
    }
  }

  /** `s.trim()`: the longest slice of `s` that neither starts nor ends with whitespace. */
  function Trim(s: string): (r: string)
    ensures LeadingSpace(s) + |r| <= |s| && r == s[LeadingSpace(s)..LeadingSpace(s) + |r|]
  {
    var a := LeadingSpace(s);
    if a == |s| then ""
    else
      LeadingSpaceIsSpace(s);
      TrailingSpaceIsSpace(s);
      s[a..|s| - TrailingSpace(s)]
  }

  /** `Trim` removes whitespace only: what it drops at either end is whitespace,
      and what it keeps starts and ends with something else. */
  lemma TrimEnds(s: string)
    ensures var r := Trim(s);
      && (|r| > 0 ==> !IsWhitespace(r[0]) && !IsWhitespace(r[|r| - 1]))
      && (forall k :: 0 <= k < LeadingSpace(s) ==> IsWhitespace(s[k]))
      && (forall k :: LeadingSpace(s) + |r| <= k < |s| ==> IsWhitespace(s[k]))
  {
    hide IsWhitespace;
    var a, t, r := LeadingSpace(s), TrailingSpace(s), Trim(s);
    LeadingSpaceIsSpace(s);
    TrailingSpaceIsSpace(s);
    if a < |s| {
      assert a < |s| - t;
      assert r == s[a..|s| - t];
      assert r[0] == s[a] && r[|r| - 1] == s[|s| - 1 - t];
    } else {
      assert r == "";
    }
  }

  /** A string that neither starts nor ends with whitespace is already trimmed. */
  lemma TrimFixed(s: string)
    requires |s| == 0 || (!IsWhitespace(s[0]) && !IsWhitespace(s[|s| - 1]))
    ensures Trim(s) == s
  {
    if |s| > 0 {
      assert LeadingSpace(s) == 0;
      assert TrailingSpace(s) == 0;
    }
  }

  /** Trimming keeps every character that is not whitespace. */
  lemma TrimKeeps(s: string, c: char)
    requires !IsWhitespace(c)
    ensures c in Trim(s) <==> c in s
  {
    var a, r := LeadingSpace(s), Trim(s);
    TrimEnds(s);
    if c in s {
      var k :| 0 <= k < |s| && s[k] == c;
      assert r[k - a] == c;
    }
  }

  lemma TrimIdempotent(s: string)
    ensures Trim(Trim(s)) == Trim(s)
  {
    TrimEnds(s);
    TrimFixed(Trim(s));
  }

  /** `c.toLowerCase()` for one character, on ASCII. */
  function LowerChar(c: char): char
  {
    if 'A' <= c <= 'Z' then (c as int + 32) as char else c
  }

  /** `s.toLowerCase()`, character by character on ASCII. */
  function ToLowerCase(s: string): (r: string)
    ensures |r| == |s|
    ensures forall k :: 0 <= k < |s| ==> r[k] == LowerChar(s[k])
  {
    seq(|s|, k requires 0 <= k < |s| => LowerChar(s[k]))
  }

  /** A string with no upper-case ASCII letter is its own lower-case form. */
  lemma LowerOfLower(s: string)
    requires forall k :: 0 <= k < |s| ==> !('A' <= s[k] <= 'Z')
    ensures ToLowerCase(s) == s
  {
  }

  /** Lower-casing maps whitespace to whitespace and nothing else to whitespace. */
  lemma LowerCharSpacing(c: char)
    ensures IsWhitespace(LowerChar(c)) <==> IsWhitespace(c)
  {
  }

  /** Lower-casing is idempotent. */
  lemma LowerIdempotent(s: string)
    ensures ToLowerCase(ToLowerCase(s)) == ToLowerCase(s)
  {
  }

  /** Trimming and then lower-casing gives a text that is its own trim and
      its own lower-case form, and is never longer than the original. */
  lemma LowerTrimmed(x: string)
    ensures var n := ToLowerCase(Trim(x)); Trim(n) == n && ToLowerCase(n) == n && |n| <= |x|
  {
    var r := Trim(x);
    var n := ToLowerCase(r);
    TrimEnds(x);
    if |r| > 0 {
      LowerCharSpacing(r[0]);
      LowerCharSpacing(r[|r| - 1]);
    }
    TrimFixed(n);
    LowerIdempotent(r);
  }

  /** JavaScript clamps a `substring` argument to [0, length]. */
  function Clamp(x: int, len: nat): (r: nat)
    ensures r <= len
  {
    if x < 0 then 0 else if x > len then len else x
  }

  /** `s.substring(start, end)`: both arguments clamped to [0, |s|] and swapped
      when the first exceeds the second. */
  function Substring(s: string, start: int, end: int): (r: string)
    ensures 0 <= start <= end <= |s| ==> r == s[start..end]
    ensures 0 <= end <= start <= |s| ==> r == s[end..start]
    ensures |r| <= |s|
  {
    var a, b := Clamp(start, |s|), Clamp(end, |s|);
    if a <= b then s[a..b] else s[b..a]
  }
}
