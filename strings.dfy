/** Character-level string operations shared by the JavaScript and Python
    code: single-character split, join with a separator, single-character
    replace, and first / last index of a character. */
module Strings {

  /** Index of the first occurrence of `ch` in `s`, or -1 (Python `str.find`,
      JavaScript `String.prototype.indexOf` with a one-character argument). */
  function IndexOf(s: string, ch: char): (r: int)
    ensures -1 <= r < |s|
    ensures r == -1 <==> ch !in s
    ensures r >= 0 ==> s[r] == ch && ch !in s[..r]
  {
    if |s| == 0 then -1
    else if s[0] == ch then 0
    else
      var r := IndexOf(s[1..], ch);
      assert s[1..][..if r < 0 then 0 else r] == s[1..1 + if r < 0 then 0 else r];
      if r < 0 then -1 else r + 1
  }

  /** Index of the last occurrence of `ch` in `s`, or -1 (Python `str.rfind`). */
  function LastIndexOf(s: string, ch: char): (r: int)
    ensures -1 <= r < |s|
    ensures r == -1 <==> ch !in s
    ensures r >= 0 ==> s[r] == ch && ch !in s[r + 1..]
  {
    if |s| == 0 then -1
    else if s[|s| - 1] == ch then |s| - 1
    else
      var r := LastIndexOf(s[..|s| - 1], ch);
      assert r >= 0 ==> s[r + 1..] == s[..|s| - 1][r + 1..] + [s[|s| - 1]];
      r
  }

  /** `sep.join(parts)` in Python, `parts.join(sep)` in JavaScript. */
  function Join(sep: string, parts: seq<string>): (r: string)
    ensures |parts| == 0 ==> r == ""
    ensures |parts| >= 1 ==> |parts[0]| <= |r| && r[..|parts[0]|] == parts[0]
  {
    if |parts| == 0 then ""
    else if |parts| == 1 then parts[0]
    else parts[0] + sep + Join(sep, parts[1..])
  }

  /** `s.split(sep)` with a one-character separator, in either language:
      the pieces between separators, so "" gives [""] and "a," gives ["a", ""]. */
  function Split(s: string, sep: char): (parts: seq<string>)
    ensures |parts| >= 1
    ensures forall i :: 0 <= i < |parts| ==> sep !in parts[i]
  {
    if |s| == 0 then [""]
    else
      var rest := Split(s[1..], sep);
      if s[0] == sep then [""] + rest
      else [[s[0]] + rest[0]] + rest[1..]
  }

  /** `s.replace(target, rep)` for a one-character `target`: every occurrence replaced. */
  function Replace(s: string, target: char, rep: string): (r: string)
    ensures target !in rep ==> target !in r
    ensures target !in s ==> r == s
  {
    if |s| == 0 then ""
    else (if s[0] == target then rep else [s[0]]) + Replace(s[1..], target, rep)
  }

  lemma ReplaceAppend(a: string, b: string, target: char, rep: string)
    ensures Replace(a + b, target, rep) == Replace(a, target, rep) + Replace(b, target, rep)
  {
    if |a| == 0 {
      assert a + b == b;
    } else {
      assert (a + b)[1..] == a[1..] + b;
      ReplaceAppend(a[1..], b, target, rep);
    }
  }

  /** Replacing a character that another replacement introduces nowhere:
      the membership of a third character is preserved. */
  lemma ReplaceKeeps(s: string, target: char, rep: string, c: char)
    requires c != target
    ensures c in Replace(s, target, rep) <==> c in s || (target in s && c in rep)
  {
    if |s| > 0 {
      ReplaceKeeps(s[1..], target, rep, c);
      assert s == [s[0]] + s[1..];
    }
  }

  /** Splitting a piece that holds no separator yields the piece itself. */
  lemma {:induction false} SplitNoSep(s: string, sep: char)
    requires sep !in s
    ensures Split(s, sep) == [s]
  {
    if |s| > 0 {
      SplitNoSep(s[1..], sep);
      assert s == [s[0]] + s[1..];
    }
  }

  /** Splitting distributes over a separator that follows a separator-free prefix. */
  lemma {:induction false} SplitAfter(a: string, b: string, sep: char)
    requires sep !in a
    ensures Split(a + [sep] + b, sep) == [a] + Split(b, sep)
  {
    if |a| == 0 {
      assert a + [sep] + b == [sep] + b;
      assert ([sep] + b)[1..] == b;
    } else {
      assert (a + [sep] + b)[1..] == a[1..] + [sep] + b;
      SplitAfter(a[1..], b, sep);
      assert a == [a[0]] + a[1..];
    }
  }

  /** Split undoes Join when no part holds the separator. */
  lemma {:induction false} SplitJoin(parts: seq<string>, sep: char)
    requires |parts| >= 1
    requires forall k :: 0 <= k < |parts| ==> sep !in parts[k]
    ensures Split(Join([sep], parts), sep) == parts
  {
    if |parts| == 1 {
      SplitNoSep(parts[0], sep);
    } else {
      SplitJoin(parts[1..], sep);
      SplitAfter(parts[0], Join([sep], parts[1..]), sep);
      assert parts == [parts[0]] + parts[1..];
    }
  }

  /** Join undoes Split: the pieces and the separators between them are the
      whole string. */
  lemma {:induction false} JoinSplit(s: string, sep: char)
    ensures Join([sep], Split(s, sep)) == s
  {
    if |s| > 0 {
      JoinSplit(s[1..], sep);
      var rest := Split(s[1..], sep);
      if s[0] != sep {
        var parts := Split(s, sep);
        assert parts[1..] == rest[1..];
        if |rest| == 1 {
          assert parts == [[s[0]] + rest[0]];
        } else {
          assert rest == [rest[0]] + rest[1..];
          assert Join([sep], rest) == rest[0] + [sep] + Join([sep], rest[1..]);
        }
      } else {
        assert Split(s, sep) == [""] + rest;
        assert ([""] + rest)[1..] == rest;
      }
    }
  }

  /** Join of two non-empty lists. */
  lemma {:induction false} JoinAppend(sep: string, a: seq<string>, b: seq<string>)
    requires |a| >= 1 && |b| >= 1
    ensures Join(sep, a + b) == Join(sep, a) + sep + Join(sep, b)
  {
    if |a| == 1 {
      assert (a + b)[1..] == b;
    } else {
      assert (a + b)[1..] == a[1..] + b;
      JoinAppend(sep, a[1..], b);
    }
  }

  /** The separator character occurs in a join only inside a part or as the separator. */
  lemma {:induction false} JoinNoChar(sep: string, parts: seq<string>, c: char)
    requires c !in sep
    requires forall k :: 0 <= k < |parts| ==> c !in parts[k]
    ensures c !in Join(sep, parts)
  {
    if |parts| > 1 {
      JoinNoChar(sep, parts[1..], c);
    }
  }
}
