/** The selector-clause regular expression of the web console,
    `/([a-zA-z].+)\((.+)=(.+)\)/i`, as JavaScript's `String.prototype.match`
    evaluates it: unanchored, leftmost start, three greedy groups.

    Under the `/i` flag a character matches the class `[a-zA-z]` when its
    upper-case form lies in the class's upper-cased set; `A-z` spans code
    points 65..122 (it includes `[ \ ] ^ _` and the backtick), and no
    character outside that range upper-cases into it under the
    non-Unicode rules, so the class is exactly code points 65..122. `.`
    matches anything but a line terminator. */
module SelectorRegex {
  import opened Wrappers
  import opened JsStrings

  /** The leading character class `[a-zA-z]` under `/i`. */
  predicate InClass(c: char)
  {
    'A' <= c <= 'z'
  }

  /** Positions of one match: group 1 is `s[start..open]`, group 2
      `s[open + 1..eq]`, group 3 `s[eq + 1..close]`. */
  datatype Groups = Groups(start: nat, open: nat, eq: nat, close: nat)

  /** The regex can match `s[g.start..g.close + 1]` with these group boundaries:
      each `.+` covers at least one character and none of them is a line terminator. */
  predicate Fits(s: string, g: Groups)
  {
    && g.start + 2 <= g.open && g.open + 2 <= g.eq && g.eq + 2 <= g.close < |s|
    && InClass(s[g.start]) && s[g.open] == '(' && s[g.eq] == '=' && s[g.close] == ')'
    && forall k :: g.start < k < g.close ==> !IsLineTerminator(s[k])
  }

  /** The first line terminator at or after `i`, or |s|. */
  function LineEnd(s: string, i: nat): (e: nat)
    requires i <= |s|
    ensures i <= e <= |s|
    ensures forall k :: i <= k < e ==> !IsLineTerminator(s[k])
    ensures e < |s| ==> IsLineTerminator(s[e])
    decreases |s| - i
  {
    if i == |s| || IsLineTerminator(s[i]) then i else LineEnd(s, i + 1)
  }

  /** The last index in [lo, hi) holding `c`. */
  function LastIn(s: string, c: char, lo: int, hi: int): (r: Option<nat>)
    requires 0 <= lo && hi <= |s|
    ensures r.None? ==> forall k :: lo <= k < hi ==> s[k] != c
    ensures r.Some? ==> lo <= r.value < hi && s[r.value] == c
                        && forall k :: r.value < k < hi ==> s[k] != c
    decreases hi - lo
  {
    if hi <= lo then None
    else if s[hi - 1] == c then Some(hi - 1)
    else LastIn(s, c, lo, hi - 1)
  }

  /** How the backtracking search ends for a match starting at `i`: the
      greedy groups each end at the last position that still lets the rest
      of the pattern match. */
  function MatchAt(s: string, i: nat): (r: Option<Groups>)
    requires i < |s|
    ensures r.Some? ==> r.value.start == i && Fits(s, r.value)
    ensures r.Some? ==> forall g: Groups {:trigger Fits(s, g)} :: g.start == i && Fits(s, g) ==>
                          g.open <= r.value.open && g.eq <= r.value.eq && g.close <= r.value.close
    ensures r.None? ==> forall g: Groups {:trigger Fits(s, g)} :: g.start == i ==> !Fits(s, g)
  {
    if !InClass(s[i]) then None
    else
      var end := LineEnd(s, i);
      match LastIn(s, ')', i + 6, end)
      case None => None
      case Some(close) =>
        match LastIn(s, '=', i + 4, close - 1)
        case None => None
        case Some(eq) =>
          match LastIn(s, '(', i + 2, eq - 1)
          case None => None
          case Some(open) => Some(Groups(i, open, eq, close))
  }

  /** The leftmost match starting at or after `i`. */
  function MatchFrom(s: string, i: nat): (r: Option<Groups>)
    requires i <= |s|
    ensures r.Some? ==> i <= r.value.start && Fits(s, r.value)
    ensures r.Some? ==> forall g: Groups {:trigger Fits(s, g)} :: i <= g.start && Fits(s, g) ==> r.value.start <= g.start
    ensures r.Some? ==> forall g: Groups {:trigger Fits(s, g)} :: g.start == r.value.start && Fits(s, g) ==>
                          g.open <= r.value.open && g.eq <= r.value.eq && g.close <= r.value.close
    ensures r.None? ==> forall g: Groups {:trigger Fits(s, g)} :: i <= g.start ==> !Fits(s, g)
    decreases |s| - i
  {
    if i == |s| then None
    else match MatchAt(s, i)
      case Some(g) => Some(g)
      case None => MatchFrom(s, i + 1)
  }

  /** `s.match(re)`: the leftmost start, and at that start the greatest group
      boundaries, which is the lexicographically greatest choice the
      backtracking engine tries first. */
  function Match(s: string): (r: Option<Groups>)
    ensures r.Some? ==> Fits(s, r.value)
    ensures r.Some? ==> forall g: Groups {:trigger Fits(s, g)} :: Fits(s, g) ==> r.value.start <= g.start
    ensures r.Some? ==> forall g: Groups {:trigger Fits(s, g)} :: g.start == r.value.start && Fits(s, g) ==>
                          g.open <= r.value.open && g.eq <= r.value.eq && g.close <= r.value.close
    ensures r.None? <==> forall g: Groups {:trigger Fits(s, g)} :: !Fits(s, g)
  {
    MatchFrom(s, 0)
  }
}
