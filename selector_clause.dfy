/** The web console's selector clause, `version(type=operand)`: the
    `Selector` constructor that decomposes a clause with the regular
    expression of `SelectorRegex`, and `createRule` / `toString`, which
    serialise the fields back. */
module SelectorClause {
  import opened Wrappers
  import opened JsStrings
  import opened SelectorRegex
  import Strings

  /** The selector types the editor offers; `Raw` is the source's `'--raw text--'`. */
  datatype Kind = User | Header | Weight | Raw

  /** The text of a type as it appears in a clause and in the editor. */
  function TypeName(k: Kind): string
  {
    match k
    case User => "user"
    case Header => "header"
    case Weight => "weight"
    case Raw => "--raw text--"
  }

  /** The decomposed fields of a selector. */
  datatype Clause = Clause(version: string, kind: Kind, value: string, pattern: string)

  /** No character of `x` is a line terminator. */
  predicate NoLineBreak(x: string)
  {
    forall k :: 0 <= k < |x| ==> !IsLineTerminator(x[k])
  }

  /** Every '=' of `x` is its last character. */
  predicate EqOnlyLast(x: string)
  {
    forall k :: 0 <= k < |x| - 1 ==> x[k] != '='
  }

  /** `version(typeText=operand)`. */
  function ClauseText(version: string, typeText: string, operand: string): string
  {
    version + "(" + typeText + "=" + operand + ")"
  }

  /** Group 1 as the constructor keeps it: trimmed and lower-cased. */
  function VersionPart(s: string, g: Groups): (r: string)
    requires g.start <= g.open <= |s|
    ensures Trim(r) == r && ToLowerCase(r) == r
    ensures |r| <= g.open - g.start
  {
    LowerTrimmed(s[g.start..g.open]);
    ToLowerCase(Trim(s[g.start..g.open]))
  }

  /** Group 2 as the constructor keeps it: trimmed and lower-cased. */
  function TypePart(s: string, g: Groups): (r: string)
    requires g.open < g.eq <= |s|
    ensures Trim(r) == r && ToLowerCase(r) == r
    ensures |r| < g.eq - g.open
  {
    LowerTrimmed(s[g.open + 1..g.eq]);
    ToLowerCase(Trim(s[g.open + 1..g.eq]))
  }

  /** Group 3 as the constructor keeps it: trimmed. */
  function OperandPart(s: string, g: Groups): (r: string)
    requires g.eq < g.close <= |s|
    ensures Trim(r) == r
    ensures |r| < g.close - g.eq
    ensures |r| > 0 ==> !IsWhitespace(r[0]) && !IsWhitespace(r[|r| - 1])
  {
    TrimEnds(s[g.eq + 1..g.close]);
    TrimIdempotent(s[g.eq + 1..g.close]);
    Trim(s[g.eq + 1..g.close])
  }

  /** The constructor's decomposition of a clause `s`: no match gives the raw
      clause with an empty version; a match is decomposed from its trimmed,
      lower-cased version and type and its trimmed operand. */
  function Parse(s: string): (c: Clause)
    ensures Match(s).None? ==> c == Clause("", Raw, s, "")
    ensures c.kind == Raw ==> c.value == s && c.pattern == ""
    ensures c.kind != Header ==> c.pattern == ""
  {
    match Match(s)
    case None => Clause("", Raw, s, "")
    case Some(g) => FromParts(s, VersionPart(s, g), TypePart(s, g), OperandPart(s, g))
  }

  /** The branch on the type text: user, header and weight keep the version
      and decompose the operand; any other type is raw text, the whole rule. */
  function FromParts(rule: string, version: string, typeText: string, operand: string): (c: Clause)
    ensures c.kind == Raw <==> typeText != "user" && typeText != "header" && typeText != "weight"
    ensures c.version == version
    ensures c.kind == Raw ==> c.value == rule && c.pattern == ""
    ensures c.kind != Header ==> c.pattern == ""
  {
    if typeText == "user" then Clause(version, User, UserValue(operand), "")
    else if typeText == "header" then Clause(version, Header, HeaderValue(operand), HeaderPattern(operand))
    else if typeText == "weight" then Clause(version, Weight, operand, "")
    else Clause(version, Raw, rule, "")
  }

  /** `value.substring(1, value.length - 1)`: a user operand without its
      first and last character; an operand of at most one character is
      kept whole, since `substring` swaps its arguments. */
  function UserValue(operand: string): (r: string)
    ensures |operand| >= 2 ==> operand == operand[..1] + r + operand[|operand| - 1..]
    ensures |operand| <= 1 ==> r == operand
  {
    var n := |operand|;
    var r := Substring(operand, 1, n - 1);
    if n >= 2 then
      assert r == operand[1..n - 1];
      assert operand == operand[..1] + operand[1..n - 1] + operand[n - 1..] by {
        assert operand[..1] + operand[1..n - 1] == operand[..n - 1];
        assert operand[..n - 1] + operand[n - 1..] == operand;
      }
      r
    else if n == 1 then
      assert Clamp(1, n) == 1 && Clamp(n - 1, n) == 0;
      assert r == operand[0..1];
      r
    else
      r
  }

  /** `value.substring(1, colon)`: a header operand from its second
      character up to its first ':'; with no ':', or one in front, the
      first character alone (`substring` clamps and swaps). */
  function HeaderValue(operand: string): (r: string)
    ensures var i := Strings.IndexOf(operand, ':');
      i >= 1 ==> r == operand[1..i] && ':' !in r
    ensures var i := Strings.IndexOf(operand, ':');
      i <= 0 ==> r == operand[..if |operand| == 0 then 0 else 1]
  {
    Substring(operand, 1, Strings.IndexOf(operand, ':'))
  }

  /** `value.substring(colon + 1, value.length - 1)`: a header operand
      after its first ':', without its last character; a ':' in last place
      gives ":" itself, and with no ':' the operand without its last
      character. */
  function HeaderPattern(operand: string): (r: string)
    ensures var i := Strings.IndexOf(operand, ':');
      0 <= i <= |operand| - 2 ==> r == operand[i + 1..|operand| - 1]
    ensures var i := Strings.IndexOf(operand, ':');
      i >= 0 && i == |operand| - 1 ==> r == ":"
    ensures Strings.IndexOf(operand, ':') < 0 ==> r == operand[..if |operand| == 0 then 0 else |operand| - 1]
  {
    Substring(operand, Strings.IndexOf(operand, ':') + 1, |operand| - 1)
  }

  /** Parse of a text the regular expression matches with groups `g`. */
  lemma ParseOfMatch(s: string, g: Groups)
    requires Match(s) == Some(g)
    ensures Parse(s) == FromParts(s, VersionPart(s, g), TypePart(s, g), OperandPart(s, g))
  {
  }

  /** `createRule`: the clause text the fields serialise to. Raw text is
      its value; any other clause is `version(type=...)`. */
  function Render(c: Clause): (r: string)
    ensures c.kind == Raw ==> r == c.value
    ensures c.kind != Raw ==>
      (&& |r| >= |c.version| + |TypeName(c.kind)| + 3
       && r[..|c.version|] == c.version && r[|c.version|] == '(' && r[|r| - 1] == ')'
       && r[|c.version| + 1..|c.version| + 1 + |TypeName(c.kind)|] == TypeName(c.kind))
  {
    match c.kind
    case Raw => c.value
    case User =>
      ClauseTextShape(c.version, "user", "\"" + c.value + "\"");
      ClauseText(c.version, "user", "\"" + c.value + "\"")
    case Header =>
      ClauseTextShape(c.version, "header", "\"" + c.value + ":" + c.pattern + "\"");
      ClauseText(c.version, "header", "\"" + c.value + ":" + c.pattern + "\"")
    case Weight =>
      ClauseTextShape(c.version, "weight", c.value);
      ClauseText(c.version, "weight", c.value)
  }

  /** Where the version, the '(', the type word and the ')' of a clause text lie. */
  lemma ClauseTextShape(version: string, typeText: string, operand: string)
    ensures var r := ClauseText(version, typeText, operand);
      && |r| == |version| + |typeText| + |operand| + 3
      && r[..|version|] == version && r[|version|] == '(' && r[|r| - 1] == ')'
      && r[|version| + 1..|version| + 1 + |typeText|] == typeText
  {
    var r := ClauseText(version, typeText, operand);
    assert r == version + "(" + typeText + "=" + operand + ")";
    var p := |version| + 1;
    assert r[p..p + |typeText|] == typeText by {
      forall k | 0 <= k < |typeText| ensures r[p + k] == typeText[k] { }
    }
  }

  /** A selector being edited: the fields the constructor fills and the
      editor binds, and `rule`, the text last serialised. */
  class Selector {
    var rule: string
    var version: string
    var kind: Kind
    var value: string
    var pattern: string

    function Fields(): Clause
      reads this
    {
      Clause(version, kind, value, pattern)
    }

    /** `new Selector(s)`. */
    constructor (s: string)
      ensures rule == s && Fields() == Parse(s)
    {
      var c := Parse(s);
      rule := s;
      version := c.version;
      kind := c.kind;
      value := c.value;
      pattern := c.pattern;
    }

    /** `createRule()`: re-serialise the fields into `rule`. */
    method CreateRule()
      modifies this`rule
      ensures rule == Render(Fields())
    {
      var v := value;
      if kind == Raw {
        rule := v;
      } else {
        if kind == User {
          v := "\"" + v + "\"";
        } else if kind == Header {
          v := "\"" + v + ":" + pattern + "\"";
        }
        rule := version + "(" + TypeName(kind) + "=" + v + ")";
      }
    }

    /** `toString()`, which `Array.prototype.join` calls: serialise and return the rule. */
    method ToString() returns (r: string)
      modifies this`rule
      ensures rule == Render(Fields()) && r == rule
    {
      CreateRule();
      r := rule;
    }
  }

  // ---------------------------------------------------------------------
  // How the regular expression splits a clause text

  lemma ClauseTextAt(a: string, t: string, v: string)
    ensures var y := ClauseText(a, t, v);
      && |y| == |a| + |t| + |v| + 3
      && (forall k :: 0 <= k < |a| ==> y[k] == a[k])
      && y[|a|] == '(' && y[|a| + 1 + |t|] == '=' && y[|y| - 1] == ')'
      && (forall k :: 0 <= k < |t| ==> y[|a| + 1 + k] == t[k])
      && (forall k :: 0 <= k < |v| ==> y[|a| + 2 + |t| + k] == v[k])
  {
  }

  lemma ClauseTextNoLineBreak(a: string, t: string, v: string)
    requires NoLineBreak(a) && NoLineBreak(t) && NoLineBreak(v)
    ensures NoLineBreak(ClauseText(a, t, v))
  {
    var y := ClauseText(a, t, v);
    ClauseTextAt(a, t, v);
    forall k | 0 <= k < |y| ensures !IsLineTerminator(y[k]) {
      if k < |a| { assert y[k] == a[k]; }
      else if |a| < k < |a| + 1 + |t| { assert y[k] == t[k - |a| - 1]; }
      else if |a| + 1 + |t| < k < |y| - 1 { assert y[k] == v[k - |a| - 2 - |t|]; }
    }
  }

  /** The match of a one-line text laid out as `version(type=operand)`, with the
      '(' at `na` and the type's '=' at `na + 1 + nt` (positions only). */
  lemma MatchOfLayout(y: string, na: nat, nt: nat)
    requires na >= 2 && nt >= 1 && |y| >= na + nt + 4
    requires InClass(y[0]) && y[na] == '(' && y[na + 1 + nt] == '=' && y[|y| - 1] == ')'
    requires forall k :: na < k < na + 1 + nt ==> y[k] != '(' && y[k] != '='
    requires forall k :: na + 1 + nt < k < |y| - 2 ==> y[k] != '='
    requires NoLineBreak(y)
    ensures Match(y) == Some(Groups(0, na, na + 1 + nt, |y| - 1))
  {
    var g := Groups(0, na, na + 1 + nt, |y| - 1);
    assert Fits(y, g);
  }

  /** The positions of the type and the operand in a clause text whose type
      holds no '(' or '=' and whose operand holds '=' only as its last character. */
  lemma ClauseLayout(a: string, t: string, v: string)
    requires '(' !in t && '=' !in t && EqOnlyLast(v)
    ensures var y := ClauseText(a, t, v);
      && |y| == |a| + |t| + |v| + 3 && (|a| > 0 ==> y[0] == a[0])
      && y[|a|] == '(' && y[|a| + 1 + |t|] == '=' && y[|y| - 1] == ')'
      && (forall k :: |a| < k < |a| + 1 + |t| ==> y[k] != '(' && y[k] != '=')
      && (forall k :: |a| + 1 + |t| < k < |y| - 2 ==> y[k] != '=')
  {
    var y := ClauseText(a, t, v);
    ClauseTextAt(a, t, v);
    forall k | |a| < k < |a| + 1 + |t| ensures y[k] != '(' && y[k] != '=' {
      assert y[k] == t[k - |a| - 1];
    }
    forall k | |a| + 1 + |t| < k < |y| - 2 ensures y[k] != '=' {
      assert y[k] == v[k - |a| - 2 - |t|];
    }
  }

  /** A clause text whose version has at least two characters and starts in
      the class, whose type holds no '(' or '=', and whose operand holds '='
      only as its last character, matches with exactly its own three parts. */
  lemma ClauseMatch(a: string, t: string, v: string)
    requires |a| >= 2 && InClass(a[0]) && |t| >= 1 && |v| >= 1
    requires '(' !in t && '=' !in t && EqOnlyLast(v)
    requires NoLineBreak(a) && NoLineBreak(t) && NoLineBreak(v)
    ensures Match(ClauseText(a, t, v)) == Some(Groups(0, |a|, |a| + 1 + |t|, |a| + |t| + |v| + 2))
  {
    ClauseTextNoLineBreak(a, t, v);
    ClauseLayout(a, t, v);
    MatchOfLayout(ClauseText(a, t, v), |a|, |t|);
  }

  /** Nothing matches a layout whose first '(' after the start character is at
      index 1 and is followed, before any '=', by no other '('. */
  lemma NoMatchOfShortLayout(y: string, nt: nat)
    requires |y| >= nt + 3 && InClass(y[0]) && y[1] == '(' && y[2 + nt] == '=' && y[|y| - 1] == ')'
    requires forall k :: 1 < k < 2 + nt ==> y[k] != '(' && y[k] != '='
    requires forall k :: 2 + nt < k < |y| - 2 ==> y[k] != '='
    ensures Match(y).None?
  {
    forall g: Groups ensures !Fits(y, g) {
    }
  }

  /** With a one-character version nothing matches: the only '(' before the
      type's '=' is the one right after the version. */
  lemma ClauseNoMatchShortVersion(a: string, t: string, v: string)
    requires |a| == 1 && InClass(a[0]) && '(' !in t && '=' !in t && EqOnlyLast(v)
    ensures Match(ClauseText(a, t, v)).None?
  {
    var y := ClauseText(a, t, v);
    ClauseTextAt(a, t, v);
    assert y[0] == a[0];
    hide *;
    forall k | 1 < k < 2 + |t| ensures y[k] != '(' && y[k] != '=' {
      assert y[k] == t[k - 2];
    }
    forall k | 2 + |t| < k < |y| - 2 ensures y[k] != '=' {
      assert y[k] == v[k - 3 - |t|];
    }
    NoMatchOfShortLayout(y, |t|);
  }

  /** Greedy group 2, on positions: when an '=' at `q` inside the operand lies
      before the last two characters and no '(' follows the version, group 2
      of any match reaches past the type's '=' at `na + 1 + nt`. */
  lemma EqInOperandLayout(y: string, na: nat, nt: nat, q: nat)
    requires na + 1 + nt < q < |y| - 2 && y[q] == '=' && y[na + 1 + nt] == '=' && y[|y| - 1] == ')'
    requires forall k :: na < k < |y| ==> y[k] != '('
    requires NoLineBreak(y)
    ensures Match(y).Some? ==> Match(y).value.open < na + 1 + nt < Match(y).value.eq
  {
    if Match(y).Some? {
      var m := Match(y).value;
      assert m.close == |y| - 1 by {
        assert Fits(y, Groups(m.start, m.open, m.eq, |y| - 1));
      }
      assert m.eq >= q by {
        if m.eq < q {
          assert Fits(y, Groups(m.start, m.open, q, m.close));
        }
      }
    }
  }

  /** A type text holding '=' is none of the three recognised types. */
  lemma TypeWithEq(group2: string, k: nat)
    requires k < |group2| && group2[k] == '='
    ensures var typeText := ToLowerCase(Trim(group2));
      typeText != "user" && typeText != "header" && typeText != "weight"
  {
    TrimKeeps(group2, '=');
    var tr := Trim(group2);
    var i :| 0 <= i < |tr| && tr[i] == '=';
    var typeText := ToLowerCase(tr);
    assert typeText[i] == '=';
    assert '=' in typeText;
    assert '=' !in "user" && '=' !in "header" && '=' !in "weight";
  }

  /** Groups whose group 2 holds an '=' at `k` do not name a recognised type. */
  lemma TypePartWithEq(y: string, g: Groups, k: nat)
    requires g.open < k < g.eq <= |y| && y[k] == '='
    ensures TypePart(y, g) != "user" && TypePart(y, g) != "header" && TypePart(y, g) != "weight"
  {
    TypeWithEq(y[g.open + 1..g.eq], k - g.open - 1);
  }

  /** The positions of a clause text whose operand holds an '=' at `j`, before
      its last character, and which has no '(' after its version. */
  lemma EqInOperandShape(a: string, t: string, v: string, j: nat)
    requires j < |v| - 1 && v[j] == '=' && '(' !in v && '(' !in t
    ensures var y := ClauseText(a, t, v);
      && |y| == |a| + |t| + |v| + 3
      && y[|a| + 1 + |t|] == '=' && y[|y| - 1] == ')' && y[|a| + 2 + |t| + j] == '='
      && (forall k :: |a| < k < |y| ==> y[k] != '(')
  {
    var y := ClauseText(a, t, v);
    ClauseTextAt(a, t, v);
    forall k | |a| < k < |y| ensures y[k] != '(' {
      if k < |a| + 1 + |t| { assert y[k] == t[k - |a| - 1]; }
      else if |a| + 1 + |t| < k < |y| - 1 { assert y[k] == v[k - |a| - 2 - |t|]; }
    }
  }

  /** Greedy group 2: an operand with an '=' before its last character and no
      '(' pulls the type's '=' into group 2, so the type is not recognised. */
  lemma ClauseEqInOperand(a: string, t: string, v: string, j: nat)
    requires j < |v| - 1 && v[j] == '=' && '(' !in v && '(' !in t
    requires NoLineBreak(a) && NoLineBreak(t) && NoLineBreak(v)
    ensures Parse(ClauseText(a, t, v)).kind == Raw
  {
    var y := ClauseText(a, t, v);
    ClauseTextNoLineBreak(a, t, v);
    EqInOperandShape(a, t, v, j);
    EqInOperandLayout(y, |a|, |t|, |a| + 2 + |t| + j);
    if Match(y).Some? {
      var m := Match(y).value;
      ParseOfMatch(y, m);
      TypePartWithEq(y, m, |a| + 1 + |t|);
    }
  }

  // ---------------------------------------------------------------------
  // Round trips

  /** A version as the constructor keeps it from a match: non-empty, starting
      in the class, on one line, trimmed and lower-case. */
  predicate NormalVersion(ver: string)
  {
    |ver| >= 1 && InClass(ver[0]) && NoLineBreak(ver) && Trim(ver) == ver && ToLowerCase(ver) == ver
  }

  /** An operand as the constructor keeps it from a match: on one line,
      holding '=' only as its last character, trimmed. */
  predicate NormalOperand(op: string)
  {
    NoLineBreak(op) && EqOnlyLast(op) && Trim(op) == op
  }

  /** What the parser requires of a version for a clause to decompose as
      written: a normal version of at least two characters. */
  predicate CanonicalVersion(ver: string)
  {
    |ver| >= 2 && NormalVersion(ver)
  }

  /** The three type words are fixed points of the type normalisation. */
  lemma TypeWords()
    ensures Trim("user") == "user" && ToLowerCase("user") == "user"
    ensures Trim("header") == "header" && ToLowerCase("header") == "header"
    ensures Trim("weight") == "weight" && ToLowerCase("weight") == "weight"
  {
    TrimFixed("user");
    TrimFixed("header");
    TrimFixed("weight");
    LowerOfLower("user");
    LowerOfLower("header");
    LowerOfLower("weight");
  }

  /** The three groups of a clause text, cut at its own '(' '=' ')'. */
  lemma ClauseParts(a: string, t: string, v: string)
    ensures var y := ClauseText(a, t, v);
      && y[0..|a|] == a && y[|a| + 1..|a| + 1 + |t|] == t && y[|a| + 2 + |t|..|y| - 1] == v
  {
    var y := ClauseText(a, t, v);
    ClauseTextAt(a, t, v);
    assert y[0..|a|] == a;
    assert y[|a| + 1..|a| + 1 + |t|] == t;
    assert y[|a| + 2 + |t|..|y| - 1] == v;
  }

  /** A clause text that matches with its own parts decomposes from them. */
  lemma ParseClauseText(a: string, t: string, v: string)
    requires |a| >= 2 && InClass(a[0]) && |t| >= 1 && |v| >= 1
    requires '(' !in t && '=' !in t && EqOnlyLast(v)
    requires NoLineBreak(a) && NoLineBreak(t) && NoLineBreak(v)
    ensures Parse(ClauseText(a, t, v))
         == FromParts(ClauseText(a, t, v), ToLowerCase(Trim(a)), ToLowerCase(Trim(t)), Trim(v))
  {
    hide Parse;
    hide FromParts;
    hide Match;
    hide ToLowerCase;
    hide Trim;
    hide VersionPart;
    hide TypePart;
    hide OperandPart;
    var y := ClauseText(a, t, v);
    var g := Groups(0, |a|, |a| + 1 + |t|, |y| - 1);
    ClauseMatch(a, t, v);
    ParseOfMatch(y, g);
    ClauseParts(a, t, v);
    VersionPartOf(y, g, a);
    TypePartOf(y, g, t);
    OperandPartOf(y, g, v);
  }

  /** The kept version of groups whose group 1 is `a`. */
  lemma VersionPartOf(y: string, g: Groups, a: string)
    requires g.start <= g.open <= |y| && y[g.start..g.open] == a
    ensures VersionPart(y, g) == ToLowerCase(Trim(a))
  {
  }

  /** The kept type of groups whose group 2 is `t`. */
  lemma TypePartOf(y: string, g: Groups, t: string)
    requires g.open < g.eq <= |y| && y[g.open + 1..g.eq] == t
    ensures TypePart(y, g) == ToLowerCase(Trim(t))
  {
  }

  /** The kept operand of groups whose group 3 is `v`. */
  lemma OperandPartOf(y: string, g: Groups, v: string)
    requires g.eq < g.close <= |y| && y[g.eq + 1..g.close] == v
    ensures OperandPart(y, g) == Trim(v)
  {
  }

  /** The quoted user operand `"u"` is on one line, holds no '=', is its own
      trim and gives back `u`. */
  lemma UserOperandShape(u: string)
    requires '=' !in u && NoLineBreak(u)
    ensures var v := "\"" + u + "\"";
      EqOnlyLast(v) && NoLineBreak(v) && Trim(v) == v && UserValue(v) == u
  {
    var v := "\"" + u + "\"";
    forall k | 0 <= k < |v| ensures !IsLineTerminator(v[k]) && v[k] != '=' {
      if 0 < k < |v| - 1 { assert v[k] == u[k - 1]; }
    }
    TrimFixed(v);
    assert v[1..|v| - 1] == u;
  }

  /** `ver(user="u")` parses to version `ver` and value `u`, and serialises back
      to itself. */
  lemma UserRoundTrip(ver: string, u: string)
    requires CanonicalVersion(ver) && '=' !in u && NoLineBreak(u)
    ensures Parse(ClauseText(ver, "user", "\"" + u + "\"")) == Clause(ver, User, u, "")
    ensures Render(Parse(ClauseText(ver, "user", "\"" + u + "\""))) == ClauseText(ver, "user", "\"" + u + "\"")
  {
    UserOperandShape(u);
    TypeWords();
    ParseClauseText(ver, "user", "\"" + u + "\"");
  }

  /** The quoted header operand `"h:p"` is on one line, holds '=' only where
      `h` or `p` do, and is its own trim. */
  lemma HeaderOperandShape(h: string, p: string)
    requires '=' !in h && '=' !in p && NoLineBreak(h) && NoLineBreak(p)
    ensures var v := "\"" + h + ":" + p + "\"";
      EqOnlyLast(v) && NoLineBreak(v) && Trim(v) == v
  {
    var v := "\"" + h + ":" + p + "\"";
    forall k | 0 <= k < |v| ensures !IsLineTerminator(v[k]) && (k < |v| - 1 ==> v[k] != '=') {
      if 1 <= k <= |h| { assert v[k] == h[k - 1]; }
      else if |h| + 2 <= k < |v| - 1 { assert v[k] == p[k - |h| - 2]; }
    }
    TrimFixed(v);
  }

  /** The value and the pattern of the quoted header operand `"h:p"` when `h`
      holds no ':'. */
  lemma HeaderOperandSplit(h: string, p: string)
    requires ':' !in h
    ensures HeaderValue("\"" + h + ":" + p + "\"") == h
    ensures HeaderPattern("\"" + h + ":" + p + "\"") == p
  {
    var v := "\"" + h + ":" + p + "\"";
    assert Strings.IndexOf(v, ':') == 1 + |h| by {
      assert v[..1 + |h|] == "\"" + h;
      assert v[1 + |h|] == ':';
    }
    assert v[1..1 + |h|] == h;
    assert v[|h| + 2..|v| - 1] == p;
  }

  /** `ver(header="h:p")` parses to version `ver`, value `h` and pattern `p`, and
      serialises back to itself. */
  lemma HeaderRoundTrip(ver: string, h: string, p: string)
    requires CanonicalVersion(ver) && '=' !in h && ':' !in h && '=' !in p
    requires NoLineBreak(h) && NoLineBreak(p)
    ensures Parse(ClauseText(ver, "header", "\"" + h + ":" + p + "\"")) == Clause(ver, Header, h, p)
    ensures Render(Parse(ClauseText(ver, "header", "\"" + h + ":" + p + "\"")))
         == ClauseText(ver, "header", "\"" + h + ":" + p + "\"")
  {
    var v := "\"" + h + ":" + p + "\"";
    HeaderOperandShape(h, p);
    HeaderOperandSplit(h, p);
    TypeWords();
    ParseClauseText(ver, "header", v);
  }

  /** `ver(weight=w)` parses to version `ver` and value `w`, and serialises back
      to itself (the weight refresh of `toString` aside). */
  lemma WeightRoundTrip(ver: string, w: string)
    requires CanonicalVersion(ver) && w != "" && Trim(w) == w && EqOnlyLast(w) && NoLineBreak(w)
    ensures Parse(ClauseText(ver, "weight", w)) == Clause(ver, Weight, w, "")
    ensures Render(Parse(ClauseText(ver, "weight", w))) == ClauseText(ver, "weight", w)
  {
    TypeWords();
    ParseClauseText(ver, "weight", w);
  }

  // ---------------------------------------------------------------------
  // Serialising a parsed clause is stable

  /** What a match's groups 1 and 3 hold: group 1 starts in the class, both
      are on one line, and group 3 holds '=' only as its last character
      (group 2 is greedy). */
  lemma MatchedGroups(s: string, g: Groups)
    requires Match(s) == Some(g)
    ensures var v := s[g.start..g.open]; |v| >= 2 && InClass(v[0]) && NoLineBreak(v)
    ensures var o := s[g.eq + 1..g.close]; NoLineBreak(o) && EqOnlyLast(o)
  {
    var v, o := s[g.start..g.open], s[g.eq + 1..g.close];
    forall k | 0 <= k < |v| ensures !IsLineTerminator(v[k]) {
      assert v[k] == s[g.start + k];
    }
    forall k | 0 <= k < |o| ensures !IsLineTerminator(o[k]) {
      assert o[k] == s[g.eq + 1 + k];
    }
    forall k | 0 <= k < |o| - 1 ensures o[k] != '=' {
      assert o[k] == s[g.eq + 1 + k];
      if s[g.eq + 1 + k] == '=' {
        assert Fits(s, Groups(g.start, g.open, g.eq + 1 + k, g.close));
      }
    }
  }

  /** Group 1 of a match, trimmed and lower-cased, is a normal version. */
  lemma KeptVersion(x: string)
    requires |x| >= 1 && InClass(x[0]) && NoLineBreak(x)
    ensures NormalVersion(ToLowerCase(Trim(x)))
  {
    var r := Trim(x);
    var n := ToLowerCase(r);
    TrimEnds(x);
    assert LeadingSpace(x) == 0 by {
      assert !IsWhitespace(x[0]);
    }
    assert |r| >= 1 && r[0] == x[0] by {
      assert !IsWhitespace(x[0]);
    }
    forall k | 0 <= k < |n| ensures !IsLineTerminator(n[k]) {
      assert r[k] == x[k];
    }
    LowerCharSpacing(r[0]);
    LowerCharSpacing(r[|r| - 1]);
    TrimFixed(n);
    LowerIdempotent(r);
  }

  /** Group 3 of a match, trimmed, is a normal operand. */
  lemma KeptOperand(x: string)
    requires NoLineBreak(x) && EqOnlyLast(x)
    ensures NormalOperand(Trim(x))
  {
    var r := Trim(x);
    var a := LeadingSpace(x);
    forall k | 0 <= k < |r| ensures !IsLineTerminator(r[k]) && (k < |r| - 1 ==> r[k] != '=') {
      assert r[k] == x[a + k];
    }
    TrimIdempotent(x);
  }

  /** A substring of a one-line text is on one line. */
  lemma SubstringNoLineBreak(s: string, start: int, end: int)
    requires NoLineBreak(s)
    ensures NoLineBreak(Substring(s, start, end))
  {
    var a, b := Clamp(start, |s|), Clamp(end, |s|);
    var r := Substring(s, start, end);
    var lo := if a <= b then a else b;
    forall k | 0 <= k < |r| ensures !IsLineTerminator(r[k]) {
      assert r[k] == s[lo + k];
    }
  }

  /** The user value of an operand holding '=' only last holds '=' only when
      the operand is exactly "=". */
  lemma UserValueEq(op: string)
    requires EqOnlyLast(op)
    ensures '=' in UserValue(op) ==> op == "="
  {
    var u := UserValue(op);
    if |op| >= 2 {
      assert u == op[1..|op| - 1];
      forall k | 0 <= k < |u| ensures u[k] != '=' {
        assert u[k] == op[1 + k];
      }
    } else if |op| == 1 {
      assert u == op;
      assert op == [op[0]];
    }
  }

  /** The header value and pattern of an operand holding '=' only last: the
      pattern holds no '=', the value holds '=' only when the operand is
      exactly "=", and ':' only when it is exactly ":". */
  lemma HeaderPartsEq(op: string)
    requires EqOnlyLast(op)
    ensures '=' !in HeaderPattern(op)
    ensures '=' in HeaderValue(op) ==> op == "="
    ensures ':' in HeaderValue(op) ==> HeaderValue(op) == ":"
  {
    var i := Strings.IndexOf(op, ':');
    var h, p := HeaderValue(op), HeaderPattern(op);
    if i >= 1 {
      assert h == op[1..i];
      forall k | 0 <= k < |h| ensures h[k] != '=' && h[k] != ':' {
        assert h[k] == op[1 + k];
        assert op[..i][1 + k] == op[1 + k];
      }
    } else if i == 0 {
      assert h == op[0..1] == [':'];
    } else if |op| >= 1 {
      assert h == op[0..1] == [op[0]];
    }
    if i + 1 <= |op| - 1 {
      assert p == op[i + 1..|op| - 1];
      forall k | 0 <= k < |p| ensures p[k] != '=' {
        assert p[k] == op[i + 1 + k];
      }
    } else if |op| >= 1 {
      assert p == op[|op| - 1..|op|] == [':'];
    }
  }

  /** Re-splitting a quoted header operand `"h:p"` whose value holds ':' only
      when it is ":" gives the same quoted text back. */
  lemma HeaderRejoin(h: string, p: string)
    requires ':' in h ==> h == ":"
    ensures var q := "\"" + h + ":" + p + "\"";
      "\"" + HeaderValue(q) + ":" + HeaderPattern(q) + "\"" == q
  {
    var q := "\"" + h + ":" + p + "\"";
    if ':' !in h {
      HeaderOperandSplit(h, p);
    } else {
      assert Strings.IndexOf(q, ':') == 1 by {
        assert q[..1] == "\"";
        assert q[1] == ':';
      }
      assert HeaderValue(q) == "";
      assert HeaderPattern(q) == q[2..|q| - 1] == ":" + p;
    }
  }

  /** A word of lower-case ASCII letters fits the type group and is its own
      trimmed, lower-cased form. */
  lemma LowerWord(t: string)
    requires |t| >= 1 && forall k :: 0 <= k < |t| ==> 'a' <= t[k] <= 'z'
    ensures '(' !in t && '=' !in t && NoLineBreak(t) && ToLowerCase(Trim(t)) == t
  {
    TrimFixed(t);
    LowerOfLower(t);
  }

  /** The type word of a recognised kind fits the type group and is its
      own trimmed, lower-cased form. */
  lemma KindWord(k: Kind)
    requires k != Raw
    ensures var t := TypeName(k);
      '(' !in t && '=' !in t && |t| >= 1 && NoLineBreak(t) && ToLowerCase(Trim(t)) == t
  {
    LowerWord(TypeName(k));
  }

  /** Re-parsing a clause text with a normal version and a normal, non-empty
      operand: with a one-character version nothing matches and the text is
      raw; otherwise the parts come back as written. */
  lemma Reparse(ver: string, k: Kind, q: string)
    requires k != Raw && NormalVersion(ver) && |q| >= 1 && NormalOperand(q)
    ensures |ver| == 1 ==> Parse(ClauseText(ver, TypeName(k), q)).kind == Raw
    ensures |ver| >= 2 ==>
      Parse(ClauseText(ver, TypeName(k), q)) == FromParts(ClauseText(ver, TypeName(k), q), ver, TypeName(k), q)
  {
    KindWord(k);
    var t := TypeName(k);
    hide *;
    if |ver| == 1 {
      ClauseNoMatchShortVersion(ver, t, q);
    } else {
      ParseClauseText(ver, t, q);
    }
  }

  /** The text a parsed user clause serialises to parses back to fields that
      serialise to the same text. */
  lemma UserStable(ver: string, op: string)
    requires NormalVersion(ver) && NormalOperand(op)
    ensures var y := Render(Clause(ver, User, UserValue(op), "")); Render(Parse(y)) == y
  {
    var u := UserValue(op);
    var q := "\"" + u + "\"";
    SubstringNoLineBreak(op, 1, |op| - 1);
    UserValueEq(op);
    if op == "=" {
      assert q == "\"=\"";
      ClauseEqInOperand(ver, "user", q, 1);
    } else {
      UserOperandShape(u);
      Reparse(ver, User, q);
    }
  }

  /** A header clause whose value and pattern hold no '=' and no line break,
      and whose value holds a ':' only when it is ":", serialises to a text
      that parses back to fields serialising to that same text. */
  lemma HeaderReparse(ver: string, h: string, p: string)
    requires NormalVersion(ver) && '=' !in h && '=' !in p && NoLineBreak(h) && NoLineBreak(p)
    requires ':' in h ==> h == ":"
    ensures var y := Render(Clause(ver, Header, h, p)); Render(Parse(y)) == y
  {
    var q := "\"" + h + ":" + p + "\"";
    var y := ClauseText(ver, "header", q);
    assert Render(Clause(ver, Header, h, p)) == y;
    HeaderOperandShape(h, p);
    Reparse(ver, Header, q);
    if |ver| >= 2 {
      assert Parse(y) == Clause(ver, Header, HeaderValue(q), HeaderPattern(q));
      HeaderRejoin(h, p);
    }
  }

  /** The text a parsed header clause serialises to parses back to fields that
      serialise to the same text. */
  lemma HeaderStable(ver: string, op: string)
    requires NormalVersion(ver) && NormalOperand(op)
    ensures var y := Render(Clause(ver, Header, HeaderValue(op), HeaderPattern(op))); Render(Parse(y)) == y
  {
    var h, p := HeaderValue(op), HeaderPattern(op);
    SubstringNoLineBreak(op, 1, Strings.IndexOf(op, ':'));
    SubstringNoLineBreak(op, Strings.IndexOf(op, ':') + 1, |op| - 1);
    assert NoLineBreak(h) && NoLineBreak(p);
    HeaderPartsEq(op);
    if op == "=" {
      assert h == "=" && p == "";
      hide HeaderValue;
      hide HeaderPattern;
      var q := "\"" + h + ":" + p + "\"";
      assert q == "\"=:\"";
      ClauseEqInOperand(ver, "header", q, 1);
    } else {
      hide *;
      HeaderReparse(ver, h, p);
    }
  }

  /** The text a parsed weight clause with a non-empty operand serialises to
      parses back to the same fields. */
  lemma WeightStable(ver: string, op: string)
    requires NormalVersion(ver) && NormalOperand(op) && op != ""
    ensures var y := Render(Clause(ver, Weight, op, "")); Render(Parse(y)) == y
  {
    Reparse(ver, Weight, op);
  }

  /** The kept version and operand of a match are normal. */
  lemma MatchedParts(s: string, g: Groups)
    requires Match(s) == Some(g)
    ensures NormalVersion(VersionPart(s, g)) && NormalOperand(OperandPart(s, g))
  {
    hide Parse;
    hide Match;
    MatchedGroups(s, g);
    KeptVersion(s[g.start..g.open]);
    KeptOperand(s[g.eq + 1..g.close]);
  }

  /** What the constructor keeps of a match: the version is group 1 trimmed
      and lower-cased, and so is its own trim and lower-case form; the clause
      is raw exactly when group 2, trimmed and lower-cased, names no known
      type, and raw text is the whole clause. */
  lemma ParseMatched(s: string, g: Groups)
    requires Match(s) == Some(g)
    ensures Parse(s).version == ToLowerCase(Trim(s[g.start..g.open]))
    ensures NormalVersion(Parse(s).version)
    ensures var t := ToLowerCase(Trim(s[g.open + 1..g.eq]));
      Parse(s).kind == Raw <==> t != "user" && t != "header" && t != "weight"
    ensures Parse(s).kind == Raw ==> Parse(s).value == s
  {
    hide Parse;
    hide Match;
    hide FromParts;
    hide Trim;
    hide ToLowerCase;
    hide OperandPart;
    hide NormalVersion;
    ParseOfMatch(s, g);
    MatchedParts(s, g);
  }

  /** How the fields of a clause rebuild its operand `o`: a user value is `o`
      without its first and last character (a shorter `o` is kept whole); a
      header value and pattern are what lies between the first character,
      the first ':' and the last character (with no ':', the first character
      and `o` without its last one); a weight is `o`. */
  predicate RebuildsOperand(o: string, c: Clause)
  {
    && (c.kind == User && |o| >= 2 ==> o == o[..1] + c.value + o[|o| - 1..])
    && (c.kind == User && |o| <= 1 ==> c.value == o)
    && (c.kind == Header && 1 <= Strings.IndexOf(o, ':') <= |o| - 2 ==>
          o == o[..1] + c.value + ":" + c.pattern + o[|o| - 1..])
    && (c.kind == Header && ':' !in o ==>
          c.value == o[..if |o| == 0 then 0 else 1] && c.pattern == o[..if |o| == 0 then 0 else |o| - 1])
    && (c.kind == Weight ==> c.value == o)
  }

  /** The fields of a matched clause rebuild its trimmed group 3. */
  lemma MatchedFields(s: string, g: Groups)
    requires Match(s) == Some(g)
    ensures RebuildsOperand(Trim(s[g.eq + 1..g.close]), Parse(s))
  {
    hide Parse;
    hide Match;
    hide FromParts;
    hide Trim;
    hide ToLowerCase;
    hide VersionPart;
    hide TypePart;
    hide RebuildsOperand;
    hide IsWhitespace;
    var o := OperandPart(s, g);
    assert o == Trim(s[g.eq + 1..g.close]);
    hide OperandPart;
    ParseOfMatch(s, g);
    FromPartsRebuilds(s, VersionPart(s, g), TypePart(s, g), o);
  }

  /** The branch on the type text decomposes the operand as `RebuildsOperand` says. */
  lemma FromPartsRebuilds(rule: string, version: string, typeText: string, o: string)
    ensures RebuildsOperand(o, FromParts(rule, version, typeText, o))
  {
    OperandRebuilt(o);
  }

  /** A user operand without its ends, and a header operand cut at its first
      ':', put back together give the operand. */
  lemma OperandRebuilt(o: string)
    ensures |o| >= 2 ==> o == o[..1] + UserValue(o) + o[|o| - 1..]
    ensures 1 <= Strings.IndexOf(o, ':') <= |o| - 2 ==> o == o[..1] + HeaderValue(o) + ":" + HeaderPattern(o) + o[|o| - 1..]
  {
    var i := Strings.IndexOf(o, ':');
    if 1 <= i <= |o| - 2 {
      assert HeaderValue(o) == o[1..i];
      assert HeaderPattern(o) == o[i + 1..|o| - 1];
      CutAtColon(o, i);
    }
  }

  /** A text is its first character, what lies up to the ':' at `i`, that
      ':', what follows up to the last character, and the last character. */
  lemma CutAtColon(o: string, i: nat)
    requires 1 <= i <= |o| - 2 && o[i] == ':'
    ensures o == o[..1] + o[1..i] + ":" + o[i + 1..|o| - 1] + o[|o| - 1..]
  {
    assert o[..1] + o[1..i] == o[..i];
    assert o[..i] + ":" == o[..i + 1];
    assert o[..i + 1] + o[i + 1..|o| - 1] == o[..|o| - 1];
  }


  /** `createRule` after the constructor is stable: the text it produces
      parses back to fields that `createRule` turns into that same text.
      A weight whose operand trims to nothing is the one exception. */
  lemma RenderParseStable(s: string)
    requires !(Parse(s).kind == Weight && Parse(s).value == "")
    ensures Render(Parse(Render(Parse(s)))) == Render(Parse(s))
  {
    var c := Parse(s);
    if c.kind != Raw {
      assert Match(s).Some?;
      var g := Match(s).value;
      MatchedParts(s, g);
      ParseOfMatch(s, g);
      var ver, t, o := VersionPart(s, g), TypePart(s, g), OperandPart(s, g);
      assert c == FromParts(s, ver, t, o);
      hide Parse;
      hide Match;
      hide VersionPart;
      hide TypePart;
      hide OperandPart;
      match c.kind
      case User =>
        assert c == Clause(ver, User, UserValue(o), "");
        UserStable(ver, o);
      case Header =>
        assert c == Clause(ver, Header, HeaderValue(o), HeaderPattern(o));
        HeaderStable(ver, o);
      case Weight =>
        assert c == Clause(ver, Weight, o, "");
        WeightStable(ver, o);
    }
  }

  // ---------------------------------------------------------------------
  // Examples

  /** A text without '(' never matches and is kept whole as raw text. */
  lemma NoParenIsRaw(s: string)
    requires '(' !in s
    ensures Parse(s) == Clause("", Raw, s, "")
  {
    forall g: Groups ensures !Fits(s, g) {
      if g.open < |s| {
        assert s[g.open] in s;
      }
    }
  }

  lemma ExampleGarbage()
    ensures Parse("garbage") == Clause("", Raw, "garbage", "")
  {
    NoParenIsRaw("garbage");
  }

  /** A clause text of an unrecognised type keeps its version and is
      otherwise raw text, the whole clause. */
  lemma UnknownTypeIsRaw(a: string, t: string, v: string)
    requires |a| >= 2 && InClass(a[0]) && |t| >= 1 && |v| >= 1
    requires '(' !in t && '=' !in t && EqOnlyLast(v)
    requires NoLineBreak(a) && NoLineBreak(t) && NoLineBreak(v)
    requires var tt := ToLowerCase(Trim(t)); tt != "user" && tt != "header" && tt != "weight"
    ensures Parse(ClauseText(a, t, v)) == Clause(ToLowerCase(Trim(a)), Raw, ClauseText(a, t, v), "")
  {
    ParseClauseText(a, t, v);
  }
}
