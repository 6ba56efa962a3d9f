/** Routing selectors between the command line and the controller:
    `set_routing` encodes display selectors `ver(rule)` as the wire text
    `{ver={rule},...}`, and `service_list` reads such a text back into
    `ver(rule), ...`. */
module RoutingWire {
  import opened Wrappers
  import Strings

  // ---------------------------------------------------------------------
  // set_routing

  /** One display selector in wire form: every '(' becomes "={" and every ')'
      becomes "}". */
  function ToWire(selector: string): (r: string)
    ensures '(' !in r && ')' !in r
    ensures '(' !in selector && ')' !in selector ==> r == selector
  {
    var mid := Strings.Replace(selector, '(', "={");
    Strings.ReplaceKeeps(mid, ')', "}", '(');
    Strings.Replace(mid, ')', "}")
  }

  /** The wire form of each selector, in order. */
  function WireEach(selectors: seq<string>): (r: seq<string>)
    ensures |r| == |selectors|
    ensures forall i :: 0 <= i < |selectors| ==> r[i] == ToWire(selectors[i])
  {
    seq(|selectors|, i requires 0 <= i < |selectors| => ToWire(selectors[i]))
  }

  /** The wire text of several selectors: their wire forms joined with ','
      and wrapped in braces. */
  function WireSelectors(selectors: seq<string>): (r: string)
    ensures |r| >= 2 && r[0] == '{' && r[|r| - 1] == '}'
    ensures StripBraces(r) == Strings.Join(",", WireEach(selectors))
  {
    StripWrapped(Strings.Join(",", WireEach(selectors)));
    "{" + Strings.Join(",", WireEach(selectors)) + "}"
  }

  /** The arguments of `set_routing`: the default version ("" when not given)
      and the `--selector` arguments. */
  datatype RoutingArgs = RoutingArgs(defaultVersion: string, selectors: seq<string>)

  /** The routing request: the `default` and `selectors` keys, each when present. */
  datatype RoutingRequest = RoutingRequest(defaultVersion: Option<string>, selectors: Option<string>)

  /** The exit status of a command called without what it needs. */
  const EXIT_USAGE: nat := 4

  /** `set_routing(args)` up to the request it puts: exit 4 when neither a
      default nor a selector is given; otherwise `default` when a default is
      given and `selectors`, the wire text, when a selector is. */
  method SetRouting(args: RoutingArgs) returns (r: Result<RoutingRequest, nat>)
    ensures r.Err? <==> args.defaultVersion == "" && args.selectors == []
    ensures r.Err? ==> r.error == EXIT_USAGE
    ensures r.Ok? ==> (r.value.defaultVersion.Some? <==> args.defaultVersion != "")
    ensures r.Ok? && r.value.defaultVersion.Some? ==> r.value.defaultVersion.value == args.defaultVersion
    ensures r.Ok? ==> (r.value.selectors.Some? <==> args.selectors != [])
    ensures r.Ok? && r.value.selectors.Some? ==> r.value.selectors.value == WireSelectors(args.selectors)
  {
    if args.defaultVersion == "" && args.selectors == [] {
      return Err(EXIT_USAGE);
    }
    var request := RoutingRequest(None, None);
    if args.defaultVersion != "" {
      request := request.(defaultVersion := Some(args.defaultVersion));
    }
    if args.selectors != [] {
      var list: seq<string> := [];
      for i := 0 to |args.selectors|
        invariant |list| == i
        invariant forall j :: 0 <= j < i ==> list[j] == ToWire(args.selectors[j])
      {
        list := list + [ToWire(args.selectors[i])];
      }
      assert list == WireEach(args.selectors);
      request := request.(selectors := Some("{" + Strings.Join(",", list) + "}"));
    }
    return Ok(request);
  }

  /** Replacing in four consecutive pieces replaces in each piece. */
  lemma ReplaceFour(a: string, b: string, c: string, d: string, target: char, rep: string)
    ensures Strings.Replace(a + b + c + d, target, rep)
         == Strings.Replace(a, target, rep) + Strings.Replace(b, target, rep)
          + Strings.Replace(c, target, rep) + Strings.Replace(d, target, rep)
  {
    Strings.ReplaceAppend(a + b + c, d, target, rep);
    Strings.ReplaceAppend(a + b, c, target, rep);
    Strings.ReplaceAppend(a, b, target, rep);
  }

  /** The wire form of `v(r)` when neither part holds a parenthesis. */
  lemma ToWireDisplay(v: string, r: string)
    requires '(' !in v && ')' !in v && '(' !in r && ')' !in r
    ensures ToWire(v + "(" + r + ")") == v + "={" + r + "}"
  {
    assert Strings.Replace("(", '(', "={") == "={";
    ReplaceFour(v, "(", r, ")", '(', "={");
    assert Strings.Replace(v + "(" + r + ")", '(', "={") == v + "={" + r + ")";
    assert Strings.Replace(")", ')', "}") == "}";
    ReplaceFour(v, "={", r, ")", ')', "}");
  }

  // ---------------------------------------------------------------------
  // The read path of service_list

  /** Python's `t[:end]`: a negative end counts from the back, and the end is
      clamped to the string. */
  function PyPrefix(t: string, end: int): (r: string)
    ensures |r| <= |t| && r == t[..|r|]
    ensures |r| == if end < 0 then (if |t| + end < 0 then 0 else |t| + end) else if end > |t| then |t| else end
  {
    if end < 0 then (if |t| + end < 0 then "" else t[..|t| + end])
    else if end > |t| then t
    else t[..end]
  }

  /** `sel[sel.find("{")+1:][:sel.rfind("}")-1]`: the text after the first
      '{', cut at an index taken from the last '}' of the whole text. */
  function StripBraces(sel: string): (r: string)
    ensures |sel| >= 2 && sel[0] == '{' && sel[|sel| - 1] == '}' ==> r == sel[1..|sel| - 1]
    ensures '{' !in sel && '}' !in sel ==> r == sel[..if |sel| < 2 then 0 else |sel| - 2]
  {
    PyPrefix(sel[Strings.IndexOf(sel, '{') + 1..], Strings.LastIndexOf(sel, '}') - 1)
  }

  /** Stripping a text that starts with '{' and ends with '}' gives what lies
      between them. */
  lemma StripWrapped(inner: string)
    ensures StripBraces("{" + inner + "}") == inner
  {
    var sel := "{" + inner + "}";
    assert sel[0] == '{';
    assert Strings.IndexOf(sel, '{') == 0;
    assert sel[|sel| - 1] == '}' && sel[|sel|..] == [];
    assert Strings.LastIndexOf(sel, '}') == |sel| - 1;
    assert sel[1..] == inner + "}";
  }

  /** The index of the '#' that ends `{rule}#` at the end of `t`: `$` matches
      at the very end, and before a final newline. */
  function ClosingHash(t: string): (h: Option<nat>)
    ensures h.Some? ==> h.value < |t| && ClosingAt(t, h.value)
    ensures h.None? <==> forall j: nat :: !ClosingAt(t, j)
    ensures h.Some? ==> forall j: nat :: ClosingAt(t, j) ==> j == h.value
  {
    if |t| >= 1 && t[|t| - 1] == '#' then
      assert ClosingAt(t, |t| - 1);
      Some(|t| - 1)
    else if |t| >= 2 && t[|t| - 2] == '#' && t[|t| - 1] == '\n' then
      assert ClosingAt(t, |t| - 2);
      Some(|t| - 2)
    else None
  }

  /** A '#' at `h` that `$` accepts after it: the last character, or the one
      before a final newline. */
  predicate ClosingAt(t: string, h: nat)
  {
    h < |t| && t[h] == '#' && (h == |t| - 1 || (h == |t| - 2 && t[|t| - 1] == '\n'))
  }

  /** `t` matches the format with the version `t[..k]`, "=#" at `k`, the rule
      `t[k + 2..h]` and the closing '#' at `h`. */
  predicate SplitsAt(t: string, k: nat, h: nat)
  {
    1 <= k && k + 3 <= h && ClosingAt(t, h) && EqHashAt(t, k)
  }

  /** "=#" starts at `k` in `t`. */
  predicate EqHashAt(t: string, k: nat)
    requires k + 1 < |t|
  {
    t[k] == '=' && t[k + 1] == '#'
  }

  /** The lazy `{version}`: the first `k >= from` where "=#" starts and leaves
      at least one character of rule before the closing '#' at `h`. */
  function VersionEnd(t: string, from: nat, h: nat): (r: Option<nat>)
    requires h < |t|
    ensures r.Some? ==> from <= r.value && r.value + 3 <= h && EqHashAt(t, r.value)
    ensures r.Some? ==> forall j :: from <= j < r.value ==> !EqHashAt(t, j)
    ensures r.None? ==> forall j :: from <= j && j + 3 <= h ==> !EqHashAt(t, j)
    decreases h - from
  {
    if from + 3 > h then None
    else if EqHashAt(t, from) then Some(from)
    else VersionEnd(t, from + 1, h)
  }

  /** `SELECTOR_PARSER.parse(t)` for the format `{version}=#{rule}#`: the
      whole of `t` matched, each field lazily taking at least one character,
      any character included. */
  function ParseSelector(t: string): (r: Option<(string, string)>)
    ensures r.Some? ==> |r.value.0| >= 1 && |r.value.1| >= 1
    ensures r.Some? ==> t == r.value.0 + "=#" + r.value.1 + "#" || t == r.value.0 + "=#" + r.value.1 + "#\n"
    ensures r.None? <==> forall k: nat, h: nat :: !SplitsAt(t, k, h)
    ensures r.Some? ==> SplitsAt(t, |r.value.0|, |r.value.0| + 2 + |r.value.1|)
    ensures r.Some? ==> forall k: nat, h: nat :: k < |r.value.0| ==> !SplitsAt(t, k, h)
  {
    match ClosingHash(t)
    case None => None
    case Some(h) =>
      match VersionEnd(t, 1, h)
      case None => None
      case Some(k) =>
        assert t == t[..k] + "=#" + t[k + 2..h] + t[h..];
        assert t[h..] == "#" || t[h..] == "#\n";
        assert SplitsAt(t, k, h);
        Some((t[..k], t[k + 2..h]))
  }

  /** No "=#" inside `x`. */
  predicate NoEqHash(x: string)
  {
    forall k :: 0 <= k < |x| - 1 ==> !(x[k] == '=' && x[k + 1] == '#')
  }

  /** The parser splits `v=#r#` back into `v` and `r` when `v` holds no "=#". */
  lemma ParseHashed(v: string, r: string)
    requires |v| >= 1 && |r| >= 1 && NoEqHash(v)
    ensures ParseSelector(v + "=#" + r + "#") == Some((v, r))
  {
    var t := v + "=#" + r + "#";
    var h := |t| - 1;
    assert ClosingHash(t) == Some(h);
    assert EqHashAt(t, |v|);
    forall j | 1 <= j < |v| ensures !EqHashAt(t, j) {
      if j < |v| - 1 {
        assert t[j] == v[j] && t[j + 1] == v[j + 1];
      } else {
        assert t[j + 1] == '=';
      }
    }
    assert VersionEnd(t, 1, h) == Some(|v|);
    assert t[..|v|] == v;
    assert t[|v| + 2..h] == r;
  }

  /** The failure of the read path: `parse` finds no match, and reading its
      fields raises a `TypeError`. */
  datatype Crash = TypeError

  /** One wire selector prepared for the parser: '{' and '}' become '#'. */
  function Hashed(piece: string): (r: string)
    ensures '{' !in r && '}' !in r
    ensures '{' !in piece && '}' !in piece ==> r == piece
  {
    var mid := Strings.Replace(piece, '{', "#");
    Strings.ReplaceKeeps(mid, '}', "#", '{');
    Strings.Replace(mid, '}', "#")
  }

  /** `v={r}` with its braces rewritten is `v=#r#`. */
  lemma HashedWire(v: string, r: string)
    requires '{' !in v && '}' !in v && '{' !in r && '}' !in r
    ensures Hashed(v + "={" + r + "}") == v + "=#" + r + "#"
  {
    assert Strings.Replace("={", '{', "#") == "=#";
    ReplaceFour(v, "={", r, "}", '{', "#");
    assert Strings.Replace(v + "={" + r + "}", '{', "#") == v + "=#" + r + "}";
    assert Strings.Replace("}", '}', "#") == "#";
    ReplaceFour(v, "=#", r, "}", '}', "#");
  }

  /** The display text `version(rule)` of one wire piece, or None when the
      parser rejects it. */
  function ReadOne(piece: string): Option<string>
  {
    match ParseSelector(Hashed(piece))
    case None => None
    case Some(p) => Some(p.0 + "(" + p.1 + ")")
  }

  /** The display text of each wire piece, `version(rule)`, or the crash of
      the first piece the parser rejects. */
  function ReadPieces(pieces: seq<string>): (r: Result<seq<string>, Crash>)
    ensures r.Err? ==> r == Err(TypeError)
    ensures r.Ok? ==> |r.value| == |pieces|
  {
    if |pieces| == 0 then Ok([])
    else
      var init := pieces[..|pieces| - 1];
      match ReadPieces(init)
      case Err(e) => Err(e)
      case Ok(vs) =>
        match ReadOne(pieces[|pieces| - 1])
        case None => Err(TypeError)
        case Some(d) => Ok(vs + [d])
  }

  /** A successful read gives, piece by piece, each piece's display text. */
  lemma {:induction false} ReadPiecesEach(pieces: seq<string>)
    ensures ReadPieces(pieces).Ok? ==>
      forall i :: 0 <= i < |pieces| ==> ReadOne(pieces[i]) == Some(ReadPieces(pieces).value[i])
  {
    hide ReadOne;
    if |pieces| > 0 {
      var init := pieces[..|pieces| - 1];
      assert forall i :: 0 <= i < |init| ==> init[i] == pieces[i];
      ReadPiecesEach(init);
    }
  }

  /** The read succeeds when every piece parses. */
  lemma {:induction false} ReadPiecesOk(pieces: seq<string>)
    requires forall i :: 0 <= i < |pieces| ==> ReadOne(pieces[i]).Some?
    ensures ReadPieces(pieces).Ok?
  {
    hide ReadOne;
    if |pieces| > 0 {
      var init := pieces[..|pieces| - 1];
      assert forall i :: 0 <= i < |init| ==> init[i] == pieces[i];
      ReadPiecesOk(init);
    }
  }

  /** The selector text `service_list` shows for a filter's selectors: empty
      for an empty one; otherwise the braces stripped, the ','-separated
      pieces read, and the results joined with ", ". */
  function ReadPath(sel: string): (r: Result<string, Crash>)
    ensures sel == "" ==> r == Ok("")
    ensures r.Err? <==> sel != "" && ReadPieces(Strings.Split(StripBraces(sel), ',')).Err?
    ensures r.Ok? && sel != "" ==>
      var ps := Strings.Split(StripBraces(sel), ',');
      exists ds :: && |ds| == |ps|
                   && (forall i :: 0 <= i < |ps| ==> ReadOne(ps[i]) == Some(ds[i]))
                   && r.value == Strings.Join(", ", ds)
  {
    if sel == "" then Ok("")
    else
      var ps := Strings.Split(StripBraces(sel), ',');
      match ReadPieces(ps)
      case Err(e) => Err(e)
      case Ok(versions) =>
        ReadPiecesEach(ps);
        assert |versions| == |ps| && forall i :: 0 <= i < |ps| ==> ReadOne(ps[i]) == Some(versions[i]);
        Ok(Strings.Join(", ", versions))
  }

  /** A piece that fails to parse makes every longer list fail. */
  lemma {:induction false} ReadPiecesFails(pieces: seq<string>, i: nat)
    requires i <= |pieces| && ReadPieces(pieces[..i]) == Err(TypeError)
    ensures ReadPieces(pieces) == Err(TypeError)
    decreases |pieces| - i
  {
    if i < |pieces| {
      assert pieces[..i + 1][..i] == pieces[..i];
      ReadPiecesFails(pieces, i + 1);
    } else {
      assert pieces[..i] == pieces;
    }
  }

  /** The read path of `service_list` as the loop it is. */
  method ReadSelectors(sel: string) returns (r: Result<string, Crash>)
    ensures r == ReadPath(sel)
  {
    hide ParseSelector;
    hide Hashed;
    if sel == "" {
      return Ok("");
    }
    var pieces := Strings.Split(StripBraces(sel), ',');
    var versions: seq<string> := [];
    for i := 0 to |pieces|
      invariant ReadPieces(pieces[..i]) == Ok(versions)
    {
      assert pieces[..i + 1][..i] == pieces[..i];
      var parsed := ParseSelector(Hashed(pieces[i]));
      if parsed.None? {
        ReadPiecesFails(pieces, i + 1);
        return Err(TypeError);
      }
      versions := versions + [parsed.value.0 + "(" + parsed.value.1 + ")"];
    }
    assert pieces[..|pieces|] == pieces;
    return Ok(Strings.Join(", ", versions));
  }

  // ---------------------------------------------------------------------
  // The round trip

  /** A display selector's part: non-empty, and none of `( ) { } ,`. */
  predicate PlainPart(x: string)
  {
    |x| >= 1 && '(' !in x && ')' !in x && '{' !in x && '}' !in x && ',' !in x
  }

  /** A display selector `version(rule)`. */
  function DisplayText(p: (string, string)): string
  {
    p.0 + "(" + p.1 + ")"
  }

  /** The display texts of several selectors, in order. */
  function Displays(ps: seq<(string, string)>): (r: seq<string>)
    ensures |r| == |ps|
    ensures forall i :: 0 <= i < |ps| ==> r[i] == DisplayText(ps[i])
  {
    seq(|ps|, i requires 0 <= i < |ps| => DisplayText(ps[i]))
  }

  /** The selectors a round trip is exact for: plain parts, and a version
      without "=#". */
  predicate Readable(p: (string, string))
  {
    PlainPart(p.0) && PlainPart(p.1) && NoEqHash(p.0)
  }

  /** The wire form of a readable display selector. */
  lemma WireOfDisplay(p: (string, string))
    requires Readable(p)
    ensures ToWire(DisplayText(p)) == p.0 + "={" + p.1 + "}"
    ensures ',' !in ToWire(DisplayText(p))
    ensures ParseSelector(Hashed(ToWire(DisplayText(p)))) == Some(p)
  {
    ToWireDisplay(p.0, p.1);
    var w := p.0 + "={" + p.1 + "}";
    assert ',' !in w by {
      forall k | 0 <= k < |w| ensures w[k] != ',' {
        if k < |p.0| { assert w[k] == p.0[k]; }
        else if |p.0| + 2 <= k < |w| - 1 { assert w[k] == p.1[k - |p.0| - 2]; }
      }
    }
    HashedWire(p.0, p.1);
    ParseHashed(p.0, p.1);
  }

  /** Every wire piece of readable selectors reads back as its display text. */
  lemma {:induction false} ReadPiecesOfWire(ps: seq<(string, string)>)
    requires forall i :: 0 <= i < |ps| ==> Readable(ps[i])
    ensures ReadPieces(WireEach(Displays(ps))) == Ok(Displays(ps))
  {
    hide ParseSelector;
    hide Hashed;
    hide ToWire;
    if |ps| > 0 {
      var n := |ps|;
      var init := ps[..n - 1];
      ReadPiecesOfWire(init);
      assert WireEach(Displays(ps))[..n - 1] == WireEach(Displays(init));
      WireOfDisplay(ps[n - 1]);
      assert Displays(ps) == Displays(init) + [DisplayText(ps[n - 1])];
    }
  }

  /** Reading back the wire text `set_routing` puts for readable selectors
      gives exactly those selectors joined with ", ". */
  lemma WireRoundTrip(ps: seq<(string, string)>)
    requires |ps| >= 1
    requires forall i :: 0 <= i < |ps| ==> Readable(ps[i])
    ensures ReadPath(WireSelectors(Displays(ps))) == Ok(Strings.Join(", ", Displays(ps)))
  {
    var w := WireEach(Displays(ps));
    forall i | 0 <= i < |w| ensures ',' !in w[i] {
      WireOfDisplay(ps[i]);
    }
    StripWrapped(Strings.Join(",", w));
    Strings.SplitJoin(w, ',');
    ReadPiecesOfWire(ps);
  }
}
