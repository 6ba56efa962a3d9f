/** The routing editor of the web console: the view of a service, the list
    formatting it shows, and the edit session over a service's selectors. */
module RoutesView {
  import opened Wrappers
  import opened JsStrings
  import Strings
  import opened SelectorClause

  /** The version a service without a default is shown with. */
  const UNVERSIONED: string := "UNVERSIONED"

  /** The separator of the rendered version list. */
  const LIST_SEPARATOR: string := ", "

  /** One entry of a service's version list: a version and how many
      instances run it. */
  datatype VersionInfo = VersionInfo(name: string, numInstances: nat)

  /** A service as the console's service list delivers it (its JSON keys
      `name`, `href`, `versions`, `default_version`, `selectors`, `is_active`). */
  datatype ServiceRecord = ServiceRecord(name: string, href: string, versions: seq<VersionInfo>,
                                         defaultVersion: string, selectors: string, isActive: bool)

  /** `Service`: the editor's view of a service. */
  datatype Service = Service(name: string, href: string, versions: seq<VersionInfo>,
                             defaultVersion: string, versionSelectors: string, isActive: bool)

  /** `new Service(service)`: the fields of the record, or, with no record,
      an empty service whose default is `UNVERSIONED`. */
  function MakeService(record: Option<ServiceRecord>): (s: Service)
    ensures record.None? ==> s == Service("", "", [], UNVERSIONED, "", false)
  {
    match record
    case None => Service("", "", [], UNVERSIONED, "", false)
    case Some(r) => Service(r.name, r.href, r.versions, r.defaultVersion, r.selectors, r.isActive)
  }

  /** The record a service view shows. */
  function RecordOf(s: Service): ServiceRecord
  {
    ServiceRecord(s.name, s.href, s.versions, s.defaultVersion, s.versionSelectors, s.isActive)
  }

  /** The view of a record keeps every field of it. */
  lemma MakeServiceKeeps(r: ServiceRecord)
    ensures RecordOf(MakeService(Some(r))) == r
    ensures MakeService(Some(RecordOf(MakeService(Some(r))))) == MakeService(Some(r))
  {
  }

  // ---------------------------------------------------------------------
  // Decimal rendering of an instance count

  /** The digit character for `d`. */
  function DigitChar(d: nat): char
    requires d < 10
  {
    ('0' as int + d) as char
  }

  /** Every character of `s` is a decimal digit. */
  predicate AllDigits(s: string)
  {
    forall k :: 0 <= k < |s| ==> '0' <= s[k] <= '9'
  }

  /** A non-negative integer as JavaScript writes it when it is concatenated
      to a string: its decimal digits, with no leading zero. */
  function Decimal(n: nat): (r: string)
    ensures |r| >= 1 && AllDigits(r)
    ensures r[0] == '0' <==> n == 0
  {
    if n < 10 then [DigitChar(n)] else Decimal(n / 10) + [DigitChar(n % 10)]
  }

  /** The number a string of decimal digits denotes. */
  function DigitsValue(s: string): nat
    requires AllDigits(s)
  {
    if |s| == 0 then 0 else DigitsValue(s[..|s| - 1]) * 10 + (s[|s| - 1] as int - '0' as int)
  }

  /** The rendering of a count denotes that count. */
  lemma {:induction false} DecimalValue(n: nat)
    ensures DigitsValue(Decimal(n)) == n
  {
    if n >= 10 {
      var r := Decimal(n);
      assert r[..|r| - 1] == Decimal(n / 10);
      DecimalValue(n / 10);
    }
  }

  // ---------------------------------------------------------------------
  // List formatting

  /** `getVersionOptions(versions)`: the names of the versions, in order. */
  method GetVersionOptions(versions: seq<VersionInfo>) returns (res: seq<string>)
    ensures |res| == |versions|
    ensures forall i :: 0 <= i < |versions| ==> res[i] == versions[i].name
  {
    res := [];
    for i := 0 to |versions|
      invariant |res| == i
      invariant forall j :: 0 <= j < i ==> res[j] == versions[j].name
    {
      res := res + [versions[i].name];
    }
  }

  /** The text of one version entry, `name(count)`. */
  function EntryText(v: VersionInfo): (r: string)
    ensures |r| >= |v.name| + 3 && r[..|v.name|] == v.name
    ensures r[|v.name|] == '(' && r[|r| - 1] == ')' && '(' !in r[|v.name| + 1..]
    ensures AllDigits(r[|v.name| + 1..|r| - 1])
  {
    var r := v.name + "(" + Decimal(v.numInstances) + ")";
    assert r[|v.name| + 1..|r| - 1] == Decimal(v.numInstances);
    assert forall k :: |v.name| + 1 <= k < |r| - 1 ==> r[k] == Decimal(v.numInstances)[k - |v.name| - 1];
    r
  }

  /** The entries of a version list, in order. */
  function Entries(versions: seq<VersionInfo>): (r: seq<string>)
    ensures |r| == |versions|
    ensures forall i :: 0 <= i < |versions| ==> r[i] == EntryText(versions[i])
  {
    seq(|versions|, i requires 0 <= i < |versions| => EntryText(versions[i]))
  }

  /** `versionText()`: the entries of the service's versions joined with `, `. */
  method VersionText(s: Service) returns (r: string)
    ensures r == Strings.Join(LIST_SEPARATOR, Entries(s.versions))
  {
    var instances: seq<string> := [];
    for i := 0 to |s.versions|
      invariant instances == Entries(s.versions[..i])
    {
      assert s.versions[..i + 1] == s.versions[..i] + [s.versions[i]];
      instances := instances + [EntryText(s.versions[i])];
    }
    assert s.versions[..|s.versions|] == s.versions;
    r := Strings.Join(LIST_SEPARATOR, instances);
  }

  /** Reads an entry back: the name is what precedes the last '(', the count
      the digits between it and the closing ')'. */
  function ReadEntry(e: string): Option<VersionInfo>
  {
    var p := Strings.LastIndexOf(e, '(');
    if p < 0 || |e| < p + 2 || e[|e| - 1] != ')' || !AllDigits(e[p + 1..|e| - 1]) then None
    else Some(VersionInfo(e[..p], DigitsValue(e[p + 1..|e| - 1])))
  }

  /** Every entry reads back as the version it shows. */
  lemma EntryRoundTrip(v: VersionInfo)
    ensures ReadEntry(EntryText(v)) == Some(v)
  {
    var e := EntryText(v);
    var d := Decimal(v.numInstances);
    var p := |v.name|;
    assert e[p] == '(';
    assert e[p + 1..|e| - 1] == d;
    assert '(' !in e[p + 1..] by {
      forall k | p + 1 <= k < |e| ensures e[k] != '(' {
        if k < |e| - 1 { assert e[k] == d[k - p - 1]; }
      }
    }
    assert Strings.LastIndexOf(e, '(') == p;
    assert e[..p] == v.name;
    DecimalValue(v.numInstances);
  }

  // ---------------------------------------------------------------------
  // The edit session

  /** The body `modifyRoutes` posts: the service, and the default version and
      the selector text when there are any. */
  datatype RoutesBody = RoutesBody(service: string, defaultVersion: Option<string>, versionSelectors: Option<string>)

  /** The posted body for a service name, a selected version and the fields
      of the selectors being edited. */
  function Body(service: string, selectedVersion: string, clauses: seq<Clause>): (b: RoutesBody)
    ensures b.service == service
    ensures b.defaultVersion.Some? <==> selectedVersion != ""
    ensures b.defaultVersion.Some? ==> b.defaultVersion.value == selectedVersion
    ensures b.versionSelectors.Some? <==> SelectorText(clauses) != ""
    ensures b.versionSelectors.Some? ==> b.versionSelectors.value == SelectorText(clauses)
  {
    var text := SelectorText(clauses);
    RoutesBody(service,
               if selectedVersion != "" then Some(selectedVersion) else None,
               if text != "" then Some(text) else None)
  }

  /** The serialised clauses joined with ',' and trimmed. */
  function SelectorText(clauses: seq<Clause>): (r: string)
    ensures Trim(r) == r
    ensures |clauses| == 0 ==> r == ""
    ensures var j := Strings.Join(",", Renders(clauses));
      (|j| == 0 || (!IsWhitespace(j[0]) && !IsWhitespace(j[|j| - 1]))) ==> r == j
    ensures var j := Strings.Join(",", Renders(clauses));
      && LeadingSpace(j) + |r| <= |j| && r == j[LeadingSpace(j)..LeadingSpace(j) + |r|]
      && (forall k :: 0 <= k < LeadingSpace(j) ==> IsWhitespace(j[k]))
      && (forall k :: LeadingSpace(j) + |r| <= k < |j| ==> IsWhitespace(j[k]))
  {
    var j := Strings.Join(",", Renders(clauses));
    TrimIdempotent(j);
    TrimEnds(j);
    if |j| == 0 || (!IsWhitespace(j[0]) && !IsWhitespace(j[|j| - 1])) then
      TrimFixed(j); Trim(j)
    else
      Trim(j)
  }

  /** The serialisation of each clause, in order. */
  function Renders(clauses: seq<Clause>): (r: seq<string>)
    ensures |r| == |clauses|
    ensures forall i :: 0 <= i < |clauses| ==> r[i] == Render(clauses[i])
  {
    seq(|clauses|, i requires 0 <= i < |clauses| => Render(clauses[i]))
  }

  /** The pieces `editRoutes` makes selectors from: the ','-separated parts
      of a selector text, trimmed. */
  function Pieces(text: string): (r: seq<string>)
    ensures |r| == |Strings.Split(text, ',')| && |r| >= 1
    ensures forall i :: 0 <= i < |r| ==> r[i] == Trim(Strings.Split(text, ',')[i])
  {
    var parts := Strings.Split(text, ',');
    seq(|parts|, i requires 0 <= i < |parts| => Trim(parts[i]))
  }

  /** The fields of a list of selectors, in order. */
  function ClausesOf(xs: seq<Selector>): (r: seq<Clause>)
    reads xs
    ensures |r| == |xs|
    ensures forall i :: 0 <= i < |xs| ==> r[i] == xs[i].Fields()
  {
    seq(|xs|, i reads xs requires 0 <= i < |xs| => xs[i].Fields())
  }

  /** `xs` without any occurrence of `s`, in order. */
  function Without(xs: seq<Selector>, s: Selector): (r: seq<Selector>)
    ensures |r| <= |xs|
    ensures forall i :: 0 <= i < |r| ==> r[i] != s && r[i] in xs
  {
    if |xs| == 0 then []
    else Without(xs[..|xs| - 1], s) + (if xs[|xs| - 1] == s then [] else [xs[|xs| - 1]])
  }

  /** Removing `s` from a concatenation removes it from each part, so the
      kept selectors stay in their order. */
  lemma {:induction false} WithoutAppend(a: seq<Selector>, b: seq<Selector>, s: Selector)
    ensures Without(a + b, s) == Without(a, s) + Without(b, s)
    decreases |b|
  {
    if |b| > 0 {
      var init, last := b[..|b| - 1], b[|b| - 1];
      assert (a + b)[..|a + b| - 1] == a + init;
      WithoutAppend(a, init, s);
    } else {
      assert a + b == a;
    }
  }

  /** Removing `s` drops every occurrence of it and keeps every other
      selector as often as it occurred. */
  lemma {:induction false} WithoutCounts(xs: seq<Selector>, s: Selector)
    ensures s !in Without(xs, s)
    ensures forall x :: x != s ==> multiset(Without(xs, s))[x] == multiset(xs)[x]
  {
    if |xs| > 0 {
      var init, last := xs[..|xs| - 1], xs[|xs| - 1];
      WithoutCounts(init, s);
      assert xs == init + [last];
      assert multiset(xs) == multiset(init) + multiset{last};
      var tail := if last == s then [] else [last];
      assert Without(xs, s) == Without(init, s) + tail;
      assert multiset(Without(xs, s)) == multiset(Without(init, s)) + multiset(tail);
    }
  }

  /** The editor's state: the service being edited, its version options, the
      version chosen as default and the selectors being edited. */
  class ViewModel {
    var selectedService: Service
    var versions: seq<string>
    var selectedVersion: string
    var selectors: seq<Selector>

    /** `new viewModel()`, before any service is chosen. */
    constructor ()
      ensures selectedService == MakeService(None) && versions == [] && selectedVersion == ""
      ensures selectors == []
    {
      selectedService := MakeService(None);
      versions := [];
      selectedVersion := "";
      selectors := [];
    }

    /** `addSelector()`: append a new, empty selector, which is raw text. */
    method AddSelector()
      modifies this
      ensures |selectors| == |old(selectors)| + 1 && selectors[..|old(selectors)|] == old(selectors)
      ensures fresh(selectors[|selectors| - 1])
      ensures selectors[|selectors| - 1].rule == "" && selectors[|selectors| - 1].Fields() == Clause("", Raw, "", "")
      ensures selectedService == old(selectedService) && versions == old(versions)
      ensures selectedVersion == old(selectedVersion)
    {
      var s := new Selector("");
      NoParenIsRaw("");
      selectors := selectors + [s];
    }

    /** `deleteSelector(s)`: remove every occurrence of `s`. */
    method DeleteSelector(s: Selector)
      modifies this
      ensures selectors == Without(old(selectors), s)
      ensures selectedService == old(selectedService) && versions == old(versions)
      ensures selectedVersion == old(selectedVersion)
    {
      var kept: seq<Selector> := [];
      for i := 0 to |selectors|
        invariant kept == Without(selectors[..i], s)
      {
        assert selectors[..i + 1][..i] == selectors[..i];
        if selectors[i] != s {
          kept := kept + [selectors[i]];
        }
      }
      assert selectors[..|selectors|] == selectors;
      selectors := kept;
    }

    /** `editRoutes(service)`: take up the service, its version names and its
      default, and one fresh selector for each trimmed ','-separated piece
      of its selector text. */
    method EditRoutes(service: Service)
      modifies this
      ensures selectedService == service && selectedVersion == service.defaultVersion
      ensures |versions| == |service.versions|
      ensures forall i :: 0 <= i < |versions| ==> versions[i] == service.versions[i].name
      ensures |selectors| == |Pieces(service.versionSelectors)|
      ensures forall i :: 0 <= i < |selectors| ==> fresh(selectors[i])
      ensures forall i :: 0 <= i < |selectors| ==> selectors[i].rule == Pieces(service.versionSelectors)[i]
      ensures ClausesOf(selectors) == ParseAll(Pieces(service.versionSelectors))
    {
      hide *;
      var names := GetVersionOptions(service.versions);
      var made := NewSelectors(Pieces(service.versionSelectors));
      selectedService := service;
      versions := names;
      selectedVersion := service.defaultVersion;
      selectors := made;
    }

    /** `modifyRoutes()`: serialise every selector (`join` calls `toString`
      on each) and build the body to post from the joined, trimmed text. */
    method ModifyRoutes() returns (body: RoutesBody)
      modifies selectors
      ensures forall i :: 0 <= i < |selectors| ==> selectors[i].Fields() == old(selectors[i].Fields())
      ensures forall i :: 0 <= i < |selectors| ==> selectors[i].rule == Render(selectors[i].Fields())
      ensures body == Body(selectedService.name, selectedVersion, ClausesOf(selectors))
    {
      hide Render;
      var texts: seq<string> := [];
      for i := 0 to |selectors|
        invariant |texts| == i
        invariant forall j :: 0 <= j < |selectors| ==> selectors[j].Fields() == old(selectors[j].Fields())
        invariant forall j :: 0 <= j < i ==> selectors[j].rule == Render(selectors[j].Fields())
        invariant forall j :: 0 <= j < i ==> texts[j] == Render(selectors[j].Fields())
      {
        var t := selectors[i].ToString();
        texts := texts + [t];
      }
      assert texts == Renders(ClausesOf(selectors));
      var joined := Trim(Strings.Join(",", texts));
      var data := RoutesBody(selectedService.name, None, None);
      if selectedVersion != "" {
        data := data.(defaultVersion := Some(selectedVersion));
      }
      if joined != "" {
        data := data.(versionSelectors := Some(joined));
      }
      body := data;
    }

    /** `cancelRoutes()`: back to the service's default and no selectors. */
    method CancelRoutes()
      modifies this
      ensures selectedVersion == selectedService.defaultVersion && selectors == []
      ensures selectedService == old(selectedService) && versions == old(versions)
    {
      selectedVersion := selectedService.defaultVersion;
      selectors := [];
    }
  }

  /** A fresh selector for each piece, in order. */
  method NewSelectors(pieces: seq<string>) returns (made: seq<Selector>)
    ensures |made| == |pieces|
    ensures forall i :: 0 <= i < |made| ==> fresh(made[i])
    ensures forall i :: 0 <= i < |made| ==> made[i].rule == pieces[i]
    ensures ClausesOf(made) == ParseAll(pieces)
  {
    hide *;
    made := [];
    for i := 0 to |pieces|
      invariant |made| == i
      invariant forall j :: 0 <= j < i ==> fresh(made[j])
      invariant forall j :: 0 <= j < i ==> made[j].rule == pieces[j] && made[j].Fields() == Parse(pieces[j])
    {
      var s := new Selector(pieces[i]);
      made := made + [s];
    }
  }

  /** The fields the constructor gives each piece, in order. */
  function ParseAll(pieces: seq<string>): (r: seq<Clause>)
    ensures |r| == |pieces|
    ensures forall i :: 0 <= i < |pieces| ==> r[i] == Parse(pieces[i])
  {
    seq(|pieces|, i requires 0 <= i < |pieces| => Parse(pieces[i]))
  }

  /** An empty selector text gives one selector, an empty raw one. */
  lemma EditEmptyText()
    ensures Pieces("") == [""] && ParseAll(Pieces("")) == [Clause("", Raw, "", "")]
  {
    assert Strings.Split("", ',') == [""];
    NoParenIsRaw("");
  }

  /** Posting right after `editRoutes` returns the service's selector text,
      re-joined with ',', whenever every piece is one `createRule` gives back
      as it is. */
  lemma EditThenPost(service: Service)
    requires forall i :: 0 <= i < |Pieces(service.versionSelectors)| ==>
      Render(Parse(Pieces(service.versionSelectors)[i])) == Pieces(service.versionSelectors)[i]
    ensures SelectorText(ParseAll(Pieces(service.versionSelectors)))
         == Trim(Strings.Join(",", Pieces(service.versionSelectors)))
  {
    var p := Pieces(service.versionSelectors);
    assert Renders(ParseAll(p)) == p;
  }
}
