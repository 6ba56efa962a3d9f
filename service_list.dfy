/** What `service_list` makes of the data it fetches for one service: the
    instances counted per version, whether the default version runs, and the
    default and selectors the controller holds for the service. */
module ServiceList {
  import opened Wrappers
  import RoutingWire
  import Strings

  /** The version of an instance that does not say which it runs. */
  const NO_VERSION: string := "UNVERSIONED"

  /** A registered instance: its `metadata` object, when it has one. */
  datatype Instance = Instance(metadata: Option<map<string, string>>)

  /** The version an instance runs: `metadata.version`, or `UNVERSIONED`
      when it has no metadata or no version in it. */
  function InstanceVersion(inst: Instance): (r: string)
    ensures inst.metadata.Some? && "version" in inst.metadata.value ==> r == inst.metadata.value["version"]
    ensures inst.metadata.None? || "version" !in inst.metadata.value ==> r == NO_VERSION
  {
    if inst.metadata.Some? && "version" in inst.metadata.value then inst.metadata.value["version"]
    else NO_VERSION
  }

  /** The version of each instance, in order. */
  function Versions(instances: seq<Instance>): (r: seq<string>)
    ensures |r| == |instances|
    ensures forall i :: 0 <= i < |instances| ==> r[i] == InstanceVersion(instances[i])
  {
    seq(|instances|, i requires 0 <= i < |instances| => InstanceVersion(instances[i]))
  }

  // ---------------------------------------------------------------------
  // Counting instances per version

  /** `counts.get(v, 0)`. */
  function Get(counts: map<string, nat>, v: string): (r: nat)
    ensures v in counts ==> r == counts[v]
    ensures v !in counts ==> r == 0
  {
    if v in counts then counts[v] else 0
  }

  /** The dictionary of counts after counting `vs` one by one from empty. */
  function Counts(vs: seq<string>): (r: map<string, nat>)
    ensures forall v :: v in r ==> 1 <= r[v] <= |vs|
  {
    if |vs| == 0 then map[]
    else
      var init := Counts(vs[..|vs| - 1]);
      var v := vs[|vs| - 1];
      init[v := Get(init, v) + 1]
  }

  /** The counting loop of `service_list`. */
  method CountVersions(instances: seq<Instance>) returns (counts: map<string, nat>)
    ensures counts == Counts(Versions(instances))
  {
    counts := map[];
    for i := 0 to |instances|
      invariant counts == Counts(Versions(instances[..i]))
    {
      var version := InstanceVersion(instances[i]);
      assert Versions(instances[..i + 1])[..i] == Versions(instances[..i]);
      counts := counts[version := Get(counts, version) + 1];
    }
    assert instances[..|instances|] == instances;
  }

  /** Every instance is counted once, under its own version: the versions
      counted are those that occur, each as often as it occurs. */
  lemma {:induction false} CountsOccurrences(vs: seq<string>)
    ensures forall v :: v in Counts(vs) <==> v in multiset(vs)
    ensures forall v :: v in Counts(vs) ==> Counts(vs)[v] == multiset(vs)[v]
  {
    if |vs| > 0 {
      var init := vs[..|vs| - 1];
      CountsOccurrences(init);
      assert vs == init + [vs[|vs| - 1]];
    }
  }

  /** Reading a version's count from the dictionary gives the number of
      instances that run it, zero for a version no instance runs. */
  lemma GetCounts(vs: seq<string>, v: string)
    ensures Get(Counts(vs), v) == multiset(vs)[v]
  {
    CountsOccurrences(vs);
  }

  /** The sum of the counts of a dictionary. */
  ghost function SumOf(m: map<string, nat>): nat
    decreases |m.Keys|
  {
    if m.Keys == {} then 0
    else
      var k :| k in m.Keys;
      m[k] + SumOf(m - {k})
  }

  /** The sum of the counts is any one count plus the sum of the others. */
  lemma {:induction false} SumRemove(m: map<string, nat>, k: string)
    requires k in m
    ensures SumOf(m) == m[k] + SumOf(m - {k})
    decreases |m.Keys|
  {
    var j :| j in m.Keys && SumOf(m) == m[j] + SumOf(m - {j});
    if j != k {
      SumRemove(m - {j}, k);
      SumRemove(m - {k}, j);
      assert m - {j} - {k} == m - {k} - {j};
    }
  }

  /** Raising one count by one raises the sum by one. */
  lemma SumIncrement(m: map<string, nat>, v: string)
    ensures SumOf(m[v := Get(m, v) + 1]) == SumOf(m) + 1
  {
    var m' := m[v := Get(m, v) + 1];
    SumRemove(m', v);
    if v in m {
      SumRemove(m, v);
      assert m' - {v} == m - {v};
    } else {
      assert m' - {v} == m;
    }
  }

  /** The counts sum to the number of instances counted. */
  lemma {:induction false} CountsSum(vs: seq<string>)
    ensures SumOf(Counts(vs)) == |vs|
  {
    if |vs| > 0 {
      CountsSum(vs[..|vs| - 1]);
      SumIncrement(Counts(vs[..|vs| - 1]), vs[|vs| - 1]);
    }
  }

  /** One entry of a service's `versions`: a version and its count. */
  datatype VersionCount = VersionCount(name: string, numInstances: nat)

  /** The total of the counts of a list of entries. */
  function Total(entries: seq<VersionCount>): nat
  {
    if |entries| == 0 then 0 else Total(entries[..|entries| - 1]) + entries[|entries| - 1].numInstances
  }

  /** The versions named by a list of entries. */
  function Names(entries: seq<VersionCount>): set<string>
  {
    if |entries| == 0 then {} else Names(entries[..|entries| - 1]) + {entries[|entries| - 1].name}
  }

  /** `entries` lists each version of `counts` once, with its count, in some
      order. */
  ghost predicate ListsCounts(entries: seq<VersionCount>, counts: map<string, nat>)
  {
    && Names(entries) == counts.Keys
    && |entries| == |counts.Keys|
    && (forall i :: 0 <= i < |entries| ==> entries[i].name in counts && entries[i].numInstances == counts[entries[i].name])
    && (forall i, j :: 0 <= i < j < |entries| ==> entries[i].name != entries[j].name)
    && Total(entries) == SumOf(counts)
  }

  /** What `ListCounts` keeps while it lists `counts`: `entries` lists the
      versions taken so far, with their counts, and `rest` holds the others. */
  ghost predicate Listing(entries: seq<VersionCount>, rest: map<string, nat>, counts: map<string, nat>)
  {
    && ListingKeys(entries, rest, counts)
    && ListingEntries(entries, rest, counts)
    && Total(entries) + SumOf(rest) == SumOf(counts)
  }

  /** The versions listed and those left make up the keys of `counts`. */
  ghost predicate ListingKeys(entries: seq<VersionCount>, rest: map<string, nat>, counts: map<string, nat>)
  {
    && Names(entries) + rest.Keys == counts.Keys && Names(entries) !! rest.Keys
    && (forall v :: v in rest ==> rest[v] == counts[v])
    && |entries| + |rest.Keys| == |counts.Keys|
  }

  /** Each entry listed so far carries its count, is left out of `rest` and
      differs from the others. */
  ghost predicate ListingEntries(entries: seq<VersionCount>, rest: map<string, nat>, counts: map<string, nat>)
  {
    && (forall i :: 0 <= i < |entries| ==> entries[i].name in counts && entries[i].name !in rest)
    && (forall i :: 0 <= i < |entries| ==> entries[i].numInstances == counts[entries[i].name])
    && (forall i, j :: 0 <= i < j < |entries| ==> entries[i].name != entries[j].name)
  }

  /** Taking one more version out of `rest` keeps `ListingKeys`. */
  lemma ListingKeysStep(entries: seq<VersionCount>, rest: map<string, nat>, counts: map<string, nat>, v: string)
    requires ListingKeys(entries, rest, counts) && v in rest
    ensures ListingKeys(entries + [VersionCount(v, rest[v])], rest - {v}, counts)
  {
    var entries' := entries + [VersionCount(v, rest[v])];
    assert entries'[..|entries|] == entries;
    assert (rest - {v}).Keys == rest.Keys - {v};
  }

  /** Taking one more version out of `rest` keeps `ListingEntries`. */
  lemma ListingEntriesStep(entries: seq<VersionCount>, rest: map<string, nat>, counts: map<string, nat>, v: string)
    requires ListingEntries(entries, rest, counts) && v in rest && v in counts && rest[v] == counts[v]
    ensures ListingEntries(entries + [VersionCount(v, rest[v])], rest - {v}, counts)
  {
    var entries' := entries + [VersionCount(v, rest[v])];
    assert forall i :: 0 <= i < |entries| ==> entries'[i] == entries[i];
  }

  /** Taking one more version out of `rest` keeps the total. */
  lemma ListingTotalStep(entries: seq<VersionCount>, rest: map<string, nat>, counts: map<string, nat>, v: string)
    requires Total(entries) + SumOf(rest) == SumOf(counts) && v in rest
    ensures Total(entries + [VersionCount(v, rest[v])]) + SumOf(rest - {v}) == SumOf(counts)
  {
    SumRemove(rest, v);
    var entries' := entries + [VersionCount(v, rest[v])];
    assert entries'[..|entries|] == entries;
  }

  /** Taking one more version out of `rest` keeps `Listing`. */
  lemma ListingStep(entries: seq<VersionCount>, rest: map<string, nat>, counts: map<string, nat>, v: string)
    requires Listing(entries, rest, counts) && v in rest
    ensures Listing(entries + [VersionCount(v, rest[v])], rest - {v}, counts)
  {
    ListingKeysStep(entries, rest, counts, v);
    ListingEntriesStep(entries, rest, counts, v);
    ListingTotalStep(entries, rest, counts, v);
  }

  /** The loop over `version_counts.iteritems()`: one entry per version, in
      the dictionary's order, which the model leaves open. */
  method ListCounts(counts: map<string, nat>) returns (entries: seq<VersionCount>)
    ensures ListsCounts(entries, counts)
  {
    entries := [];
    var rest := counts;
    while rest.Keys != {}
      invariant Listing(entries, rest, counts)
      decreases |rest.Keys|
    {
      var v :| v in rest.Keys;
      ListingStep(entries, rest, counts, v);
      entries := entries + [VersionCount(v, rest[v])];
      rest := rest - {v};
    }
  }

  // ---------------------------------------------------------------------
  // Whether the default version runs

  /** Some instance runs `version`. */
  predicate Runs(instances: seq<Instance>, version: string)
  {
    exists i :: 0 <= i < |instances| && InstanceVersion(instances[i]) == version
  }

  /** `is_active(service, default_version, instance_list)`: whether some
      instance runs the default version. */
  method IsActive(defaultVersion: string, instances: seq<Instance>) returns (active: bool)
    ensures active <==> Runs(instances, defaultVersion)
  {
    for i := 0 to |instances|
      invariant forall j :: 0 <= j < i ==> InstanceVersion(instances[j]) != defaultVersion
    {
      if InstanceVersion(instances[i]) == defaultVersion {
        return true;
      }
    }
    return false;
  }

  // ---------------------------------------------------------------------
  // The routing of a service

  /** An item of the controller's `filters.versions`: the service it routes,
      its default and its selector text ("" when missing or empty). */
  datatype VersionFilter = VersionFilter(service: string, defaultVersion: string, selectors: string)

  /** `next((item for item in filters if item["service"] == service), None)`. */
  function FirstFilter(filters: seq<VersionFilter>, service: string): (r: Option<VersionFilter>)
    ensures r.Some? ==> r.value in filters && r.value.service == service
  {
    if |filters| == 0 then None
    else if filters[0].service == service then Some(filters[0])
    else FirstFilter(filters[1..], service)
  }

  /** The filter found is the first for the service, and none is found
      exactly when no filter names the service. */
  lemma {:induction false} FirstFilterFirst(filters: seq<VersionFilter>, service: string)
    ensures FirstFilter(filters, service).None? <==> forall i :: 0 <= i < |filters| ==> filters[i].service != service
    ensures FirstFilter(filters, service).Some? ==>
      exists i :: 0 <= i < |filters| && filters[i] == FirstFilter(filters, service).value
                  && forall j :: 0 <= j < i ==> filters[j].service != service
  {
    if |filters| > 0 && filters[0].service != service {
      var tail := filters[1..];
      FirstFilterFirst(tail, service);
      assert forall i :: 0 < i < |filters| ==> filters[i] == tail[i - 1];
      if FirstFilter(tail, service).Some? {
        var i :| 0 <= i < |tail| && tail[i] == FirstFilter(tail, service).value
                 && forall j :: 0 <= j < i ==> tail[j].service != service;
        assert filters[i + 1] == tail[i];
      }
    }
  }

  /** The default version shown for a service: the filter's default when it
      has one, `UNVERSIONED` otherwise. */
  function DefaultOf(filter: Option<VersionFilter>): (d: string)
    ensures d != ""
    ensures filter.Some? && filter.value.defaultVersion != "" ==> d == filter.value.defaultVersion
    ensures filter.None? || filter.value.defaultVersion == "" ==> d == NO_VERSION
  {
    if filter.Some? && filter.value.defaultVersion != "" then filter.value.defaultVersion else NO_VERSION
  }

  /** The selector text shown for a service: "" without a filter, otherwise
      the filter's selectors read back. */
  function SelectorsOf(filter: Option<VersionFilter>): (r: Result<string, RoutingWire.Crash>)
    ensures filter.None? || filter.value.selectors == "" ==> r == Ok("")
    ensures r.Err? <==>
      (&& filter.Some? && filter.value.selectors != ""
       && RoutingWire.ReadPieces(Strings.Split(RoutingWire.StripBraces(filter.value.selectors), ',')).Err?)
  {
    if filter.None? then Ok("") else RoutingWire.ReadPath(filter.value.selectors)
  }

  /** The `href` of a service in the registry. */
  function Href(registryUrl: string, name: string): (r: string)
    ensures |r| == |registryUrl| + 17 + |name|
    ensures r[..|registryUrl|] == registryUrl && r[|r| - |name|..] == name
    ensures r[|registryUrl|..|registryUrl| + 17] == "/api/v1/services/"
  {
    registryUrl + "/api/v1/services/" + name
  }

  /** One item of `service_list`'s result. */
  datatype ServiceEntry = ServiceEntry(name: string, href: string, versions: seq<VersionCount>,
                                       defaultVersion: string, selectors: string, isActive: bool)

  /** `e` is what `service_list` makes of service `name` with `instances`. */
  ghost predicate EntryFor(e: ServiceEntry, registryUrl: string, name: string, instances: seq<Instance>,
                           filters: seq<VersionFilter>)
  {
    && e.name == name && e.href == Href(registryUrl, name)
    && ListsCounts(e.versions, Counts(Versions(instances)))
    && e.defaultVersion == DefaultOf(FirstFilter(filters, name))
    && SelectorsOf(FirstFilter(filters, name)) == Ok(e.selectors)
    && (e.isActive <==> Runs(instances, e.defaultVersion))
  }

  /** The body of `service_list`'s loop for one service. */
  method BuildEntry(registryUrl: string, name: string, instances: seq<Instance>, filters: seq<VersionFilter>)
    returns (r: Result<ServiceEntry, RoutingWire.Crash>)
    ensures r.Err? <==> SelectorsOf(FirstFilter(filters, name)).Err?
    ensures r.Ok? ==> EntryFor(r.value, registryUrl, name, instances, filters)
  {
    var counts := CountVersions(instances);
    var versions := ListCounts(counts);
    var defaultVersion := NO_VERSION;
    var selectors := "";
    var filter := FirstFilter(filters, name);
    if filter.Some? {
      var d := filter.value.defaultVersion;
      defaultVersion := if d != "" then d else NO_VERSION;
      if filter.value.selectors != "" {
        var read := RoutingWire.ReadSelectors(filter.value.selectors);
        if read.Err? {
          return Err(read.error);
        }
        selectors := read.value;
      }
    }
    var active := IsActive(defaultVersion, instances);
    return Ok(ServiceEntry(name, Href(registryUrl, name), versions, defaultVersion, selectors, active));
  }

  /** `service_list(args)` over services fetched with their instances: one
      entry per service, in order, or the crash of the first service whose
      selectors do not read back. */
  method ServiceListing(registryUrl: string, services: seq<(string, seq<Instance>)>, filters: seq<VersionFilter>)
    returns (r: Result<seq<ServiceEntry>, RoutingWire.Crash>)
    ensures r.Err? <==> exists i :: 0 <= i < |services| && SelectorsOf(FirstFilter(filters, services[i].0)).Err?
    ensures r.Ok? ==> |r.value| == |services|
    ensures r.Ok? ==> forall i :: 0 <= i < |services| ==>
      EntryFor(r.value[i], registryUrl, services[i].0, services[i].1, filters)
  {
    var res: seq<ServiceEntry> := [];
    for i := 0 to |services|
      invariant |res| == i
      invariant forall j :: 0 <= j < i ==> EntryFor(res[j], registryUrl, services[j].0, services[j].1, filters)
    {
      var entry := BuildEntry(registryUrl, services[i].0, services[i].1, filters);
      if entry.Err? {
        assert SelectorsOf(FirstFilter(filters, services[i].0)).Err?;
        return Err(entry.error);
      }
      var res' := res + [entry.value];
      assert forall j :: 0 <= j < i ==> res'[j] == res[j];
      assert res'[i] == entry.value;
      res := res';
    }
    return Ok(res);
  }

  // ---------------------------------------------------------------------
  // Properties of an entry

  /** A service without a filter shows `UNVERSIONED` and no selectors. */
  lemma EntryWithoutFilter(e: ServiceEntry, registryUrl: string, name: string, instances: seq<Instance>,
                           filters: seq<VersionFilter>)
    requires EntryFor(e, registryUrl, name, instances, filters)
    requires forall i :: 0 <= i < |filters| ==> filters[i].service != name
    ensures e.defaultVersion == NO_VERSION && e.selectors == ""
  {
    FirstFilterFirst(filters, name);
  }

  /** Every listed version has at least one instance, and the counts add up
      to the number of instances. */
  lemma EntryCounts(e: ServiceEntry, registryUrl: string, name: string, instances: seq<Instance>,
                    filters: seq<VersionFilter>)
    requires EntryFor(e, registryUrl, name, instances, filters)
    ensures forall i :: 0 <= i < |e.versions| ==> e.versions[i].numInstances >= 1
    ensures forall i :: 0 <= i < |e.versions| ==>
      e.versions[i].numInstances == multiset(Versions(instances))[e.versions[i].name]
    ensures Total(e.versions) == |instances|
  {
    CountsOccurrences(Versions(instances));
    CountsSum(Versions(instances));
  }

  /** A service is active exactly when one of its instances runs the version
      it shows as default. */
  lemma EntryActive(e: ServiceEntry, registryUrl: string, name: string, instances: seq<Instance>,
                    filters: seq<VersionFilter>)
    requires EntryFor(e, registryUrl, name, instances, filters)
    ensures e.isActive <==> exists i :: 0 <= i < |instances| && InstanceVersion(instances[i]) == e.defaultVersion
  {
  }
}
