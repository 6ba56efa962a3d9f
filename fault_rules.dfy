/** Fault-injection rules: the listing `rules_list` makes of the rules the
    controller holds, and the request `set_rule` builds from its arguments. */
module FaultRules {
  import opened Wrappers

  /** The exit status of a command whose arguments are incomplete. */
  const EXIT_USAGE: nat := 4

  /** A rule as the controller returns it under `/v1/rules`. */
  datatype StoredRule = StoredRule(id: string, source: string, destination: string, header: string,
                                   pattern: string, delayProbability: real, delay: real,
                                   abortProbability: real, returnCode: int)

  /** A rule as `rules_list` reports it: the controller's `pattern` is shown
      as `header_pattern` and its `return_code` as `abort_code`. */
  datatype RuleRow = RuleRow(id: string, source: string, destination: string, header: string,
                             headerPattern: string, delayProbability: real, delay: real,
                             abortProbability: real, abortCode: int)

  /** The row reported for one stored rule. */
  function RowOf(r: StoredRule): (row: RuleRow)
    ensures row.headerPattern == r.pattern && row.abortCode == r.returnCode
    ensures StoredOf(row) == r
  {
    RuleRow(r.id, r.source, r.destination, r.header, r.pattern, r.delayProbability, r.delay,
            r.abortProbability, r.returnCode)
  }

  /** The stored rule a row stands for: the renaming read backwards. */
  function StoredOf(row: RuleRow): (r: StoredRule)
    ensures r.pattern == row.headerPattern && r.returnCode == row.abortCode
  {
    StoredRule(row.id, row.source, row.destination, row.header, row.headerPattern, row.delayProbability,
               row.delay, row.abortProbability, row.abortCode)
  }

  /** The renaming loses nothing, in either direction. */
  lemma RowRoundTrip(r: StoredRule, row: RuleRow)
    ensures StoredOf(RowOf(r)) == r
    ensures RowOf(StoredOf(row)) == row
  {
  }

  /** `rules_list`: one row per stored rule, in the controller's order. */
  method RulesList(rules: seq<StoredRule>) returns (rows: seq<RuleRow>)
    ensures |rows| == |rules|
    ensures forall i :: 0 <= i < |rules| ==> rows[i] == RowOf(rules[i])
    ensures forall i :: 0 <= i < |rules| ==> StoredOf(rows[i]) == rules[i]
  {
    rows := [];
    for i := 0 to |rules|
      invariant |rows| == i
      invariant forall j :: 0 <= j < i ==> rows[j] == RowOf(rules[j])
    {
      rows := rows + [RowOf(rules[i])];
    }
  }

  /** The arguments of `set_rule`; an argument left out is "" or 0. */
  datatype RuleArgs = RuleArgs(source: string, destination: string, header: string, pattern: string,
                               delay: real, delayProbability: real, abortProbability: real, abortCode: int)

  /** The rule `set_rule` posts: the optional fields are present only when
      their argument is given. */
  datatype RuleRequest = RuleRequest(source: string, destination: string, header: string, pattern: string,
                                     delay: Option<real>, delayProbability: Option<real>,
                                     abortProbability: Option<real>, returnCode: Option<int>)

  /** The header pattern posted: `'.*?' + pattern`, or `'.*'` without one. */
  function HeaderPattern(p: string): (r: string)
    ensures |r| >= 2 && r[..2] == ".*"
    ensures p == "" <==> r == ".*"
    ensures p != "" ==> r == ".*?" + p
  {
    if p != "" then ".*?" + p else ".*"
  }

  /** The pattern argument a posted header pattern came from. */
  function PatternArgument(r: string): string
  {
    if |r| >= 3 && r[..3] == ".*?" then r[3..] else ""
  }

  /** No two pattern arguments give the same header pattern. */
  lemma PatternRoundTrip(p: string)
    ensures PatternArgument(HeaderPattern(p)) == p
  {
    if p != "" {
      assert HeaderPattern(p)[..3] == ".*?";
      assert HeaderPattern(p)[3..] == p;
    }
  }

  /** A field posted only when its argument is not zero. */
  function RealIfGiven(x: real): (r: Option<real>)
    ensures r.Some? <==> x != 0.0
    ensures r.Some? ==> r.value == x
  {
    if x != 0.0 then Some(x) else None
  }

  /** An integer field posted only when its argument is not zero. */
  function IntIfGiven(x: int): (r: Option<int>)
    ensures r.Some? <==> x != 0
    ensures r.Some? ==> r.value == x
  {
    if x != 0 then Some(x) else None
  }

  /** Whether the arguments give a fault that can fire: a positive delay
      with a positive probability, or an abort code with a positive
      probability. */
  predicate HasFault(args: RuleArgs): (b: bool)
    ensures b ==> args.delayProbability > 0.0 || args.abortProbability > 0.0
    ensures args.delay <= 0.0 && args.abortCode == 0 ==> !b
  {
    (args.delay > 0.0 && args.delayProbability > 0.0) || (args.abortCode != 0 && args.abortProbability > 0.0)
  }

  /** `set_rule`: the rule to post, or exit status 4 when the source, the
      destination or the header is missing, or when no fault can fire. */
  function SetRule(args: RuleArgs): (r: Result<RuleRequest, nat>)
    ensures r.Err? <==> args.source == "" || args.destination == "" || args.header == "" || !HasFault(args)
    ensures r.Err? ==> r.error == EXIT_USAGE
    ensures r.Ok? ==> r.value.source == args.source && r.value.destination == args.destination
                      && r.value.header == args.header && r.value.pattern == HeaderPattern(args.pattern)
    ensures r.Ok? ==> (r.value.delay.Some? <==> args.delay != 0.0)
                      && (r.value.delayProbability.Some? <==> args.delayProbability != 0.0)
                      && (r.value.abortProbability.Some? <==> args.abortProbability != 0.0)
                      && (r.value.returnCode.Some? <==> args.abortCode != 0)
  {
    if args.source == "" || args.destination == "" || args.header == "" then Err(EXIT_USAGE)
    else if !HasFault(args) then Err(EXIT_USAGE)
    else Ok(RuleRequest(args.source, args.destination, args.header, HeaderPattern(args.pattern),
                        RealIfGiven(args.delay), RealIfGiven(args.delayProbability),
                        RealIfGiven(args.abortProbability), IntIfGiven(args.abortCode)))
  }

  /** Every rule `set_rule` posts carries a fault that can fire: a delay and
      its probability, both positive, or a return code with a positive
      abort probability. */
  lemma PostedRuleFires(args: RuleArgs)
    requires SetRule(args).Ok?
    ensures var q := SetRule(args).value;
      (q.delay.Some? && q.delay.value > 0.0 && q.delayProbability.Some? && q.delayProbability.value > 0.0)
      || (q.returnCode.Some? && q.abortProbability.Some? && q.abortProbability.value > 0.0)
  {
  }

  /** The posted rule gives back the arguments it was built from, a field
      left out reading as zero. */
  lemma SetRuleRoundTrip(args: RuleArgs)
    requires SetRule(args).Ok?
    ensures var q := SetRule(args).value;
      RuleArgs(q.source, q.destination, q.header, PatternArgument(q.pattern),
               if q.delay.Some? then q.delay.value else 0.0,
               if q.delayProbability.Some? then q.delayProbability.value else 0.0,
               if q.abortProbability.Some? then q.abortProbability.value else 0.0,
               if q.returnCode.Some? then q.returnCode.value else 0) == args
  {
    PatternRoundTrip(args.pattern);
  }
}
