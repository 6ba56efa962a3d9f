# Amalgam8 routing and fault-rule commands, modelled in Dafny

This project models two parts of the Amalgam8 control tooling.

The first is the command line's handling of version routing and fault rules (`commands.py`):
- `set_routing` turns display selectors `ver(rule)` into the controller's wire text `{ver={rule},...}`.
- `service_list` counts each service's instances per version. It decides whether the default version runs. It reads the controller's selector text back into `ver(rule), ...`.
- `rules_list` renames the fields of stored fault rules.
- `set_rule` builds and checks the rule it posts.
- The small helpers: `passOrfail`, `get_field`, and the exit statuses of a failed request.

The second is the routing editor of the web console (`static/js/app.js`):
- `Selector` splits a clause `version(type=operand)` with a regular expression, and `createRule` / `toString` write it back.
- The `Service` view, with the version option list and the version text it shows.
- The `viewModel` edit session: add, delete, edit, post and cancel.

Modules, one per file:
- `Wrappers`: `Option` and `Result`.
- `Strings`: index, split, join and replace on `seq<char>`.
- `JsStrings`: JavaScript's `trim`, `toLowerCase` and `substring`.
- `SelectorRegex`: the clause regular expression.
- `SelectorClause`: the clause datatype, its parse and render, and the `Selector` class.
- `RoutesView`: `Service`, its helpers and the `ViewModel` class.
- `RoutingWire`: `set_routing` and the selector read path of `service_list`.
- `ServiceList`: the rest of `service_list` and `is_active`.
- `FaultRules`: `rules_list` and `set_rule`.
- `Cli`: `passOrfail`, `get_field` and exit statuses.

Modelling choices:
- An argument the command line leaves out (`None`) and an empty one behave alike in every condition the code checks. Both are `""` for text and `0` for numbers.
- The regular expression `/([a-zA-z].+)\((.+)=(.+)\)/i` is modelled exactly as `String.prototype.match` runs it: leftmost start, then the three greedy groups. Under `/i` the class `[a-zA-z]` is exactly the code points 65..122. `.` excludes the four JavaScript line terminators.
- The type group is greedy. Take a clause `a(t=v)` on one line, with no `(` in `t` or `v`. An `=` inside `v`, before its last character, pulls the type's `=` into group 2, and the clause becomes raw text (`SelectorClause.ClauseEqInOperand`).
- A clause is raw when the expression does not match, and also when its type is not recognised. Such a raw selector keeps the matched, lower-cased version (`SelectorClause.ParseMatched`, `SelectorClause.UnknownTypeIsRaw`).
- The parser format `{version}=#{rule}#` of `commands.py:163` is modelled as the `parse` library compiles it: anchored at both ends, lazy groups of at least one character each, any character included. As `$` does, a final newline is allowed before the end.
- The read path strips the braces with `sel[sel.find("{")+1:][:sel.rfind("}")-1]`. The end index comes from the unsliced text, so the strip is exact only for text that starts with `{` and ends with `}` (`RoutingWire.StripWrapped`). That is the form `set_routing` writes. A text without braces loses its last two characters (`RoutingWire.StripBraces`).
- A parse that finds no match returns `None` in the source, and reading its fields raises a `TypeError`. The model returns that crash as an error value.

## Model

| member | source | states |
|---|---|---|
| SelectorRegex.Match | static/js/app.js:39-40 | returns groups that fit the expression at the leftmost possible start, each group boundary as far right as any fit at that start allows; returns None exactly when no fit exists |
| SelectorClause.Parse | static/js/app.js:38-62 | a text the expression does not match becomes a raw clause with an empty version and pattern; a raw clause always carries the whole text as its value; only a header has a pattern |
| SelectorClause.FromParts | static/js/app.js:48-62 | the clause is raw exactly when the type text is none of user, header and weight; the version is kept either way; a raw clause's value is the rule |
| SelectorClause.VersionPart | static/js/app.js:43 | group 1 trimmed and lower-cased is its own trim and its own lower-case form, and no longer than the group |
| SelectorClause.TypePart | static/js/app.js:44 | group 2 trimmed and lower-cased is its own trim and its own lower-case form, and no longer than the group |
| SelectorClause.OperandPart | static/js/app.js:45 | group 3 trimmed is its own trim, no longer than the group, and neither starts nor ends with whitespace |
| SelectorClause.ParseMatched | static/js/app.js:40-61 | on a match, the version is group 1 trimmed and lower-cased, and is therefore its own trim and lower-case form; the clause is raw exactly when group 2, trimmed and lower-cased, is none of user, header and weight, and raw text is the whole clause |
| SelectorClause.Selector.constructor | static/js/app.js:38-62 | keeps the text as `rule`, and its fields are the decomposition of that text |
| SelectorClause.Selector.CreateRule | static/js/app.js:73-87 | `rule` becomes the value for raw text; otherwise it becomes `version(type=operand)`, with the user value quoted, and the header value and pattern quoted around a colon; the other fields stay |
| SelectorClause.Render | static/js/app.js:73-87 | raw text serialises to its value; any other clause to its version, '(', its type word, and a closing ')' |
| SelectorClause.UserValue | static/js/app.js:49 | an operand of two or more characters is its first character, the value and its last character; a shorter operand is kept whole |
| SelectorClause.HeaderValue | static/js/app.js:52-53 | with the first ':' past the front, the value is what lies between the first character and that ':', and holds no ':'; with no ':' or one in front, the first character alone |
| SelectorClause.HeaderPattern | static/js/app.js:52-54 | with a first ':' before the last character, what lies between it and the last character; with the ':' last, ":" itself; with no ':', the operand without its last character |
| SelectorClause.Selector.ToString | static/js/app.js:67-71 | re-serialises the rule as createRule does and returns it |
| SelectorClause.NoParenIsRaw | static/js/app.js:59-62 | a text without '(' is raw: empty version, the text as its value, empty pattern |
| SelectorClause.ExampleGarbage | static/js/app.js:59-62 | the text "garbage" parses as a raw clause of itself |
| SelectorClause.UnknownTypeIsRaw | static/js/app.js:43-62 | a clause `a(t=v)` under the conditions of ParseClauseText whose type is none of user, header and weight is raw, keeps its trimmed lower-cased version, and is valued as the whole text |
| SelectorClause.ClauseEqInOperand | static/js/app.js:39-44 | for a clause `a(t=v)` with nothing on a new line and no '(' in t or v, an '=' in v before its last character makes the whole clause raw text, because the type group is greedy |
| SelectorClause.ClauseNoMatchShortVersion | static/js/app.js:39-40 | a clause `a(t=v)` whose version is a single character of the class, with no '(' or '=' in t and '=' in v only at its end, is not matched at all |
| SelectorClause.ParseClauseText | static/js/app.js:40-45 | for a clause `a(t=v)` whose version has two or more characters and starts in the class, whose t and v are non-empty, with nothing on a new line, no '(' or '=' in t, and '=' in v only at its end, the groups are exactly a, t and v |
| SelectorClause.MatchedFields | static/js/app.js:45-58 | with `o` the trimmed group 3: a user value with `o` of two or more characters is `o` between its first and last character, and a shorter `o` is the value itself; a header whose first ':' lies strictly inside `o` rebuilds `o` as first character, value, ':', pattern, last character; with no ':' the value is the first character and the pattern is `o` without its last one; a weight's value is `o` |
| SelectorClause.UserRoundTrip | static/js/app.js:48-50 | a user clause written by createRule, with a version of two or more characters that starts in the class and is trimmed, lower-case and on one line, and a value without '=' or line break, parses back to that version and value, and re-serialises to the same text |
| SelectorClause.HeaderRoundTrip | static/js/app.js:51-55 | a header clause written by createRule, with such a version, a value without ':' or '=' and a pattern without '=', both on one line, parses back to its value and pattern, and re-serialises to the same text |
| SelectorClause.WeightRoundTrip | static/js/app.js:56-58 | a weight clause with such a version and a trimmed, non-empty weight on one line with '=' only at its end parses back to that weight and re-serialises to the same text |
| SelectorClause.RenderParseStable | static/js/app.js:38-87 | serialising what the constructor made and parsing that again gives the same serialisation: after one round through the editor a clause is a fixed point |
| JsStrings.TrimIdempotent | static/js/app.js:43-45 | trimming a trimmed text changes nothing |
| JsStrings.LowerIdempotent | static/js/app.js:43-44 | lower-casing a lower-cased text changes nothing |
| JsStrings.Trim | static/js/app.js:43-45 | the trimmed text is the slice of the text that starts right after its leading whitespace |
| JsStrings.TrimEnds | static/js/app.js:43-45 | what trim keeps neither starts nor ends with whitespace, and everything it drops at either end is whitespace |
| JsStrings.ToLowerCase | static/js/app.js:43-44 | the same length, each character replaced by its lower-case form |
| JsStrings.Substring | static/js/app.js:49 | arguments in order within the text give the slice between them; arguments in reverse order give the same slice; never longer than the text |
| RoutesView.MakeService | static/js/app.js:19-25 | with no record, the service has an empty name, link and selector text, no versions, the default UNVERSIONED, and is not active |
| RoutesView.MakeServiceKeeps | static/js/app.js:19-25 | with a record, the service keeps every field of it, and building it again from what it shows gives the same service |
| RoutesView.GetVersionOptions | static/js/app.js:10-17 | one name per version, in order |
| RoutesView.VersionText | static/js/app.js:27-33 | the entries `name(count)` of the versions, in order, joined with ", " |
| RoutesView.EntryRoundTrip | static/js/app.js:30 | every entry `name(count)` reads back as the version and count it shows |
| RoutesView.EntryText | static/js/app.js:30 | an entry is the version name, '(', the count in decimal digits and ')', with no '(' after the name |
| RoutesView.DecimalValue | static/js/app.js:30 | the digits a count is written with denote that count |
| RoutesView.Decimal | static/js/app.js:30 | a count is written as one or more decimal digits, starting with '0' only for zero |
| RoutesView.Pieces | static/js/app.js:113-114 | one trimmed piece per ','-separated part of the selector text, in order, and at least one |
| RoutesView.Body | static/js/app.js:122-127 | the posted body names the service; it holds the default exactly when a version is selected, and the selector text exactly when that text is non-empty |
| RoutesView.SelectorText | static/js/app.js:121 | the posted selector text is its own trim, is empty when there are no selectors, and is the ','-join of the serialised clauses whenever that join has no whitespace at its ends; in every case it is the slice of that join left after dropping the whitespace at both of its ends |
| RoutesView.ViewModel.constructor | static/js/app.js:92-98 | starts with the empty service, no versions, no selected version and no selectors |
| RoutesView.ViewModel.AddSelector | static/js/app.js:100-102 | appends one fresh selector of the empty text, which is raw, and keeps the others and the rest of the state |
| RoutesView.ViewModel.DeleteSelector | static/js/app.js:104-106 | the selectors become Without(old selectors, the given one), which keeps the others in their order (WithoutAppend); nothing else changes |
| RoutesView.WithoutCounts | static/js/app.js:104-106 | removal drops every occurrence of the selector and keeps every other as often as it occurred |
| RoutesView.Without | static/js/app.js:105 | no longer than before, and every remaining selector was there and is not the one removed |
| RoutesView.WithoutAppend | static/js/app.js:105 | removal from a concatenation is removal from each part, concatenated: the kept selectors stay in their order |
| RoutesView.ViewModel.EditRoutes | static/js/app.js:108-117 | takes up the service, its version names in order and its default; makes one fresh selector per trimmed piece of its selector text, each keeping its piece and its decomposition |
| RoutesView.NewSelectors | static/js/app.js:113-115 | one fresh selector per piece, in order, each keeping its piece and its decomposition |
| RoutesView.ParseAll | static/js/app.js:113-115 | the decomposition of each piece, in order |
| RoutesView.EditEmptyText | static/js/app.js:113-115 | a service without selectors still gives one selector, an empty raw one |
| RoutesView.ViewModel.ModifyRoutes | static/js/app.js:120-139 | every selector's rule is re-serialised by createRule from its fields, which the model keeps as they are, and the body is built from the service name, the selected version and the joined, trimmed serialisations |
| RoutesView.EditThenPost | static/js/app.js:108-127 | posting right after editing gives back the pieces re-joined with ',' whenever each piece serialises back to itself |
| RoutesView.ViewModel.CancelRoutes | static/js/app.js:140-144 | the selected version returns to the service's default and the selectors are cleared; service and version options stay |
| RoutingWire.SetRouting | commands.py:219-233 | exit status 4 exactly when neither a default nor a selector is given; otherwise the request has `default` exactly when a default is given and `selectors`, the wrapped, ','-joined wire forms, exactly when a selector is |
| RoutingWire.ToWire | commands.py:232 | the wire form of a selector holds no parenthesis, and a selector without parentheses is its own wire form |
| RoutingWire.WireSelectors | commands.py:230-233 | the wire text is wrapped in braces, and stripping them gives the wire forms joined with ',' |
| RoutingWire.WireEach | commands.py:230-232 | the wire form of each selector, in order |
| RoutingWire.ToWireDisplay | commands.py:232 | `v(r)` without parentheses in its parts becomes `v={r}` |
| RoutingWire.PyPrefix | commands.py:207 | Python's slice to an end index is the prefix whose length is the end, counted from the back when negative and clamped to the text |
| RoutingWire.StripBraces | commands.py:207 | a text that starts with '{' and ends with '}' gives what lies between them; a text without braces loses its last two characters |
| RoutingWire.Hashed | commands.py:210 | the prepared piece holds no brace, and a piece without braces is unchanged |
| RoutingWire.ReadPath | commands.py:206-212 | empty selectors read as empty text; the read fails exactly when the selectors are non-empty and some piece of them does not parse; a successful read of non-empty selectors is the display texts `version(rule)` of the ','-separated pieces, one per piece in order, joined with ", " |
| RoutingWire.ReadPieces | commands.py:208-211 | a failed read is always the TypeError; a successful read gives one display text per piece |
| RoutingWire.ReadPiecesEach | commands.py:208-211 | a successful read gives each piece's `version(rule)` display text at that piece's position |
| RoutingWire.ReadPiecesOk | commands.py:208-211 | when every piece parses, the read succeeds |
| RoutingWire.StripWrapped | commands.py:207 | stripping text wrapped in braces gives what lies between them |
| RoutingWire.ParseSelector | commands.py:163 | no result exactly when the text has no split into a version of one or more characters, "=#", a rule of one or more characters and a closing '#' at the end or before a final newline; a result is such a split, and no shorter version gives one (the version is lazy) |
| RoutingWire.ParseHashed | commands.py:210 | the parser splits `v=#r#` back into v and r when v holds no "=#" |
| RoutingWire.HashedWire | commands.py:210 | `v={r}` with its braces replaced is `v=#r#` |
| RoutingWire.ReadPiecesFails | commands.py:209-211 | once one piece fails to parse, the whole read path fails |
| RoutingWire.ReadSelectors | commands.py:206-212 | the loop computes the read path: empty for empty selectors, else the display text of each piece joined with ", ", or the crash of the first piece that does not parse |
| RoutingWire.ReadPiecesOfWire | commands.py:208-211 | each wire piece of readable selectors reads back as its display text |
| RoutingWire.WireRoundTrip | commands.py:206-233 | reading back the wire text set_routing writes for readable selectors gives those selectors joined with ", " |
| ServiceList.Versions | commands.py:192 | each instance's version is its metadata version, or UNVERSIONED |
| ServiceList.InstanceVersion | commands.py:192 | an instance with metadata holding a version runs that version; any other runs UNVERSIONED |
| ServiceList.Counts | commands.py:190-193 | every counted version has a count between one and the number of instances |
| ServiceList.Get | commands.py:193 | `counts.get(v, 0)`: the stored count of a present version, 0 for an absent one |
| ServiceList.GetCounts | commands.py:190-193 | reading a version from the counts gives the number of instances running it, 0 when none does |
| ServiceList.CountVersions | commands.py:190-193 | the loop computes the per-version count map of the instances |
| ServiceList.CountsOccurrences | commands.py:190-193 | a version has a count exactly when some instance runs it, and its count is the number of instances running it |
| ServiceList.CountsSum | commands.py:190-193 | the counts add up to the number of instances |
| ServiceList.ListCounts | commands.py:195-196 | one entry per counted version, no version twice, each with its count, and the counts add up to the total |
| ServiceList.IsActive | commands.py:155-160 | true exactly when some instance runs the default version |
| ServiceList.FirstFilter | commands.py:200 | a found filter is one of the filters and names the service |
| ServiceList.FirstFilterFirst | commands.py:200 | no filter is found exactly when none names the service; a found one is the first that does |
| ServiceList.DefaultOf | commands.py:200-203 | the default is the filter's default when it has one, and UNVERSIONED otherwise; it is never empty |
| ServiceList.SelectorsOf | commands.py:201-212 | without a filter or with empty selectors the text is empty; the listing crashes exactly when the filter's non-empty selectors hold a piece that does not parse |
| ServiceList.Href | commands.py:182 | the registry URL, then `/api/v1/services/` (17 characters), then the service name |
| ServiceList.BuildEntry | commands.py:180-215 | an entry for one service: error exactly when its selectors do not read; otherwise name, link, counted versions, default, selector text and activity as the source builds them |
| ServiceList.ServiceListing | commands.py:169-217 | error exactly when some service's selectors do not read; otherwise one entry per service, in order |
| ServiceList.EntryWithoutFilter | commands.py:184-185 | a service no filter names has default UNVERSIONED and no selectors |
| ServiceList.EntryCounts | commands.py:190-196 | every listed count is at least one, equals the number of instances of that version, and the counts add up to the number of instances |
| ServiceList.EntryActive | commands.py:214 | the entry is active exactly when some instance runs its default version |
| FaultRules.RulesList | commands.py:256-266 | one row per stored rule, in order, with pattern shown as header pattern and return code as abort code; each row gives back its rule |
| FaultRules.RowRoundTrip | commands.py:257-265 | the renaming of rule fields loses nothing in either direction |
| FaultRules.RowOf | commands.py:257-265 | `pattern` is reported as `header_pattern` and `return_code` as `abort_code`, and the stored rule can be read back from the row |
| FaultRules.StoredOf | commands.py:257-265 | `header_pattern` goes back to `pattern` and `abort_code` to `return_code` |
| FaultRules.HeaderPattern | commands.py:279-282 | the posted pattern is ".*?" followed by the pattern when one is given, and ".*" exactly when none is |
| FaultRules.PatternRoundTrip | commands.py:279-282 | the posted pattern gives back the pattern argument |
| FaultRules.RealIfGiven | commands.py:284-289 | an optional field is present exactly when its argument is non-zero, and then holds it |
| FaultRules.IntIfGiven | commands.py:290-291 | the return code is present exactly when an abort code is given, and then holds it |
| FaultRules.SetRule | commands.py:268-295 | exit status 4 exactly when source, destination or header is missing, or when neither a positive delay with positive probability nor an abort code with positive probability is given; otherwise the request holds the given fields, the posted pattern, and each optional field exactly when its argument is given |
| FaultRules.HasFault | commands.py:293 | a fault that can fire has a positive delay or abort probability; with no delay and no abort code none can |
| FaultRules.PostedRuleFires | commands.py:293-295 | every posted rule has a positive delay with a positive probability, or a return code with a positive abort probability |
| FaultRules.SetRuleRoundTrip | commands.py:273-291 | the posted rule gives back the arguments it was built from, a left-out field reading as zero |
| Cli.PassOrFail | commands.py:31-35 | "PASS" exactly when the result holds, "FAIL" exactly when it does not |
| Strings.IndexOf | static/js/app.js:52 | -1 exactly when the character is absent; otherwise the index of its first occurrence |
| Strings.LastIndexOf | commands.py:207 | -1 exactly when the character is absent; otherwise the index of its last occurrence |
| Strings.Split | commands.py:208 | at least one piece, and no piece holds the separator |
| Strings.JoinSplit | commands.py:208 | joining the pieces of a split with the separator gives back the text |
| Strings.Join | commands.py:212 | no parts join to the empty text, and the first part starts the joined text |
| Strings.SplitJoin | commands.py:208 | splitting one or more parts joined with a separator none of them holds gives back the parts |
| Strings.Replace | commands.py:232 | the replaced character is gone unless the replacement holds it, and a text without it is unchanged |
| Cli.GetField | commands.py:136-139 | the value under the key, or "***MISSING***" when the key is absent |
| Cli.ExitStatus | commands.py:141-147 | 2 exactly when the server cannot be reached, 0 exactly when the status is accepted, 3 otherwise |

## Left out

- HTTP: every request, its headers, `showcurl` and the JSON encoding are outside the model. `Cli.ExitStatus` keeps only the exit status a request can end with.
- Printing: the messages printed before an exit, and the tables of the command line, are outside the model.
- `get_registry_credentials`: the registry URL and token are parameters of `ServiceList.ServiceListing`.
- `run_recipe` and `_print_assertion_results`: the Gremlin recipe runner is not part of this model.
- `delete_routing`, `clear_rules` and `delete_rule` do nothing but one request each. They are outside the model with HTTP.
- argparse and the Python 2 typing of arguments: arguments are typed values, and a missing one is `""` or `0`.
- ServiceList.ListCounts: does not fix the order of the entries, because it follows Python 2's dictionary order, which the code does not define.
- SelectorClause.Selector.ToString: leaves out the weight refresh `(this.weight() / 100).toPrecision(2)`, whose floating-point formatting is not modelled. So does the `weight` observable set from `this.value * 100`. In the source a weight is posted reformatted: `ab(weight=0.5)` goes out as `ab(weight=0.50)`, and a non-numeric weight as `NaN`.
- RoutesView.ViewModel.ModifyRoutes: serialises each weight selector with its value as it is, without the refresh above.
- RoutesView.EditThenPost: holds for the model's serialisation, which leaves out the weight refresh above.
- JsStrings.ToLowerCase: lower-cases only ASCII letters. JavaScript's Unicode case mapping is not modelled.
- SelectorClause.UserValue, SelectorClause.HeaderValue, SelectorClause.HeaderPattern: strings are sequences of code points, while JavaScript's `length` and `substring` count UTF-16 code units. An operand that starts or ends with a character outside the Basic Multilingual Plane is cut differently: the source can keep half a surrogate pair, and the model keeps or drops the whole character. The same applies to `JsStrings.Substring`.
- SelectorClause.RenderParseStable: excludes a weight clause whose operand trims to nothing. Its serialisation `v(weight=)` has no operand, so the reparse may split elsewhere: when the version itself holds a `(type=`, as in `ab(user=q(weight= )`, the text `ab(user=q(weight=)` reparses as a user clause with version `ab` and serialises differently.
- RoutingWire.WireRoundTrip: holds only for readable selectors: non-empty parts without `( ) { } ,`, and a version without "=#". Other selectors are split differently by the replacements and the lazy parser.
- The polling of the service list, knockout tracking, jQuery panels, the service sort comparator, and the `services` and `SELECTORTYPES` fields are user-interface machinery outside the model.
- `is_active` takes a `service` argument it never uses. `ServiceList.IsActive` omits it.
