# prometheus-edge-trigger core, modelled in Dafny

prometheus-edge-trigger watches Prometheus conditions for edges, meaning the most recent transition of a condition. It fires an HTTP or MQTT action once an edge has stayed in place for a trigger's `delay`. This project models the service's decision logic as pure functions and proves properties about them:

- **The debounce loop** (`run_trigger`, `since`, `get_edge`). One pass of the loop takes the trigger's delay, a clock reading and the answers of the first and verification edge queries. It returns the ordered trace of what the pass does: edge queries, sleeps and firing the action (`TriggerLoop.Iterate`). A second formulation, an explicit phase machine (`Searching`, `PendingVerify`, `Cooldown`, `BackingOff`), is proved to do exactly the same as the loop body. A run of many passes is proved to fire once per pass whose verification returns the edge first found, with the cooldown after every firing.
- **Template interpolation** (`interpolate_params`, `interpolate_option_params`). Every declared parameter is resolved first; then `$name` is replaced by the value for each parameter in turn, using a model of Rust's `str::replace` (`Strings.Replace`).
- **Action dispatch** (`run_action`, up to the send). The url, topic and payload templates are interpolated. Then the method and the fields present choose an HTTP request, an MQTT publish, a configuration error or a silent no-op.
- **Parameter resolution** (`Parameter::get_value`). A static value is returned as is. An mDNS lookup is mapped to an address or `MdnsHostNotFound`. A service-registry lookup is a first-match search over the parsed records.

Collaborators are inputs rather than effects:

- The mDNS resolver and the registry file (read and parsed, or failing) are the two total functions of `Config.Env`.
- The edge detector is a function from the query arguments (`TriggerLoop.EdgeQuery`) to its answer.
- The clock is the `now` argument of a pass.
- HTTP and MQTT sends are the tags of `Actions.Dispatch`.

A parameter map (`HashMap<String, Parameter>`) is a sequence of bindings in the map's iteration order. The source does not fix that order, so every property holds for every order.

Behaviour of the code worth knowing, which the model follows:

- A registry record whose label matches but whose `targets` list is empty is skipped; the search moves on to later records (`src/config.rs:56`).
- A `$name` token can remain after interpolation, because replacement is one left-to-right pass per parameter: `$$pp` with `p` bound to the empty string gives `$p` (`Interpolation.TokenCanRemain`).
- An edge stamped later than the local clock (the detector's clock running ahead) counts as 0 s old, because `since` saturates (`src/trigger.rs:29-31`); it is re-checked after `delay`, before it is `delay` old by its own stamp (`TriggerLoop.DebounceWindow`).
- No record is kept of edges already acted on (`src/trigger.rs:74-122`): an edge the detector still reports after the cooldown, for instance inside the `delay + 60` lookback, is confirmed again and fires again (`TriggerLoop.SameEdgeFiresAgain`).
- `MqttConfig` (`src/config.rs:98-101`) declares only `host` and `port`, although `send_mqtt_message` (`src/trigger.rs:232-233`) reads `username` and `password` from it; the model has only the declared fields.

## Model

| member | source | states |
|---|---|---|
| Prelude.SaturatingSub | src/trigger.rs:30 | `saturating_sub` yields the least natural number that, added to the subtrahend, reaches the minuend; it never underflows |
| Prelude.WrappingAdd | src/trigger.rs:137 | `u64` addition in a release build: the exact sum when it fits, otherwise the sum minus 2^64 |
| Strings.Replace | src/trigger.rs:165 | `str::replace`; no contract of its own: pinned down for non-empty patterns by ReplaceAbsent and ReplaceFirstOccurrence, with ReplaceMarkerLeavesNone showing every occurrence is found and ReplaceMarkerRoundTrip that no text is lost |
| Strings.ReplaceAbsent | src/trigger.rs:165 | `str::replace` leaves a string that does not contain the pattern unchanged |
| Strings.ReplaceAppend | src/trigger.rs:165 | text containing no character equal to the pattern's first character is copied through, and replacement continues after it |
| Strings.ReplaceSelf | src/trigger.rs:165 | replacing a pattern by itself changes nothing, including for the empty pattern |
| Strings.ReplaceMarkerRoundTrip | src/trigger.rs:165 | replacing a pattern by a fresh marker character and then the marker by the pattern restores the original: the replacement loses no text |
| Strings.ReplaceAtFirst | src/trigger.rs:165 | when the pattern starts nowhere in the text before an occurrence, that text is copied, the occurrence is replaced, and the scan resumes after it |
| Strings.ReplaceFirstOccurrence | src/trigger.rs:165 | at the first occurrence of a non-empty pattern, the text before it is copied, the occurrence is replaced, and the rest is scanned afresh: occurrences are found left to right and never overlap |
| Strings.ReplaceMarkerLeavesNone | src/trigger.rs:165 | after replacing a non-empty pattern by a character not in the pattern, the pattern occurs nowhere in the result: every occurrence is found |
| Strings.Decimal | src/config.rs:42 | the decimal form of a port is a non-empty string of digits without a leading zero |
| Strings.DecimalRoundTrip | src/config.rs:42 | reading back the decimal form of a number gives the number |
| Config.AddrString | src/config.rs:42 | `SocketAddr::to_string()`; no contract of its own: AddrStringParts shows it splits at its last colon into the host part and a port that reads back |
| Config.AddrStringParts | src/config.rs:42 | the text of a socket address splits at its last colon into the IPv4 address or the bracketed IPv6 address, and the decimal port, which reads back to the port |
| Config.FindService | src/config.rs:49-59 | the `find_map` over registry records finds something exactly when some record qualifies; it returns the first target of the first qualifying record in file order |
| Config.GetValue | src/config.rs:39-62 | a static value always resolves to itself; mDNS errors come only from mDNS lookups, and file, format and not-found errors come only from registry lookups |
| Config.MdnsResolution | src/config.rs:41-44 | an mDNS lookup gives `MdnsHostNotFound` exactly when the resolver found nothing; it succeeds exactly when an address was found, and then yields that address's text (`service.to_string()`): host part before the last colon, port after it; a resolver failure gives `MdnsError` |
| Config.RegistryFirstMatch | src/config.rs:49-58 | a registry lookup returns `targets[0]` of the first record, in file order, whose label matches and whose targets are non-empty |
| Config.RegistryNotFound | src/config.rs:59 | a lookup in a well-formed file gives `ServiceNotFound` exactly when every record with the matching label has no targets |
| Config.RegistryFileErrors | src/config.rs:47-48 | an unreadable file gives `FilesystemError` and an unparsable one the malformed-service error, before any record is examined |
| Config.ResolutionDeterministic | src/config.rs:39-62 | a resolution depends only on its own collaborator's answer: on nothing for a static value, on the file's contents for a registry lookup |
| Interpolation.ResolveAll | src/trigger.rs:157-161 | resolving a parameter map succeeds exactly when every parameter resolves; the values line up with the parameters; a failure carries the error of a parameter that failed |
| Interpolation.ResolveAllAgree | src/trigger.rs:157-161 | resolution of a parameter map depends only on each parameter's own resolution |
| Interpolation.Interpolate | src/trigger.rs:153-169 | interpolation succeeds exactly when every declared parameter resolves, referenced or not; its error is the error of a declared parameter |
| Interpolation.InterpolateOption | src/trigger.rs:143-151 | an absent template gives `Ok(None)` without resolving anything; a present template fails exactly when some parameter fails |
| Interpolation.InterpolateExample | src/trigger.rs:171-183 | `foo_$param` with `param` bound to the static value `bar` gives `foo_bar` |
| Interpolation.Substitute | src/trigger.rs:162-168 | the replacement loop, one `str::replace` per parameter in map order; no contract of its own: SubstituteSnoc gives the step for each further parameter, SingleParameter the first, and SubstituteNoToken the template without `$` |
| Interpolation.SubstituteSnoc | src/trigger.rs:164-166 | each further parameter is one `str::replace` of its token, applied to the result of all the earlier parameters in map order |
| Interpolation.SubstituteNoToken | src/trigger.rs:162-168 | the replacement loop leaves a template without `$` unchanged, whatever the values |
| Interpolation.InterpolateNoToken | src/trigger.rs:153-169 | a template without `$` comes back unchanged whenever its parameters resolve |
| Interpolation.UnreferencedParameterFails | src/trigger.rs:157-161 | a parameter that fails to resolve fails the interpolation even when the template never mentions it |
| Interpolation.AbsentTemplateSkipsResolution | src/trigger.rs:147-150 | an absent template succeeds even when a parameter cannot be resolved, and a present one then fails |
| Interpolation.SingleParameter | src/trigger.rs:153-169 | with one parameter of any kind that resolves, interpolation is exactly one `str::replace` of `$name` by its value |
| Interpolation.PrefixNamesDependOnOrder | src/trigger.rs:164-166 | with parameters `host` and `hostname`, `$hostname` becomes `b` or `aname` depending on map order |
| Interpolation.TokenCanRemain | src/trigger.rs:165 | `$$pp` with `p` bound to the empty string becomes `$p`: a token can remain after interpolation |
| Actions.Select | src/trigger.rs:194-216 | an HTTP method with a url gives that request; MQTT with topic and payload publishes to the configured server, or gives the configuration error when none is configured; missing required fields give a no-op |
| Actions.RunAction | src/trigger.rs:185-217 | the action fails with a parameter error exactly when some template is present and a parameter fails; otherwise the choice is made on the interpolated fields |
| Actions.MqttWithoutServer | src/trigger.rs:204-211 | an MQTT action with topic and payload but no MQTT server configured gives the configuration error |
| Actions.HttpNeedsOnlyUrl | src/trigger.rs:195-203 | GET, PUT and POST need only the url; topic, payload and MQTT configuration play no part |
| Actions.MissingFieldsIsNoOp | src/trigger.rs:213-216 | a method whose required fields are missing sends nothing and reports success |
| Actions.InterpolationErrorsFirst | src/trigger.rs:190-192 | interpolation errors are reported before any dispatch, for every method, even when the method ignores the failing template |
| TriggerLoop.Since | src/trigger.rs:29-31 | `since(t)` is `now - t` when `t <= now` and 0 otherwise |
| TriggerLoop.WaitBeforeVerify | src/trigger.rs:77-78 | the wait is at most `delay`; it is 0 exactly when the edge is at least `delay` old; otherwise wait plus age is `delay` |
| TriggerLoop.Lookback | src/trigger.rs:137 | the lookback is `delay + 60` whenever that fits in `u64`; otherwise it wraps to less than 60 |
| TriggerLoop.EdgeRequest | src/trigger.rs:125-140 | the detector gets the interpolated condition query, the condition's own `from`/`to` and lookback `delay + 60`; interpolation errors come back instead |
| TriggerLoop.GetEdge | src/trigger.rs:125-140 | a parameter failure becomes a parameter error carrying the interpolation's own error, without asking the detector; otherwise a detector failure is an edge error, and no edge or an edge time is passed through |
| TriggerLoop.Iterate | src/trigger.rs:74-121 | a pass starts with an edge query; it fires exactly when the verification query returns the edge first found |
| TriggerLoop.FiresOnlyOnConfirmedEdge | src/trigger.rs:87-100 | a confirmed edge gives query, wait, query, fire, then a sleep of exactly `delay`; in every other case nothing fires |
| TriggerLoop.InvalidatedEdgeRestartsAtOnce | src/trigger.rs:105-107 | a verification answer of no edge or a different edge ends the pass without firing and without sleeping |
| TriggerLoop.ErrorsBackOff | src/trigger.rs:101-120 | an error from the first or the verification query means no action and a final 15 s sleep |
| TriggerLoop.NoEdgeWaitsDelay | src/trigger.rs:110-116 | no edge at the first query: no verification query, no action, one sleep of `delay` |
| TriggerLoop.VerifyOnlyAfterEdge | src/trigger.rs:75-121 | when the first query finds no edge, the verification answer is never consulted and exactly one query is made |
| TriggerLoop.DebounceWindow | src/trigger.rs:77-87 | for an edge not later than the clock, the verification query is made once the edge is at least `delay` old, exactly then when it was younger, and at once when it was already old enough; an edge stamped after the clock waits the full `delay` and is re-checked before it is `delay` old |
| TriggerLoop.DebounceScenario | src/trigger.rs:76-100 | delay 120 s and an edge 30 s old: wait 90 s, re-query, fire, sleep 120 s |
| TriggerLoop.RunTriggerIteration | src/trigger.rs:70-138 | a whole trigger's pass fires exactly when both queries resolve their parameters and the detector reports the same last edge both times, and then waits, re-queries, fires and sleeps `delay`; no edge sleeps `delay`; an unresolvable parameter or a detector failure, in either query, backs off 15 s |
| TriggerLoop.SameQueryBothTimes | src/trigger.rs:130-138 | when the parameters resolve to the same values, both queries of a pass get identical query text, window and lookback |
| TriggerLoop.MachineMatchesLoop | src/trigger.rs:74-122 | the explicit phase machine, started in `Searching` and fed the same answers, is back in `Searching` within three steps, having done exactly what the loop body does |
| TriggerLoop.Run | src/trigger.rs:74-122 | consecutive passes of the `loop`; no contract of its own: FireCount (one Fire per confirmed pass) and CooldownAfterEveryFire (a `delay` sleep after each Fire) state two properties of a run |
| TriggerLoop.FiresInPass | src/trigger.rs:87-100 | a pass fires the action once if its edge is confirmed and not at all otherwise |
| TriggerLoop.FireCount | src/trigger.rs:74-122 | over any number of passes, the action fires once per pass whose verification returns the edge first found |
| TriggerLoop.SameEdgeFiresAgain | src/trigger.rs:74-122 | no record is kept of edges already acted on: two passes that confirm the same edge fire twice |
| TriggerLoop.CooldownAfterEveryFire | src/trigger.rs:90-99 | across passes, every firing is followed at once by a sleep of `delay` |

## Left out

- Concurrency in `run_triggers` (`src/trigger.rs:59-68`): the `try_join_all` over all triggers is not modelled; each trigger's loop is modelled on its own.
- Interpolation.ResolveAll: the source resolves parameters concurrently and reports whichever failure completes first in time. The model resolves them in map order and reports the first failure in that order; success and failure agree.
- Actions.RunAction: the source resolves the parameters afresh for each of url, topic and payload. The model gives all three one snapshot of the collaborators, so a lookup answering differently between the three is not modelled.
- Sending (`client.put/post/get(..).send()`, `send_mqtt_message` at `src/trigger.rs:219-251`): HTTP and MQTT I/O, the client identifier, the 1 s disconnect timeout and the `NetworkFailed`/`MqttFailed` outcomes are outside the model; only the choice of what to send is modelled. `send_mqtt_message` reads `username`/`password`, which `MqttConfig` does not declare, so credentials cannot be modelled.
- The edge detector's query evaluation (an external crate) is an input function; only its arguments and answer are modelled.
- `src/mdns.rs` (multicast DNS with a 15 s timeout) is the `mdns` input of `Env`; the textual form of an IP address is part of its answer.
- `src/main.rs`, TOML and JSON deserialisation, `TriggerManager::new` and the `Config`/`PrometheusConfig` records: CLI and parsing plumbing. Registry files reach the model already read and parsed, or as a read or parse error.
- Logging (`info!`, `error!`) has no effect on behaviour and is not modelled; the result of `run_action` inside the loop is only logged, so `Fire` carries no result.
- The infinite `loop` is modelled one pass at a time (`Iterate`), and as a finite run of passes (`Run`); the clock is read once per pass, after the first query, as `since` does.
- TriggerLoop.Lookback: a debug build panics when `delay + 60` overflows `u64`; the model follows a release build, which wraps.
