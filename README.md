# RabbitMQ metric shaping, modelled in Dafny

This project models how the RabbitMQ plugin of node-monitoring turns broker statistics into
metric points. The plugin lives in `plugins/rabbitmq.js`. For each configured broker host it
runs a waterfall of three stages: nodes, then vhosts, then queues. Each stage fetches one
management API path and turns every entity of the JSON reply into an entry. An entry is a
pair of tags and metrics. `writeStats` then flattens the entries into points tagged with the
stat type and the host, and a flush hands the points to the storages. The first error in any
stage ends the process with exit code 1.

Modules, following the program's structure:

- `Wrappers`: `Option` and `Result`.
- `Objects`: plain JavaScript objects as ordered `(key, value)` lists. A read finds the first
  match. An assignment replaces a key in place or appends a new one. `_.keys` order is
  therefore insertion order.
- `Json`: parsed replies, JavaScript property reads (`undefined` is `None`), falsiness,
  what `_.each` visits, and string conversion for `+`.
- `Paths`: `value`. It splits the path on `.`, walks the keys, and answers `obj || defaultValue`.
  Reading a property of `null` throws a `TypeError`.
- `Extract`: `values`. Bare and remapped field specifications become ordered assignments.
  The loop over them is a method proved against a fold.
- `Series`: `writeStats`. An entry's tags are extended with `{type, host}`, and the method
  emits one point per (entry, metric), in order.
- `Collector`: the node, vhost and queue transforms, the round-half-up percentage, and the
  per-stage loop over a reply. It stops at the first throwing entity, as the stage's
  `try`/`catch` in `getInfo` does.
- `Exchanges`: the exchange filter (`^amq\.` and empty names), the series key
  `vhost|exchange|name`, and the fold into the keyed series object.
- `Cycle`: one host's waterfall as a trace of `Fetch`, `Flush`, `Exit(1)` and `Done` events.
- `Escape`: `escape`. It replaces `.` with `_`, then `|` with `.`, then percent-encodes the
  result as `encodeURIComponent` does.

Three behaviours of the code are easy to miss when reading it quickly. The model follows the code in each:

- `value` does not always fall back to the default. When a step reaches a present `null`, the
  next step reads a property of `null` and throws. A `null` entity throws too. The model
  returns `Err(TypeError)`, and that error becomes the stage's error.
- The queue transform extracts only `messages`, `messages_ready`, `messages_unack` and
  `consumers`.
- The exchanges stage is commented out of the waterfall. If it ran, it would write under the
  stat name `vhost`. So the cycle has the three stages nodes, vhosts and queues.

## Model

| member | source | states |
|---|---|---|
| Objects.Get | plugins/rabbitmq.js:90 | Definition of a property read on a plain object: the value of the first entry with the key, or `undefined`. Its properties are stated by `Objects.GetDefined`, `Objects.GetAt` and the ensures of `Objects.Put`. |
| Objects.GetDefined | plugins/rabbitmq.js:90 | A read finds a value exactly for the keys of the object. |
| Objects.GetAt | plugins/rabbitmq.js:90 | In an object without duplicate keys, reading the key of entry `i` gives the value of entry `i`. |
| Objects.Put | plugins/rabbitmq.js:118 | An assignment `tmp[to[index]] = v` makes the key read as `v` and leaves every other key reading as before. It is also stated by `Objects.PutKeys` and `Objects.PutDistinct`. |
| Objects.PutKeys | plugins/rabbitmq.js:118 | After an assignment the keys are the old keys plus the assigned one. |
| Objects.PutDistinct | plugins/rabbitmq.js:118 | An assignment keeps the keys free of duplicates. |
| Paths.Split | plugins/rabbitmq.js:87 | Definition of `path.split('.')`; it always has at least one segment. Its properties are stated by `Paths.JoinSplit`, `Paths.SplitJoin`, `Paths.SplitConcat` and `Paths.SplitSegments`. |
| Paths.JoinSplit | plugins/rabbitmq.js:87 | Joining the segments of `path.split('.')` with `.` gives back the path. |
| Paths.SplitJoin | plugins/rabbitmq.js:87 | Splitting a join of dot-free segments gives back exactly those segments. |
| Paths.SplitConcat | plugins/rabbitmq.js:87 | Splitting `p + "." + q` gives the segments of `p` followed by those of `q`. |
| Paths.SplitSegments | plugins/rabbitmq.js:87 | No segment of a split contains the separator. |
| Paths.Walk | plugins/rabbitmq.js:89-96 | Definition of the walk over the keys: it reaches a value, stops at a missing key, or throws on `null`. Its properties are stated by `Paths.WalkThrows`, `Paths.WalkAppend` and `Paths.WalkNest`. |
| Paths.Resolve | plugins/rabbitmq.js:86-98 | Definition of what `value` returns. Its properties are stated by `Paths.Value`, `Paths.ResolveKey`, `Paths.ResolveDotted`, `Paths.ResolveStopsAtMissingKey` and `Paths.ResolveNest`. |
| Paths.Value | plugins/rabbitmq.js:86-99 | The loop over the path segments answers what `Resolve` defines: the default when a key is missing or the value is falsy, the value found otherwise, and `TypeError` when a step reads a property of `null`. |
| Paths.WalkThrows | plugins/rabbitmq.js:89-96 | A walk throws exactly when some proper prefix of the keys reaches `null`. |
| Paths.WalkAppend | plugins/rabbitmq.js:89-96 | Walking `a + b` is walking `a`, then walking `b` from where `a` stopped; a missing key or a throw ends the walk. |
| Paths.ResolveKey | plugins/rabbitmq.js:86-99 | A dot-free path on `null` throws. A missing key gives the default. A falsy value gives the default. Any other value is returned. |
| Paths.ResolveDotted | plugins/rabbitmq.js:86-99 | `a.b` resolves as `b` on the value reached through `a`; a missing key gives the default and a `null` step throws. |
| Paths.ResolveStopsAtMissingKey | plugins/rabbitmq.js:90-95 | A missing key part-way along the path gives the default, whatever the later keys are. |
| Paths.WalkNest | plugins/rabbitmq.js:89-96 | Following every key of a nested object reaches its leaf. |
| Paths.ResolveNest | plugins/rabbitmq.js:86-99 | A dotted path into a nested object gives its leaf, or the default when the leaf is falsy. |
| Json.Property | plugins/rabbitmq.js:90 | Definition of `obj[key]` on a value that is not `null`; `value` checks for `null` first. Its properties are stated by `Json.PropertyOfObject`, `Json.PropertyIndex` and `Json.PropertyCharacter`. |
| Json.IsFalsy | plugins/rabbitmq.js:98 | Definition of the falsy JSON values that `obj \|\| defaultValue` replaces: `null`, `false`, `0` and `""`. Used by `Paths.ResolveKey` and `Paths.ResolveNest`. |
| Json.PropertyOfObject | plugins/rabbitmq.js:90 | A property of an object is defined exactly for the object's keys. |
| Json.DecimalRoundTrip | plugins/rabbitmq.js:90 | The decimal string of a whole number is all digits, starts with `0` only for 0, and reads back as the number. |
| Json.ArrayIndexOfDecimal | plugins/rabbitmq.js:90 | The decimal string of `n` is the canonical array index `n`. |
| Json.PropertyIndex | plugins/rabbitmq.js:90 | Reading key `"i"` of an array gives element `i`. |
| Json.PropertyCharacter | plugins/rabbitmq.js:90 | Reading key `"i"` of a string gives its character `i`. |
| Json.Entities | plugins/rabbitmq.js:140 | Definition of what `_.each(json \|\| [], ...)` visits: nothing for a falsy reply, the items of an array, the property values of an object, and the characters of a string. Its property for objects is stated by `Json.EntitiesOfObject`. |
| Json.EntitiesOfObject | plugins/rabbitmq.js:140 | Over an object without duplicate keys, entity `i` is the value read by key `i`, and every defined key's value is visited. |
| Json.ToJsString | plugins/rabbitmq.js:204 | Definition of the string conversion `+` applies to the vhost and name of an exchange: `undefined`, `null` and booleans by their names, strings unchanged. Its properties are stated by `Exchanges.ExchangeKey`, `Exchanges.KeysCollide` and `Exchanges.CollidingExchangeLost`. |
| Extract.Moves | plugins/rabbitmq.js:110-119 | Definition of the assignments one argument of `values` makes: a bare name assigns itself, a remap object assigns its pairs in order. What this means for the result's keys is stated by `Extract.Destinations`. |
| Extract.Assignments | plugins/rabbitmq.js:108-120 | Definition of the assignments of all the arguments after `obj`, in argument order. That they concatenate argument by argument is stated by `Extract.AssignmentsAppend` and `Extract.AssignmentsAround`. Their destinations are stated by `Extract.Destinations`, and `Extract.Values` runs over them. |
| Extract.AssignmentsAppend | plugins/rabbitmq.js:108-120 | The assignments of two argument lists one after the other are those of the first list followed by those of the second. |
| Extract.AssignmentsAround | plugins/rabbitmq.js:108-120 | The assignments of argument `i` sit between those of the arguments before and after it. |
| Extract.AssignAll | plugins/rabbitmq.js:106-124 | Definition of the contents of `tmp` after the assignments, or the first thrown error. Its properties are stated by `Extract.Values`, `Extract.AssignAllOk`, `Extract.AssignAllThrows`, `Extract.AssignAllKeys`, `Extract.AssignAllLast` and `Extract.AssignAllDistinct`. |
| Extract.Values | plugins/rabbitmq.js:106-124 | The loop over the specifications gives what `AssignAll` defines over the flattened assignments, including the first thrown error. |
| Extract.AssignEach | plugins/rabbitmq.js:117-119 | Assigning the pairs of one remap object, in order, extends the fold by those pairs. |
| Extract.AssignAllOk | plugins/rabbitmq.js:106-124 | `values` succeeds exactly when every lookup succeeds. |
| Extract.AssignAllThrows | plugins/rabbitmq.js:106-124 | When `values` fails, the error is a `TypeError`. |
| Extract.AssignAllStops | plugins/rabbitmq.js:106-124 | Once a lookup throws, later specifications do not change the outcome. |
| Extract.AssignAllKeys | plugins/rabbitmq.js:107-123 | The keys of the result are the destination names in first-assignment order, without duplicates. |
| Extract.AssignAllLast | plugins/rabbitmq.js:112-118 | A destination holds the lookup of the last assignment to it. |
| Extract.AssignAllDistinct | plugins/rabbitmq.js:106-124 | With distinct destinations, the keys come in specification order and each holds its own lookup. |
| Extract.Destinations | plugins/rabbitmq.js:108-121 | A key is a destination exactly when it is a bare name or a key of a remap object. |
| Extract.FlatLookups | plugins/rabbitmq.js:106-124 | With dot-free paths, `values` fails exactly when the object is `null` and there is something to assign. |
| Series.PointTags | plugins/rabbitmq.js:37 | Definition of `_.extend({}, data.tags, {type, host})`. Its properties are stated by `Series.PointTagsSpec` and `Series.EveryPointTagged`. |
| Series.Extend | plugins/rabbitmq.js:37 | Definition of `_.extend(target, src)`: the source's properties are assigned to the target one by one. Its properties are stated by `Series.ExtendGet` and `Series.ExtendKeys`. |
| Series.Points | plugins/rabbitmq.js:36-45 | Definition of the points of a series, entry by entry. Its properties are stated by `Series.WriteStats`, `Series.PointsCount`, `Series.PointsAt` and `Series.EveryPointTagged`. |
| Series.ExtendGet | plugins/rabbitmq.js:37 | `_.extend` takes a key from the later source when it has it, and from the target otherwise. |
| Series.ExtendKeys | plugins/rabbitmq.js:37 | The keys after `_.extend` are the union of the keys of the target and the source. |
| Series.PointTagsSpec | plugins/rabbitmq.js:37 | A point's tags have `type` = stat name and `host` = host, all other entry tags unchanged, and no other keys. |
| Series.EntryPoints | plugins/rabbitmq.js:38-44 | An entry gives one point per metric, in order, each with its name and value and the shared tags. |
| Series.WriteStats | plugins/rabbitmq.js:31-48 | The nested loops build exactly the points that `Points` defines from the series. |
| Series.PointsCount | plugins/rabbitmq.js:36-44 | The number of points is the total number of metrics over all entries. |
| Series.PointsAt | plugins/rabbitmq.js:36-44 | Metric `j` of entry `i` is the point at offset (metrics before entry `i`) + `j`, with that metric's name and value and the entry's tags extended with type and host. |
| Series.EveryPointTagged | plugins/rabbitmq.js:37 | Every emitted point carries the stat name as `type` and the host as `host`. |
| Collector.Round | plugins/rabbitmq.js:144 | `Math.round` gives the integer within half of its argument, rounding halves up. |
| Collector.Percent | plugins/rabbitmq.js:144-145 | Definition of `Math.round(100 * used / limit)`. Its properties are stated by `Collector.Round`, `Collector.PercentOfIntegers` and `Collector.PercentExamples`. |
| Collector.PercentOfIntegers | plugins/rabbitmq.js:144-145 | For whole numbers `a` and `b > 0`, the rounded percentage is `(200a + b) div 2b`. |
| Collector.PercentExamples | plugins/rabbitmq.js:144-145 | 50 of 200 gives 25, 3 of 10 gives 30, 1 of 2 gives 50. |
| Collector.Ratio | plugins/rabbitmq.js:144-145 | Definition of one node ratio: the rounded percentage of the node's used field over its limit field. Its properties are stated by `Collector.NodeMetricsRatios` and `Collector.NodeEntrySpec`. |
| Collector.NodeMetricsRatios | plugins/rabbitmq.js:143-145 | When each of the five fields is the lookup of its own name, `mem` and `sockets` in `tmpValues` are the rounded percentages of the node's own used fields over its limits. |
| Collector.NodeMoves | plugins/rabbitmq.js:141 | Constant-evaluation glue, not a property: the node field names become five self-assignments in argument order. |
| Collector.NodeFields | plugins/rabbitmq.js:141 | On a non-null node, each of the five fields is the lookup of its own name. |
| Collector.FlatFields | plugins/rabbitmq.js:106-124 | For dot-free paths with distinct destinations on a non-null object, `values` succeeds, keeps the specification order, and each field is its own lookup. |
| Collector.NodeMetrics | plugins/rabbitmq.js:143-147 | Definition of `tmpValues`. Its properties are stated by `Collector.NodeMetricsDisk` and `Collector.NodeEntrySpec`. |
| Collector.NodeMetricsDisk | plugins/rabbitmq.js:143-147 | Constant-evaluation glue, not a property: the node metrics are `mem`, `sockets`, `disk_free` in that order, and `disk_free` is the extracted value. |
| Collector.NodeEntry | plugins/rabbitmq.js:140-153 | The node transform throws exactly on a `null` node, and then with a `TypeError`. |
| Collector.NodeEntrySpec | plugins/rabbitmq.js:140-153 | A node entry has tags `{name}`. Its metrics are `mem` and `sockets` as rounded percentages of the node's own fields, then `disk_free` as found. |
| Collector.VhostMoves | plugins/rabbitmq.js:177-179 | Constant-evaluation glue, not a property: the vhost specifications become `messages`, `messages_ready`, and `messages_unack` read from `messages_unacknowledged`. |
| Collector.QueueMoves | plugins/rabbitmq.js:239-242 | Constant-evaluation glue, not a property: the queue specifications are the vhost ones followed by `consumers`. |
| Collector.VhostEntry | plugins/rabbitmq.js:174-181 | The vhost transform throws exactly on a `null` vhost, and then with a `TypeError`. |
| Collector.VhostEntryShape | plugins/rabbitmq.js:175-179 | Constant-evaluation glue, not a property: a vhost entry has tags `{vhost: name}` and metric keys `messages`, `messages_ready`, `messages_unack`. |
| Collector.VhostEntryMetrics | plugins/rabbitmq.js:177-179 | Constant-evaluation glue, not a property: the three vhost metrics are the lookups of `messages`, `messages_ready` and `messages_unacknowledged`. |
| Collector.QueueEntry | plugins/rabbitmq.js:233-244 | The queue transform throws exactly on a `null` queue, and then with a `TypeError`. |
| Collector.QueueEntrySpec | plugins/rabbitmq.js:233-244 | A queue entry has tags `{vhost, queue: name}`, the three message metrics as for a vhost, and `consumers` as found. |
| Collector.EntryFor | plugins/rabbitmq.js:140-153 | Any stage's transform of one entity throws exactly on `null`, with a `TypeError`. |
| Collector.Results | plugins/rabbitmq.js:140 | Entity `i` of the reply gives entry result `i`. |
| Collector.CollectOk | plugins/rabbitmq.js:140-153 | The pushes succeed exactly when every entity's transform succeeds; the series then holds every entry, in order. |
| Collector.CollectFirstError | plugins/rabbitmq.js:140-153 | The stage's error is that of the first throwing entity. |
| Collector.CollectErr | plugins/rabbitmq.js:140-153 | A failed stage's error is the error of one of its entities. |
| Collector.Collect | plugins/rabbitmq.js:140-153 | Definition of the pushes of one stage, stopping at the first throwing entity. Its properties are stated by `Collector.CollectOk`, `Collector.CollectFirstError` and `Collector.CollectErr`. |
| Collector.SeriesOf | plugins/rabbitmq.js:139-153 | Definition of a stage's series over a reply's entities. Its properties are stated by `Collector.SeriesOfSpec` and `Collector.BuildSeries`. |
| Collector.SeriesOfSpec | plugins/rabbitmq.js:139-153 | A reply's series exists exactly when no entity is `null`. Otherwise the stage fails with a `TypeError`. When it exists, entry `i` is the transform of entity `i`. |
| Collector.EntryOf | plugins/rabbitmq.js:140-153 | The per-entity code of each stage computes `EntryFor`. |
| Collector.BuildSeries | plugins/rabbitmq.js:139-153 | The loop over the reply's entities computes `SeriesOf`: the series in entity order, or the first error. |
| Collector.StatName | plugins/rabbitmq.js:155 | Definition of the stat name each stage passes to `writeStats`: `node` here, `vhost` at line 183 and `queue` at line 246. Its property is stated by `Series.EveryPointTagged`: every point of the stage carries it as `type`. |
| Collector.ApiPath | plugins/rabbitmq.js:133 | Definition of the management API path each stage fetches: `nodes` here, `vhosts` at line 167 and `queues` at line 226. Its property is stated by `Cycle.PathsOfStages` and `Cycle.HostCycleSpec`. |
| Exchanges.IsSystemName | plugins/rabbitmq.js:203 | Definition of `/^amq\./.test(name)` on a string. It is used by `Exchanges.KeepExchange`. |
| Exchanges.KeepExchange | plugins/rabbitmq.js:203 | The filter throws exactly on a `null` exchange or a missing or `null` name. It keeps an exchange exactly when its name is a non-empty string not starting with `amq.`. |
| Exchanges.ExchangeKey | plugins/rabbitmq.js:204 | Definition of `exchange['vhost'] + '\|exchange\|' + exchange.name`. Its properties are stated by `Exchanges.KeysCollide`, `Exchanges.CollidingExchangeLost`, `Exchanges.ExchangesKeys` and `Exchanges.ExchangesLast`. |
| Exchanges.KeysCollide | plugins/rabbitmq.js:204 | The key does not identify an exchange: `{vhost: "a\|exchange\|b", name: "c"}` and `{vhost: "a", name: "b\|exchange\|c"}` are different, both kept, and share one key. |
| Exchanges.ExchangeMoves | plugins/rabbitmq.js:205-210 | Constant-evaluation glue, not a property: the four remaps read `publish_in`, `publish_out` and the two rates under `message_stats`. |
| Exchanges.Record | plugins/rabbitmq.js:203-211 | Definition of one step of the loop over the exchanges. Its properties are stated by `Exchanges.RecordExchange` and `Exchanges.NullStatsThrow`. |
| Exchanges.ExchangesWith | plugins/rabbitmq.js:201-213 | Definition of the series object after the loop. Its properties are stated by `Exchanges.ExchangesOk`, `Exchanges.ExchangesKeys`, `Exchanges.ExchangesLast` and `Exchanges.CollectExchanges`. |
| Exchanges.ExchangesOf | plugins/rabbitmq.js:201-213 | Definition of the series object of `sendExchangesStats`: the fold with the four remaps of lines 205-210. Its properties are stated by `Exchanges.CollectExchanges`, and those of the fold it instantiates by `Exchanges.ExchangesOk`, `Exchanges.ExchangesKeys` and `Exchanges.ExchangesLast`. |
| Exchanges.ExchangesOk | plugins/rabbitmq.js:202-213 | The fold succeeds exactly when every exchange passes the filter and each kept one's values succeed. |
| Exchanges.ExchangesKeys | plugins/rabbitmq.js:202-213 | The keys of the series are exactly the keys of the kept exchanges. |
| Exchanges.ExchangesLast | plugins/rabbitmq.js:204-211 | The key of the last kept exchange with a given key holds a one-element list of that exchange's values. |
| Exchanges.CollidingExchangeLost | plugins/rabbitmq.js:204-211 | When those two exchanges come in that order, the series has the one shared key, and it holds only the second exchange's values: the first one's are overwritten. |
| Exchanges.NullStepThrows | plugins/rabbitmq.js:89-96 | A path `p.q` with a present `null` at `p` throws. |
| Exchanges.FailingMove | plugins/rabbitmq.js:106-124 | One throwing lookup makes `values` throw a `TypeError`. |
| Exchanges.NullStatsThrow | plugins/rabbitmq.js:205-210 | A kept exchange whose `message_stats` is `null` makes the stage throw. |
| Exchanges.RecordExchange | plugins/rabbitmq.js:203-211 | The body of the loop filters one exchange and records its values under its key, as `Record` defines. |
| Exchanges.CollectExchanges | plugins/rabbitmq.js:201-213 | The loop over the reply computes `ExchangesOf`: the series object, or the first error. |
| Cycle.Outcomes | plugins/rabbitmq.js:257-262 | Definition of what each stage of the waterfall would give, in order. Its properties are stated by `Cycle.HostCycleSpec` and `Cycle.StageRunsIff`. |
| Cycle.CycleFrom | plugins/rabbitmq.js:257-269 | Definition of the events from stage `k` on. Its properties are stated by `Cycle.CycleStep`, `Cycle.RunHost`, `Cycle.FetchedFrom`, `Cycle.FlushedFrom` and `Cycle.EndsFrom`. |
| Cycle.StageResult | plugins/rabbitmq.js:131-157 | Definition of what one stage gives: its reply's error, the first error of its transform, or the points `writeStats` makes of its series. Its properties are stated by `Cycle.RunStage` and `Cycle.HostCycleSpec`. |
| Cycle.HostCycle | plugins/rabbitmq.js:256-274 | Definition of one host's trace: the cycle from the first stage over the stage outcomes. Its properties are stated by `Cycle.HostCycleSpec`, `Cycle.StageRunsIff`, `Cycle.RunHost` and `Cycle.QueuesTransportError`. |
| Cycle.RunStage | plugins/rabbitmq.js:131-157 | A stage passes on its reply's error, or its transform's error, or flushes the points of its series. |
| Cycle.CycleStep | plugins/rabbitmq.js:257-269 | One step of `CycleFrom`: a failing stage gives its fetch and `exit(1)`, a successful one its fetch and flush followed by the next stages. It is used by `Cycle.RunHost`. |
| Cycle.RunHost | plugins/rabbitmq.js:257-269 | Running the stages in turn produces the trace `HostCycle` defines. |
| Cycle.FirstFailure | plugins/rabbitmq.js:257-269 | The index of the first failing stage: every earlier stage succeeded. |
| Cycle.FetchedFrom | plugins/rabbitmq.js:257-269 | The paths fetched are the stages in order, up to and including the first failing one. |
| Cycle.FlushedFrom | plugins/rabbitmq.js:257-269 | One flush per successful stage before the first failure, in order, each with that stage's points. |
| Cycle.EndsFrom | plugins/rabbitmq.js:263-268 | The cycle ends in `exit(1)` exactly when some stage fails, and otherwise completes. |
| Cycle.HostCycleSpec | plugins/rabbitmq.js:257-269 | A host's cycle fetches `nodes`, `vhosts`, `queues` in order, stopping after the first failure. Every stage before the failure flushes exactly its points. A failure ends the trace in exit code 1, and a clean run ends it in `Done`. |
| Cycle.StageRunsIff | plugins/rabbitmq.js:257-269 | A stage is fetched exactly when every earlier stage succeeded. |
| Cycle.PathsOfStages | plugins/rabbitmq.js:257-262 | The stages of the waterfall fetch `nodes`, `vhosts` and `queues`, in that order. |
| Cycle.QueuesTransportError | plugins/rabbitmq.js:257-269 | Empty nodes and vhosts replies followed by a failed queues request give two empty flushes, then the queues fetch, then exit 1. |
| Escape.ReplaceAll | plugins/rabbitmq.js:21 | A global single-character replace changes exactly the matching characters. |
| Escape.Dotless | plugins/rabbitmq.js:21 | Definition of the two replaces, `.` to `_` and then `\|` to `.`. Its properties are stated by `Escape.DotlessMap`, `Escape.EscapeSeparator` and `Escape.DotAndUnderscoreCollide`. |
| Escape.DotlessMap | plugins/rabbitmq.js:21 | After both replaces, a character is `.` exactly where the name had `\|`, and no `\|` remains. |
| Escape.Utf8 | plugins/rabbitmq.js:21 | A character encodes to one to four bytes. |
| Escape.PercentBytes | plugins/rabbitmq.js:21 | The escape of `n` bytes has `3n` characters, each `%` or a hex digit. |
| Escape.PercentBytesAt | plugins/rabbitmq.js:21 | Byte `i` becomes `%` and its two upper-case hex digits at positions `3i` to `3i + 2`. |
| Escape.EncodeChar | plugins/rabbitmq.js:21 | Definition of `encodeURIComponent` on one character: an unreserved character stays, any other becomes its percent-escaped UTF-8 bytes. Its properties are stated by `Escape.Utf8`, `Escape.PercentBytes`, `Escape.PercentBytesAt` and `Escape.EncodeAlphabet`. |
| Escape.Encode | plugins/rabbitmq.js:21 | Definition of `encodeURIComponent`, character by character. Its properties are stated by `Escape.EncodeAppend`, `Escape.EncodeAlphabet` and `Escape.EncodeUnreserved`. |
| Escape.EncodeAppend | plugins/rabbitmq.js:21 | Percent-encoding works character by character, so it distributes over concatenation. |
| Escape.EncodeAlphabet | plugins/rabbitmq.js:21 | The encoding uses only unreserved characters and `%`. |
| Escape.EncodeUnreserved | plugins/rabbitmq.js:21 | A string of unreserved characters encodes to itself. |
| Escape.EscapeName | plugins/rabbitmq.js:20-22 | Definition of `escape`: the two replaces, then percent-encoding. Its properties are stated by `Escape.EscapeSeparator`, `Escape.DotlessMap`, `Escape.EncodeAppend`, `Escape.EncodeAlphabet` and `Escape.EncodeUnreserved`. |
| Escape.EscapeSeparator | plugins/rabbitmq.js:20-22 | Escaping `a\|b` is escaping `a`, a `.`, then escaping `b`. |
| Escape.DotAndUnderscoreCollide | plugins/rabbitmq.js:21 | `a.b` and `a_b` escape to the same `a_b`. |
| Escape.EscapeSpace | plugins/rabbitmq.js:20-22 | `a b` escapes to `a%20b`. |
| Escape.EscapeTwoBytes | plugins/rabbitmq.js:20-22 | `é` escapes to its two UTF-8 bytes, `%C3%A9`. |
| Escape.EscapeBar | plugins/rabbitmq.js:20-22 | `a\|b` escapes to `a.b`. |

## Left out

- Requests and reply parsing in `getInfo` are I/O. Each stage takes a reply parameter: the parsed JSON, or a transport or parse error.
- `flush`, its `async.queue` of width 5, and the storage writes are I/O. A successful stage is one `Flush` event with its points. The queue's drain is taken to fire once it is empty, so every `Flush` completes. Two cases stall in the program and are not captured. With no storages configured, the flush queue gets no task and its drain never fires. With the elasticsearch storage, a batch of no points gets no task in that storage's write queue (storage/elasticsearch.js:46-50), so its drain never fires either; a stage whose reply has no entities then never completes. `Cycle.QueuesTransportError` relies on empty flushes completing.
- Per-host fan-out through `async.map`, the 5000 ms rescheduling, the date written to stdout, and `console.error` are clock and I/O effects. The model covers one host's cycle.
- `sendExchangesStats` is not part of the waterfall, so its `getInfo` and `writeStats` calls are left out. Passed to `writeStats`, its series object's values are arrays with no `tags` or `metrics`, so no points would result. The filter, the key and the fold are modelled.
- Exchanges.KeepExchange: requires that the name is not an array or object. Their JavaScript `length` and regular-expression conversion are not modelled. The same restriction reaches `Exchanges.Record`, `Exchanges.ExchangesWith`, `Exchanges.ExchangesOf`, `Exchanges.ExchangesOk`, `Exchanges.ExchangesKeys`, `Exchanges.ExchangesLast`, `Exchanges.NullStatsThrow`, `Exchanges.RecordExchange` and `Exchanges.CollectExchanges` through `NameModelled`, `ExchangeModelled` and `AllModelled`.
- Exchanges.ExchangeKey: requires that a kept exchange's `vhost` is a string, boolean, `null` or missing. Number and object conversion to strings is not modelled. The same restriction reaches `Exchanges.Record`, `Exchanges.ExchangesWith`, `Exchanges.ExchangesOf`, `Exchanges.ExchangesOk`, `Exchanges.ExchangesKeys`, `Exchanges.ExchangesLast`, `Exchanges.NullStatsThrow`, `Exchanges.RecordExchange` and `Exchanges.CollectExchanges` through `ExchangeModelled` and `AllModelled`.
- Collector.NodeEntry: requires that the used fields resolve to numbers and the limits to non-zero numbers. `parseFloat` of strings, `NaN` and `Infinity` are not modelled. The same restriction reaches `Collector.Ratio`, `Collector.Percent`, `Collector.NodeMetrics`, `Collector.NodeMetricsRatios`, `Collector.NodeMetricsDisk`, `Collector.NodeEntrySpec`, `Collector.EntryFor`, `Collector.Results`, `Collector.SeriesOf`, `Collector.SeriesOfSpec`, `Collector.EntryOf` and `Collector.BuildSeries` through `Admissible`. It reaches `Cycle.StageResult`, `Cycle.Outcomes`, `Cycle.RunStage`, `Cycle.RunHost`, `Cycle.HostCycleSpec` and `Cycle.StageRunsIff` through `RepliesModelled`.
- Json.Entities: lodash treats an object whose `length` property is a whole number from 0 to 2^53 - 1 as array-like. For such an object `_.each` visits the properties `0` to `length - 1`, and a missing one is `undefined`, on which the transform throws. The model visits the property values of every object.
- JSON numbers are exact reals. Double rounding is not modelled.
- Properties inherited through the prototype chain are not modelled. Property access covers own properties of objects, and index and `length` of arrays and strings.
- Strings are sequences of Unicode scalar values. UTF-16 lengths and lone surrogates, which would make `encodeURIComponent` throw `URIError`, are not modelled.
- JavaScript enumerates integer-like keys first, in ascending order. The model keeps insertion order for every key.
- Duplicate keys in a reply object are not modelled: a read takes the first one, whereas `JSON.parse` keeps the last.
- `app.js`, configuration loading, the debug flags and the storage classes are not part of this model.
