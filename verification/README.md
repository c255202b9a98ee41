# Verified models of GCS-Saker's query rewrites, codecs, audit chains and operations

This project models the parts of GCS-Saker where a mistake would silently give wrong answers, and
proves what they are for. Each module follows one source file and keeps its branches, constants and
error cases. Code that computes by expressions is a set of functions with lemmas; code that loops
over changing state is a method or a class, proved against a function whose laws are then proved.

* **Queries.** `Ordering`, `Scope` and `Aggregates` are the shared SQL theory: nullable values,
  three-valued logic, NULL-skipping aggregates, and `ORDER BY ... LIMIT` as a relation between rows
  and every listing the order admits. On it stand `ScopedTelemetry` (an OR/EXISTS scan as a UNION ALL
  of limited branches), `EventRollup` (answers from a per-minute rollup), `RollupFixture` (append and
  refresh over whole runs), `SessionQueries` (one summary in three formulations) and
  `TelemetryKeyset` (seek instead of OFFSET).
* **Codecs.** `Base128`, `ProtoTelemetry`, `Mqtt` and `Resp`, with `ProtoTruncation`,
  `MqttTruncation` and `RespTruncation` on cut messages and `RespStreams` on arbitrary ones. The two
  network readers run on `Sockets.Socket`, whose receive call may return any nonempty prefix, so
  their contracts hold for every chunking of the stream.
* **Audit.** `AuditChain`, `AuditAnchors`, `AnchorFields`, `AnchorPayloads` and `AuditRecovery`.
  Digests, signatures and timestamp parsing are parameters. Nothing is assumed injective: a commitment theorem ends in "equal, or here
  is a collision of the digest", so with an injective digest the second case is gone.
* **Operations.** `IdentityBackfill` (batches under SKIP LOCKED, with other sessions inserting and
  locking at will) and `ComposeLifecycle` (a container runtime and a clock that may answer anything).
* **Texts and trees.** `StreamPaths`, `MavenSbom` and `PlanWalk`. `Text`, `Bytes` and `Wrappers` hold
  what the modules share.
* **What the answers are.** `RollupAnswers`, `SessionAnswers`, `PageAnswers`, `RespReplies`,
  `AnchorVerdicts`, `ProtoWire`, `Utf8`, `StreamGrammar` and `MavenOutcomes` say in plain terms, with
  the constants written out, what the operations of the other modules answer and refuse.

Six properties are not unconditional in the code. Each has an input on which it fails and its exact
condition:

* The UNION ALL rewrite answers like the original query for every table and page if and only if no
  closure pair is stored twice (`ScopedTelemetry.RewriteExactness`). In production the pair is the
  primary key (`services/auth-policy/src/main/resources/db/migration/V2__group_hierarchy_and_device_identity.sql:18-22`),
  so a repeated pair is an input of benchmark fixtures only: the keyset fixture declares its closure
  table without a key (`scripts/benchmarks/telemetry_keyset_benchmark.py:77`), the rollup fixture
  with one.
* The telemetry decoder accepts a last string that is cut short (`ProtoTelemetry.CutStringDecodes`).
  Decoding is compositional for exactly the payloads in which no string is cut
  (`ProtoTelemetry.CompositionExact`), and `ProtoTruncation.TruncatedMessage` says what every
  truncated message decodes to.
* Filtering the rollup by `bucket_start` is filtering events by `occurred_at` for exactly the windows
  that `eligible` accepts (`EventRollup.EligibleExact`).
* The eight-digit device ids are unique exactly below 10^8 rows, because `LPAD` cuts a ninth digit
  (`TelemetryKeyset.SeedKeysUnique`).
* `read_resp` does not always return: on a bulk string whose peer has closed it calls `recv` for
  ever, which the model reports as the outcome `Stalled` (`RespTruncation.StalledStream`). For every
  stream it does so exactly when it reaches, in whatever nesting of arrays, a bulk string that the
  stream cuts short behind its header (`RespStreams.RunsOutExactly`);
  `RespTruncation.TruncatedCommand` says which cuts of a command do that.
* The signed payload of an anchor joins its fields by a separator that they may contain. With a
  prescribed commit it fixes all fields if and only if no accepted time ends in a separator and
  another accepted time, with a record count right before that separator
  (`AnchorPayloads.PrescribedExact`), which is a condition on the timestamp parser alone;
  `AnchorPayloads.SharedByShift` gives the two anchors otherwise. Without a prescribed commit it
  never fixes them as long as any anchor can pass (`AnchorPayloads.UnprescribedExact`,
  `AnchorFields.SharedByCommit`). A single pair of anchors is fixed when neither time nor an
  unprescribed commit contains the separator (`AnchorFields.StepFixesFields`).

Python's `==` takes `True` for `1`, so two audit logs can compare equal and still differ; the hash
separates them (`AuditRecovery.EqualLogsIdentical`).

## Model

| member | source | states |
|---|---|---|
| Ordering.AnswerIsTop | services/auth-policy/src/main/kotlin/kr/co/a4ai/gcssaker/authpolicy/infrastructure/persistence/operations/JdbcOperationalReadSql.kt:17 | without ties ORDER BY with LIMIT has one answer: ascending, and exactly the rows that fewer than the limit precede |
| Ordering.TopOfTops | scripts/benchmarks/telemetry_scoped_candidate.py:25-34 | cutting every branch to the limit first loses no row of the overall cut |
| Ordering.UnionOfLimits | scripts/benchmarks/telemetry_scoped_candidate.py:32-34 | disjoint branches, each ordered and cut, then merged, ordered and cut, answer exactly like all rows at once |
| Ordering.AnswersDifferOnlyInTies | scripts/benchmarks/event_query_candidates.py:38-47 | two answers to an order with ties have one length, tie position by position, and share every row before the last one kept |
| Ordering.AnswerShape | scripts/benchmarks/event_query_candidates.py:38-47 | every answer, ties or not, has as many rows as limit and table allow, in an order the key permits, and leaves out no row that precedes a listed one |
| Text.LessMeaning | services/auth-policy/src/main/kotlin/kr/co/a4ai/gcssaker/authpolicy/infrastructure/persistence/operations/JdbcOperationalReadSql.kt:15-17 | one text precedes another exactly when it is a proper prefix or has the smaller character where they first differ |
| Scope.ScopeMeaning | services/auth-policy/src/main/kotlin/kr/co/a4ai/gcssaker/authpolicy/infrastructure/persistence/operations/JdbcOperationalReadSql.kt:9-12 | the three-valued clause holds exactly for the own group, for equal roles, or for a closure edge under the hierarchy role; a NULL never admits |
| ScopedTelemetry.BranchesDisjoint | scripts/benchmarks/telemetry_scoped_candidate.py:25-31 | with unique closure pairs no row is in two branches, NULL parameters included |
| ScopedTelemetry.BranchesCover | scripts/benchmarks/telemetry_scoped_candidate.py:18-31 | the branches together hold exactly the rows for which the three-valued scope clause is true and the position is passed |
| ScopedTelemetry.CandidateEqualsOwned | scripts/benchmarks/telemetry_scoped_candidate.py:11-35 | for every table, NULL pattern, position and limit the rewrite admits exactly the owned query's answers |
| ScopedTelemetry.OwnedPage | services/auth-policy/src/main/kotlin/kr/co/a4ai/gcssaker/authpolicy/infrastructure/persistence/operations/JdbcOperationalReadSql.kt:4-17 | the owned page exists, is unique, ascends by uuid and holds the first visible rows |
| ScopedTelemetry.RewriteExactness | scripts/benchmarks/telemetry_scoped_candidate.py:28-34 | the rewrite is right for all tables and pages if and only if no closure pair is stored twice |
| ScopedTelemetry.RepeatedEdgeRepeatsRow | scripts/benchmarks/telemetry_scoped_candidate.py:28-31 | any repeated closure pair has a one-row table on which the rewrite returns the row twice |
| PageAnswers.PageIs | services/auth-policy/src/main/kotlin/kr/co/a4ai/gcssaker/authpolicy/infrastructure/persistence/operations/JdbcOperationalReadSql.kt:4-17 | a page ascends by uuid, holds only rows in scope behind the position, as many as the limit allows, and leaves out only greater uuids |
| PageAnswers.CandidatePageIs | scripts/benchmarks/telemetry_scoped_candidate.py:24-34 | the same of every page of the rewrite |
| EventRollup.FoldIsTotal | scripts/benchmarks/event_rollup_queries.py:24-30 | adding up the rollup rows of any set of keys summarizes exactly the events of those keys |
| Aggregates.MinIsLeast | scripts/benchmarks/event_rollup_queries.py:14 | MIN is NULL exactly without values, and otherwise one of them that none is below |
| Aggregates.MaxIsGreatest | scripts/benchmarks/event_rollup_queries.py:16 | MAX is NULL exactly without values, and otherwise one of them that none is above |
| Aggregates.SumOfZeros | scripts/benchmarks/event_rollup_queries.py:26-29 | a SUM is NULL exactly without values, and zero over zeros |
| Aggregates.SumShift | scripts/benchmarks/event_rollup_queries.py:26-28 | raising one value raises the SUM by as much |
| Aggregates.SumRealShift | scripts/benchmarks/event_rollup_queries.py:29 | the same of real columns |
| Aggregates.CountIsPresent | scripts/benchmarks/event_rollup_queries.py:28-29 | COUNT of a column is the number of positions with a value |
| Aggregates.AverageIs | services/auth-policy/src/main/kotlin/kr/co/a4ai/gcssaker/authpolicy/infrastructure/persistence/operations/OperationalEventSql.kt:20-22 | AVG is NULL exactly without values, and otherwise times their number gives their sum |
| EventRollup.MetricsEqual | scripts/benchmarks/event_rollup_queries.py:12-18 | the metrics row from the rollup is the raw one, NULLs and empty inputs included |
| EventRollup.BucketsEqual | scripts/benchmarks/event_rollup_queries.py:19-23 | the minute buckets from the rollup are the raw minute buckets |
| EventRollup.PairSound | scripts/benchmarks/event_rollup_queries.py:83-98 | whatever query the pair accepts, any rollup of the events gives the raw metrics and admits the raw bucket lists under the 1440 cut |
| EventRollup.EligibleExact | scripts/benchmarks/event_rollup_queries.py:49-58 | a non-reversed window is eligible if and only if it never makes a rollup answer differ from the raw one |
| EventRollup.SeparatingEvent | scripts/benchmarks/operational_rollup_benchmark.py:110-115 | an instant that the two filters treat differently gives a one-event table with different answers |
| RollupAnswers.MetricsDescribe | scripts/benchmarks/event_rollup_queries.py:12-18 | the raw metrics, and those of every accepted query from any rollup, give the number, connections, least, greatest and mean values of exactly the wanted events |
| RollupAnswers.BucketRows | scripts/benchmarks/event_rollup_queries.py:19-23 | every bucket row describes exactly the wanted events of its minute |
| RollupAnswers.BucketsAre | services/auth-policy/src/main/kotlin/kr/co/a4ai/gcssaker/authpolicy/infrastructure/persistence/operations/OperationalEventSql.kt:82-93 | every bucket list ascends and holds the earliest 1440 minutes with wanted events, or all of them |
| RollupAnswers.OperatorWantsOwnGroup | services/auth-policy/src/main/kotlin/kr/co/a4ai/gcssaker/authpolicy/infrastructure/persistence/operations/OperationalEventSql.kt:24-27 | a role that is neither global nor hierarchical gets the own group only |
| RollupAnswers.PairExact | scripts/benchmarks/event_rollup_queries.py:83-94 | a query is answered exactly without a window, or with one that begins with a minute and ends with the last microsecond of one |
| RollupAnswers.WindowOrder | scripts/benchmarks/event_rollup_queries.py:49-53 | a window is refused exactly when it ends before it starts |
| RollupFixture.BuildViewMaterializes | scripts/benchmarks/event_rollup_fixture.py:49-53 | creating the view yields one row per occupied group and minute with that group's aggregates |
| RollupAnswers.RowStores | scripts/benchmarks/event_rollup_queries.py:24-30 | every row of the view stores number, sums, counts, least and greatest values of exactly the events of its group and minute |
| RollupFixture.RunConsistent | scripts/benchmarks/event_rollup_fixture.py:13-16 | every run keeps ids unique, appends only, and keeps the view the rollup of an earlier state of the table |
| RollupFixture.ViewIsLastRefresh | scripts/benchmarks/event_rollup_fixture.py:66-70 | after any run the view is the materialization of the events as they were at the last refresh |
| RollupFixture.ViewWithoutRefresh | scripts/benchmarks/operational_rollup_benchmark.py:145-159 | appends and closure changes alone never change the view |
| RollupFixture.FreshIffNothingInserted | scripts/benchmarks/operational_rollup_benchmark.py:118-131 | all accepted rollup answers are right exactly when no event was inserted since the refresh |
| RollupFixture.FreshGives | scripts/benchmarks/operational_rollup_benchmark.py:129-136 | then every accepted query, metrics and buckets, gets the raw answers |
| RollupFixture.FreshnessStep | scripts/benchmarks/operational_rollup_benchmark.py:118-159 | only a real insertion makes the view stale, a refresh always restores it, duplicates and closure changes never matter |
| RollupFixture.InsertsMeans | scripts/benchmarks/event_rollup_fixture.py:14-16 | an append inserts exactly when no event has its id, and nothing else changes the table |
| RollupFixture.FreshRun | scripts/benchmarks/operational_rollup_benchmark.py:118-159 | for any run from any consistent database all answers are right at the end exactly when nothing was inserted since its last refresh, or, without one, when they were right before and nothing was inserted |
| RollupFixture.Fixture.constructor | scripts/benchmarks/event_rollup_fixture.py:19-54 | the initialized database is consistent and its view is built from the seeded events |
| RollupFixture.Fixture.AppendEvent | scripts/benchmarks/event_rollup_fixture.py:14-16 | inserts a new id at the end and reports one row; a duplicate id changes nothing and reports none |
| RollupFixture.Fixture.RefreshRollup | scripts/benchmarks/event_rollup_fixture.py:66-70 | the view is rebuilt from the current events and all accepted answers are right again |
| RollupFixture.Fixture.Execute | scripts/benchmarks/operational_rollup_benchmark.py:118-159 | a mutable run of any operations ends in the state the run semantics gives, invariant kept |
| SessionQueries.PositionOne | scripts/benchmarks/event_query_candidates.py:32 | ROW_NUMBER is 1 for the newest event of a session and for no other |
| SessionQueries.HeadIsNewest | scripts/benchmarks/event_query_candidates.py:40-45 | in any admissible session order the row DISTINCT ON keeps is the session's newest event |
| SessionQueries.WindowIsRanked | scripts/benchmarks/event_query_candidates.py:30-47 | the window query's rows before the cut are the ranked query's rows, each once |
| SessionQueries.CurrentIsRanked | services/auth-policy/src/main/kotlin/kr/co/a4ai/gcssaker/authpolicy/infrastructure/persistence/operations/OperationalEventSql.kt:69-81 | the ARRAY_AGG row of a session is its ranked row, NULL keys and metrics included |
| SessionQueries.QueriesAgree | scripts/benchmarks/event_query_candidates.py:14-47 | for every table with unique ids the three formulations admit exactly the same answers |
| SessionQueries.CutsDifferOnlyInTies | scripts/benchmarks/event_query_candidates.py:38-47 | two answers of any formulations list the same instants and share every session newer than the last one kept |
| SessionAnswers.RowShows | services/auth-policy/src/main/kotlin/kr/co/a4ai/gcssaker/authpolicy/infrastructure/persistence/operations/OperationalEventSql.kt:69-81 | a row shows the instant and paths of its session's last event, ties broken by the greatest id, and number and means over exactly its events |
| SessionAnswers.LeftOutIsOlder | scripts/benchmarks/event_query_candidates.py:38-47 | a session is left out only when 500 are listed, none of which it is newer than |
| SessionAnswers.SessionsAre | scripts/benchmarks/event_query_candidates.py:30-47 | every answer of any formulation lists distinct sessions newest first, 500 or all, each by its last event |
| TelemetryKeyset.SeekIsOffset | scripts/benchmarks/telemetry_keyset_benchmark.py:46-49 | skipping as many rows as lie up to a position is seeking past that position, for every table and limit |
| TelemetryKeyset.DeviceOrder | scripts/benchmarks/telemetry_keyset_benchmark.py:84 | below 10^8 the text order of the padded ids is numeric order, and SQL and Python padding agree |
| TelemetryKeyset.SeedKeysUnique | scripts/benchmarks/telemetry_keyset_benchmark.py:80-87 | the seeded ids are distinct if and only if there are fewer than 10^8 of them |
| TelemetryKeyset.OperatorSeesOwnGroup | scripts/benchmarks/telemetry_keyset_benchmark.py:55-56 | the fixture's scope parameters show the rows of the own group only, whatever the closure holds |
| TelemetryKeyset.PositionSkips | scripts/benchmarks/telemetry_keyset_benchmark.py:46-47 | exactly as many visible devices lie up to the computed position as the OFFSET skips |
| TelemetryKeyset.PagesEqual | scripts/benchmarks/telemetry_keyset_benchmark.py:41-58 | on every seeded table below 10^8 rows the seek page is the OFFSET page |
| PageAnswers.SkipsThreeQuarters | scripts/benchmarks/telemetry_keyset_benchmark.py:46-47 | the OFFSET skips three quarters, rounded down, of the rows the operator sees, which are a fifth of the table |
| TelemetryKeyset.TelemetryLatest.Seed | scripts/benchmarks/telemetry_keyset_benchmark.py:80-87 | seeding in batches of a thousand inserts the devices 1 to the row count, each once, in order |
| Base128.WriteVarint | backend/scripts/protobuf_contract_benchmark.py:148-152 | appends the canonical code of a natural number; a negative number fails and leaves the payload alone |
| Base128.ReadVarint | backend/scripts/protobuf_contract_benchmark.py:155-164 | the shift-and-or loop computes the value and cursor of the recursive code, and fails exactly when the payload ends inside it |
| Base128.VarintRoundTrip | backend/scripts/protobuf_contract_benchmark.py:148-164 | a written number reads back with its exact length whatever follows |
| Base128.ReadBack | backend/scripts/protobuf_contract_benchmark.py:155-164 | the same at any cursor inside a payload |
| Base128.VarintPrefixFree | backend/scripts/protobuf_contract_benchmark.py:148-152 | no code is a prefix of another |
| Base128.VarintLength | backend/scripts/protobuf_contract_benchmark.py:148-152 | a code takes max(1, ceil(bits / 7)) bytes |
| Base128.CanonicalCode | backend/scripts/protobuf_contract_benchmark.py:155-164 | a readable code is the written one if and only if it has no padding digit |
| Base128.CodeBytes | backend/scripts/protobuf_contract_benchmark.py:148-152 | byte k holds the k-th seven bits, least first, with the high bit set on all but the last |
| ProtoTelemetry.WriteString | backend/scripts/protobuf_contract_benchmark.py:131-135 | appends one text field and nothing else |
| ProtoTelemetry.WriteDouble | backend/scripts/protobuf_contract_benchmark.py:138-140 | appends one eight-byte field and nothing else |
| ProtoTelemetry.WriteVarintField | backend/scripts/protobuf_contract_benchmark.py:143-145 | appends one integer field, and fails exactly for a negative value |
| ProtoTelemetry.Encode | backend/scripts/protobuf_contract_benchmark.py:87-105 | writes the fields in order, and fails exactly when one of the four integers is negative |
| ProtoTelemetry.Decode | backend/scripts/protobuf_contract_benchmark.py:108-128 | the cursor loop computes the grouped field values of the payload, or the first error |
| ProtoTelemetry.FieldRoundTrip | backend/scripts/protobuf_contract_benchmark.py:112-127 | a written field reads back with its exact length whatever follows |
| ProtoTelemetry.FieldsRoundTrip | backend/scripts/protobuf_contract_benchmark.py:108-128 | every written list of fields reads back field by field and leaves no string cut |
| ProtoTelemetry.MessageRoundTrip | backend/scripts/protobuf_contract_benchmark.py:87-128 | an encoded message decodes to one value per field 1 to 14, its stream ids in order under 15, and nothing else |
| ProtoTelemetry.DecodedLayout | backend/scripts/protobuf_contract_benchmark.py:87-128 | every value of the message is found under its own field number |
| ProtoTelemetry.DecodeConcat | backend/scripts/protobuf_contract_benchmark.py:111-128 | behind a payload without a cut string decoding continues as if from the start |
| ProtoTelemetry.DecodedConcat | backend/scripts/protobuf_contract_benchmark.py:111-128 | the map of a concatenation appends the two maps' lists number by number, or carries the second payload's error |
| ProtoTelemetry.CompositionExact | backend/scripts/protobuf_contract_benchmark.py:121-124 | a payload decodes and composes with every continuation if and only if no string in it is cut short |
| ProtoTelemetry.CutStringDecodes | backend/scripts/protobuf_contract_benchmark.py:121-124 | a three-byte payload with a cut string decodes, and does not compose |
| ProtoTelemetry.FieldsInjective | backend/scripts/protobuf_contract_benchmark.py:87-105 | different field lists have different encodings |
| ProtoWire.WireFormat | backend/scripts/protobuf_contract_benchmark.py:131-145 | a key is eight times the field number plus 0, 1 or 2, and a text carries its length |
| ProtoWire.KnownFields | backend/scripts/protobuf_contract_benchmark.py:131-152 | three fields byte by byte |
| ProtoWire.UnknownWireType | backend/scripts/protobuf_contract_benchmark.py:125-126 | wire types 3 to 7 are refused by number |
| ProtoWire.BadText | backend/scripts/protobuf_contract_benchmark.py:121-124 | a string that is not UTF-8 is refused |
| Utf8.ValidExactly | backend/scripts/protobuf_contract_benchmark.py:121-124 | what is accepted as a string is exactly the UTF-8 encodings of Unicode scalar values (RFC 3629) |
| ProtoTruncation.Utf8Boundary | backend/scripts/protobuf_contract_benchmark.py:123 | a prefix of valid UTF-8 is valid exactly when it ends between two characters |
| ProtoTruncation.CutFieldReads | backend/scripts/protobuf_contract_benchmark.py:111-127 | one field cut after any byte: nothing, a shortened string, or the exact error |
| ProtoTruncation.TruncationExact | backend/scripts/protobuf_contract_benchmark.py:108-128 | every cut of a written payload falls in one field, and reading gives the fields before it and what is read of the cut one |
| ProtoTruncation.TruncatedMessage | backend/scripts/protobuf_contract_benchmark.py:87-128 | a truncated message decodes exactly when the cut falls between two fields or between two characters of a string behind its length, and to what lies before the cut |
| Sockets.Socket.Recv | scripts/benchmarks/docker_mqtt_netem_fixture.py:35-36 | a receive takes some prefix of at most the asked size, empty only at the end of the stream or for size zero |
| Mqtt.Remaining | scripts/benchmarks/docker_mqtt_netem_fixture.py:25-29 | writes the same bytes as the varint writer |
| Mqtt.Exact | scripts/benchmarks/docker_mqtt_netem_fixture.py:32-38 | under every chunking takes exactly the next bytes, and fails exactly when there are too few |
| Mqtt.ReadLength | scripts/benchmarks/docker_mqtt_netem_fixture.py:41-44 | the digit loop reads the length code at the front of the stream and nothing behind it |
| Mqtt.Packet | scripts/benchmarks/docker_mqtt_netem_fixture.py:39-45 | under every chunking returns the first packet of the stream and leaves what follows, or fails exactly when it is incomplete |
| Mqtt.FrameRoundTrip | scripts/benchmarks/docker_mqtt_netem_fixture.py:39-49 | a framed body of any length is recovered and the suffix is untouched (section 2.2.3 of MQTT 3.1.1) |
| Mqtt.FramesRoundTrip | scripts/benchmarks/docker_mqtt_netem_fixture.py:39-49 | a stream of framed packets reads back as those packets |
| Mqtt.FourBytes | scripts/benchmarks/docker_mqtt_netem_fixture.py:25-29 | the length field fits four bytes exactly up to 268,435,455 |
| MqttTruncation.CutFrame | scripts/benchmarks/docker_mqtt_netem_fixture.py:39-45 | a packet cut anywhere before its end is not read |
| MqttTruncation.CutFrames | scripts/benchmarks/docker_mqtt_netem_fixture.py:39-45 | from a cut stream of packets the reader gets exactly the packets before the cut, and then fails |
| Resp.EncodeCommand | scripts/smoke/dragonfly_profile_smoke.py:35-42 | collecting and joining the pieces gives the RESP array of bulk strings |
| Resp.ReadLine | scripts/smoke/dragonfly_profile_smoke.py:45-52 | returns the bytes before the first CRLF and leaves what follows it, or fails exactly when there is none |
| Resp.ReadBulk | scripts/smoke/dragonfly_profile_smoke.py:66-73 | under every chunking takes the payload and its two closing bytes, and stalls exactly when the stream holds fewer |
| Resp.ReadItems | scripts/smoke/dragonfly_profile_smoke.py:74-75 | reads that many replies in order, or stops behind the first failure |
| Resp.ReadResp | scripts/smoke/dragonfly_profile_smoke.py:55-76 | under every chunking returns the reply at the front of the stream or its exact failure, and in both cases leaves exactly the bytes behind what it took |
| Resp.IntOfNumeral | scripts/smoke/dragonfly_profile_smoke.py:64-75 | Python's int() reads every printed size back |
| Resp.CommandRoundTrip | scripts/smoke/dragonfly_profile_smoke.py:35-76 | an encoded command reads back as its parts, CRLF inside parts and empty parts included, leaving exactly the suffix |
| Resp.Loopback | scripts/smoke/dragonfly_profile_smoke.py:35-76 | writing a command and reading it from a socket gives the parts and leaves the suffix, under every chunking |
| RespReplies.SimpleString | scripts/smoke/dragonfly_profile_smoke.py:60-61 | '+' gives the line as text |
| RespReplies.ErrorReply | scripts/smoke/dragonfly_profile_smoke.py:62-63 | '-' raises the line as the server's error |
| RespReplies.IntegerReply | scripts/smoke/dragonfly_profile_smoke.py:64-65 | ':' gives the number |
| RespReplies.NegativeReply | scripts/smoke/dragonfly_profile_smoke.py:64-65 | a minus sign gives the negative number |
| RespReplies.NilReply | scripts/smoke/dragonfly_profile_smoke.py:67-69 | '$' with a negative size gives no value and reads no payload |
| RespReplies.BulkReply | scripts/smoke/dragonfly_profile_smoke.py:70-73 | '$' gives exactly the announced bytes as text and skips two more, whatever they are |
| RespReplies.EmptyArray | scripts/smoke/dragonfly_profile_smoke.py:75 | '*' with a negative count gives an empty array |
| RespReplies.ArrayReply | scripts/smoke/dragonfly_profile_smoke.py:74-75 | '*' gives the announced number of replies, each read behind the one before |
| RespReplies.NumberDue | scripts/smoke/dragonfly_profile_smoke.py:64-75 | a line that int() does not read is refused where a number is due |
| RespReplies.UnknownReply | scripts/smoke/dragonfly_profile_smoke.py:76 | any other first byte is refused by name |
| RespReplies.IntSpelled | scripts/smoke/dragonfly_profile_smoke.py:65-75 | int() accepts space around an optional sign and digits with leading zeros |
| RespReplies.DigitsExactly | scripts/smoke/dragonfly_profile_smoke.py:65-75 | between them int() reads exactly digits with single underscores inside |
| RespReplies.PingOnTheWire | scripts/smoke/dragonfly_profile_smoke.py:35-42 | a command byte by byte |
| RespReplies.OkIsText | scripts/smoke/dragonfly_profile_smoke.py:60-61 | the reply "+OK" is the text OK |
| RespStreams.ReplyLocal | scripts/smoke/dragonfly_profile_smoke.py:55-76 | a reply that the stream does not cut short is read the same, and to the same byte, whatever follows it |
| RespStreams.RepliesLocal | scripts/smoke/dragonfly_profile_smoke.py:74-75 | the same for the items of an array |
| RespStreams.RunsOutExactly | scripts/smoke/dragonfly_profile_smoke.py:55-76 | for every stream: stalled exactly when the reader reaches a bulk string cut behind its header, closed exactly when it reaches a reply whose first line is cut, nested arrays included |
| RespTruncation.BulkStalls | scripts/smoke/dragonfly_profile_smoke.py:66-73 | behind any header line that int() reads as a size the reader stalls exactly when the stream ends before the payload and two closing bytes |
| RespTruncation.StalledStream | scripts/smoke/dragonfly_profile_smoke.py:71-72 | six bytes on which the reader never returns |
| RespTruncation.TruncatedCommand | scripts/smoke/dragonfly_profile_smoke.py:35-76 | a command cut anywhere is never read as a reply: it stalls exactly when the cut lies behind the header line of a bulk string and before its end, and is reported closed otherwise |
| AuditChain.VerifyRecords | scripts/ops/audit_chain_verify.py:24-36 | accepts exactly the linked logs, and otherwise reports the first failing record's first failing test |
| AuditChain.SamePayload | scripts/ops/audit_chain_verify.py:15-35 | equal hashed payloads put two records at the same position with the same content and predecessor |
| AuditChain.HistoryAgrees | scripts/ops/audit_chain_verify.py:24-36 | one equal hash at a position makes the whole history up to it equal, or shows a collision |
| AuditChain.HeadCommits | scripts/ops/audit_chain_verify.py:15-36 | two non-empty accepted logs with the same last recordHash are identical, or show a collision |
| AuditChain.ExtendsExactly | scripts/ops/audit_chain_verify.py:24-36 | a log with one more record is accepted exactly when the log is and the record has the next number, the last hash, 64 zeros at first, and its own digest |
| AuditChain.FailsBy | scripts/ops/audit_chain_verify.py:28-33 | a record fails by its number, predecessor or digest exactly when that is its first failing test |
| AuditChain.FailureIs | scripts/ops/audit_chain_verify.py:27-33 | the reported failure is that of the record behind the longest accepted beginning |
| AuditChain.InjectiveHead | scripts/ops/audit_chain_verify.py:15-36 | with an injective digest the last hash identifies the whole log |
| AuditAnchors.NextExact | scripts/ops/audit_anchor_verify.py:106-134 | an anchor passes into a state exactly when number, predecessor, count, time, commit, digest and signature all fit |
| AuditAnchors.VerifyPaths | scripts/ops/audit_anchor_verify.py:97-100 | the loop reaches the state after the last anchor or the first failure |
| AuditAnchors.VerifyDirectory | scripts/ops/audit_anchor_verify.py:83-103 | returns the verdict that AcceptanceExact and the laws of AnchorVerdicts characterize, failures included |
| AuditAnchors.AcceptanceExact | scripts/ops/audit_anchor_verify.py:83-140 | a directory is accepted with its count if and only if its sorted anchors form a signed chain numbered from 1 that the checkpoint closes |
| AuditAnchors.ListingOrderIrrelevant | scripts/ops/audit_anchor_verify.py:91-94 | the verdict, failures included, does not depend on the listing order |
| AuditAnchors.NamesSortNumerically | scripts/ops/audit_anchor_verify.py:18 | sorting twenty-digit names as text is sorting them as numbers |
| AuditAnchors.ChainOf | scripts/ops/audit_anchor_verify.py:99-100 | an accepted run goes through a chain of states with names numbered from 1 |
| AuditAnchors.AcceptedIsChain | scripts/ops/audit_anchor_verify.py:83-103 | an accepted directory runs through such a chain, closed by its checkpoint |
| AuditAnchors.AcceptedShape | scripts/ops/audit_anchor_verify.py:106-134 | in an accepted directory record counts and times never decrease between any two anchors |
| AuditAnchors.LastDigestCommits | scripts/ops/audit_anchor_verify.py:56-70 | the last digest fixes the number of anchors and every earlier signed payload, or shows a collision |
| AuditAnchors.PayloadDeterminesFields | scripts/ops/audit_anchor_verify.py:20-27 | for arbitrary anchors without separators in the fields the joined payload fixes the printed text of all six |
| AnchorVerdicts.NameIs | scripts/ops/audit_anchor_verify.py:18 | an anchor is named "anchor-", twenty digits and ".json", and numbered by these digits |
| AnchorVerdicts.NamesDecide | scripts/ops/audit_anchor_verify.py:91-96 | a directory is refused for its names exactly when one only looks like an anchor's, and as empty exactly when none is one |
| AnchorVerdicts.CheckpointExact | scripts/ops/audit_anchor_verify.py:101-102 | a checkpoint accepts an acceptable directory exactly when it names its number of anchors and the digest its last anchor carries, and else is what refuses it |
| AnchorVerdicts.CheckpointCommits | scripts/ops/audit_anchor_verify.py:137-140 | two directories accepted under one checkpoint have the same number of anchors and the same payload at every position, or a collision shows |
| AnchorVerdicts.InjectiveCheckpoint | scripts/ops/audit_anchor_verify.py:137-140 | with an injective digest one checkpoint identifies the number of anchors and every payload |
| AnchorVerdicts.NextRefuses | scripts/ops/audit_anchor_verify.py:112-124 | an anchor is refused for its name, number, predecessor, record count or time exactly when that is its first failing test |
| AnchorVerdicts.NextRefusesTime | scripts/ops/audit_anchor_verify.py:125-128 | behind an accepted time, an earlier one, an incomparable one and another commit are refused as such |
| AnchorVerdicts.RecordRefuses | scripts/ops/audit_anchor_verify.py:63-70 | a record is refused for its digest or its signature exactly when that is its first failing test |
| AnchorVerdicts.RecordRaises | scripts/ops/audit_anchor_verify.py:63-70 | comparing a digest or signature with text beyond ASCII raises instead, exactly then |
| AnchorVerdicts.ShownMeans | scripts/ops/audit_anchor_verify.py:58 | how each kind of field is written into the payload |
| AnchorVerdicts.MissingField | scripts/ops/audit_anchor_verify.py:56-60 | the missing field that is named is the first in payload order |
| AnchorFields.StepFixesFields | scripts/ops/audit_anchor_verify.py:56-70 | a sufficient condition for one pair: passing anchors with one payload whose times and unprescribed commits hold no separator agree in every field |
| AnchorFields.LastDigestFixesFields | scripts/ops/audit_anchor_verify.py:83-134 | so one last digest fixes the fields of every such pair of earlier anchors, or a collision shows |
| AnchorFields.SharedByTime | scripts/ops/audit_anchor_verify.py:56-70 | without a prescribed commit, two passing anchors share one signed payload when an accepted time continues another behind the separator |
| AnchorFields.SharedByCommit | scripts/ops/audit_anchor_verify.py:56-70 | without a prescribed commit, two passing anchors share one signed payload whatever times are accepted |
| AnchorPayloads.PrescribedExact | scripts/ops/audit_anchor_verify.py:106-134 | with a prescribed commit the payload fixes every field of passing anchors if and only if no accepted time ends in another accepted time behind a record count and a separator |
| AnchorPayloads.UnprescribedExact | scripts/ops/audit_anchor_verify.py:106-134 | without a prescribed commit the payload fixes the fields if and only if no time is accepted, so that no anchor passes |
| AnchorPayloads.SharedByShift | scripts/ops/audit_anchor_verify.py:56-70 | two passing first anchors, of one prescribed commit too, share one payload when such a time exists |
| AnchorPayloads.LastDigestFixesAll | scripts/ops/audit_anchor_verify.py:83-134 | where payloads fix fields one last digest fixes the fields of every anchor of the directory, or a collision shows |
| AuditRecovery.VerifyRecovery | scripts/ops/verify_audit_recovery.py:14-27 | passes exactly when both logs are accepted and equal and the signed anchor binds count and head; otherwise reports, in this order, the source log, the restored log, their difference, the binding or the signature, with its own cause; equality of floats, lists and objects may be anything |
| AuditRecovery.EqualLogsIdentical | scripts/ops/verify_audit_recovery.py:19-20 | logs that compare equal in Python are the same records, or show a collision, whatever equality says of floats, lists and objects |
| AuditRecovery.AnchorBindsOneLog | scripts/ops/verify_audit_recovery.py:22-25 | the passing log is the only accepted log its anchor binds, or a collision shows |
| AuditRecovery.HeadBindsOneLog | scripts/ops/verify_audit_recovery.py:23-25 | a non-genesis head alone binds one log |
| AuditRecovery.SameRecordsMeans | scripts/ops/verify_audit_recovery.py:19 | two logs compare equal exactly when lengths, keys and values agree, True and False as 1 and 0 |
| AuditRecovery.IntactRestore | scripts/ops/verify_audit_recovery.py:19-20 | a log without opaque values is never refused for differing from itself |
| AuditRecovery.BindsMeans | scripts/ops/verify_audit_recovery.py:22-25 | an anchor binds a log exactly when it names its length and its last record's hash |
| AuditRecovery.InjectiveRecovery | scripts/ops/verify_audit_recovery.py:14-27 | with an injective digest the passing log is the source export and the only accepted log its anchor can bind |
| IdentityBackfill.FillRow | scripts/ops/telemetry_identity_backfill.py:26-27 | one fresh id closes exactly one open row and keeps ids unique |
| IdentityBackfill.PendingMeans | scripts/ops/telemetry_identity_backfill.py:29 | nothing is pending exactly when every row has an id |
| IdentityBackfill.FilledCount | scripts/ops/telemetry_identity_backfill.py:76-79 | the rows that got an id are as many as fewer are pending |
| IdentityBackfill.ValidateMeans | scripts/ops/telemetry_backfill_safety.py:57-63 | 1 to 10,000 rows a batch, 1 to 1,000 batches, and finalizing only in a run |
| IdentityBackfill.History.OtherSessions | scripts/ops/telemetry_identity_backfill.py:62 | other sessions' insertions never add a pending row nor touch an existing one |
| IdentityBackfill.History.Batch | scripts/ops/telemetry_identity_backfill.py:21-28 | fills as many open rows as the limit allows, never a locked one, with new ids, reports their number, and below the limit leaves an id on every row others do not hold |
| IdentityBackfill.History.Batches | scripts/ops/telemetry_identity_backfill.py:73-81 | the batches report the number of rows that got an id and either use the whole budget or leave only rows some batch found locked; without locks every row then has an id |
| IdentityBackfill.History.PendingIdentifiers | scripts/ops/telemetry_identity_backfill.py:46-52 | true exactly when some row has no id |
| IdentityBackfill.History.FinalizePrimaryKey | scripts/ops/telemetry_identity_backfill.py:55-66 | adds the key only when every row has an id, keeps an existing one, and names the exact refusal otherwise |
| IdentityBackfill.History.Backfill | scripts/ops/telemetry_identity_backfill.py:69-94 | one invocation changes no reading and no present id, reports exactly how many rows got one, whether some row still has none and whether the key stands, and gives every row an id when nothing is locked and the budget suffices |
| IdentityBackfill.History.Migrate | scripts/ops/telemetry_identity_backfill.py:69-94 | any sequence of invocations among any other sessions changes no reading and no present id and never has the key over a row without one |
| ComposeLifecycle.ReplayMeansPrefix | scripts/ops/compose_lifecycle.py:91-100 | every log the protocol allows starts a prefix of the phases and confirmed all but possibly the last |
| ComposeLifecycle.PhaseOrder | scripts/ops/compose_lifecycle.py:14-25 | the ten services, their order and their expected states |
| ComposeLifecycle.StartsInOrder | scripts/ops/compose_lifecycle.py:91-100 | a service is told to start only when all earlier phases have been seen in their expected states |
| ComposeLifecycle.WaitMeans | scripts/ops/compose_lifecycle.py:125-131 | a wait succeeds on the expected state, fails on "unhealthy", "exited" or "dead", and goes on or times out on any other |
| ComposeLifecycle.CeilingMeans | scripts/ops/compose_lifecycle.py:113-130 | the poll bound is the least integer not below wait / poll |
| ComposeLifecycle.ClosedMeans | scripts/ops/compose_lifecycle.py:26 | a running set is prefix-closed exactly when the running services are those of the first n phases |
| ComposeLifecycle.Lifecycle.Wait | scripts/ops/compose_lifecycle.py:113-131 | polls at most ceil(wait / poll) times, ends on the first decisive state, and times out only after the full wait |
| ComposeLifecycle.Lifecycle.StartPhase | scripts/ops/compose_lifecycle.py:93-100 | confirms its phase, or stops with the service absent, unstarted or unconfirmed |
| ComposeLifecycle.Lifecycle.RunPhases | scripts/ops/compose_lifecycle.py:91-100 | what is done is always a run of the start protocol |
| ComposeLifecycle.Lifecycle.StartAll | scripts/ops/compose_lifecycle.py:14-25 | on every exit the started services are a prefix of the phases and each but possibly the last was seen in its expected state |
| ComposeLifecycle.Lifecycle.StopAll | scripts/ops/compose_lifecycle.py:102-108 | a prefix-closed running set stays prefix-closed at every step, and success leaves no managed service running |
| ComposeLifecycle.StopKeepsPrefix | scripts/ops/compose_lifecycle.py:26 | stopping the last running phase keeps the running set prefix-closed |
| StreamPaths.PathRoundTrip | backend/model/stream_model.py:24-30 | every parsed value prints to a path that parses to it |
| StreamPaths.IdRoundTrip | backend/model/stream_model.py:99-109 | every parsed value prints to an id that parses to it |
| StreamPaths.AcceptedPath | backend/model/stream_model.py:48-96 | every accepted path prints back to itself from a well-formed value |
| StreamPaths.AcceptedId | backend/model/stream_model.py:99-109 | every accepted id prints back to itself from a well-formed value |
| StreamPaths.AcceptanceIsPrinting | backend/model/stream_model.py:48-141 | the accepted texts are exactly the printed forms of well-formed values, in both forms |
| StreamPaths.FormsInjective | backend/model/stream_model.py:24-34 | distinct parsed values have distinct paths and distinct ids |
| StreamPaths.ConversionsInverse | backend/model/stream_model.py:112-117 | the two conversions undo each other wherever they are defined |
| StreamGrammar.SegmentMeans | backend/model/stream_model.py:8 | a segment is 1 to 64 letters, digits, underscores and hyphens, the first a letter or digit |
| StreamGrammar.DateMeans | backend/model/stream_model.py:134-141 | a date segment is the padded text of a day of the Gregorian calendar, leap years included |
| StreamGrammar.PathShape | backend/model/stream_model.py:53-65 | a path is refused as empty, for an edge slash, a backslash or an empty segment exactly in these cases, in this order |
| StreamGrammar.PartsRefuse | backend/model/stream_model.py:68-96 | an unknown prefix is refused before a wrong number of segments |
| StreamGrammar.SegmentsRefuse | backend/model/stream_model.py:125-131 | names are accepted exactly when all are segments, and a traversal is reported when it is the first that is not |
| StreamGrammar.ArchiveDate | backend/model/stream_model.py:91-96 | an archive path with good names is refused for its date exactly when that is no calendar day |
| StreamGrammar.IdShape | backend/model/stream_model.py:99-109 | an id is refused for its shape exactly in these cases, in this order, and else read as a path |
| StreamGrammar.PrintedForms | backend/model/stream_model.py:24-30 | how each kind of path is written |
| MavenSbom.UnquoteQuote | scripts/reports/reconcile_maven_sbom.py:28-32 | percent-decoding undoes percent-encoding for every byte string |
| MavenSbom.PurlRoundTrip | scripts/reports/reconcile_maven_sbom.py:59-67 | parsing a printed coordinate gives it back, whatever bytes its parts hold |
| MavenSbom.PurlInjective | scripts/reports/reconcile_maven_sbom.py:28-32 | no two coordinates share a package URL |
| MavenSbom.BuildIndex | scripts/reports/reconcile_maven_sbom.py:94-96 | the index lists for every name and version the manifest's coordinates in order |
| MavenSbom.CanonicalSet | scripts/reports/reconcile_maven_sbom.py:93 | the set the loop fills holds exactly the URLs of the manifest |
| MavenSbom.Reconcile | scripts/reports/reconcile_maven_sbom.py:86-118 | the updating loop yields the package-by-package result and changes, or the first failure |
| MavenSbom.ReplacementExact | scripts/reports/reconcile_maven_sbom.py:104-113 | a locator is replaced exactly when it parses, is not canonical and one coordinate alone fits; it is ambiguous exactly when several fit |
| MavenSbom.ReconcileKeepsPackages | scripts/reports/reconcile_maven_sbom.py:98-118 | package count and order stay, and only the locator of a Maven reference changes, keeping name and version |
| MavenSbom.ReconcileResolves | scripts/reports/reconcile_maven_sbom.py:86-118 | afterwards every Maven URL is canonical, unparseable or of a name and version outside the manifest |
| MavenSbom.ChangesAreDifferences | scripts/reports/reconcile_maven_sbom.py:97-118 | the change list is the difference between the document and its result |
| MavenSbom.PackageSettled | scripts/reports/reconcile_maven_sbom.py:98-117 | a reconciled package is left alone |
| MavenSbom.ReconcileIdempotent | scripts/reports/reconcile_maven_sbom.py:86-118 | reconciling again changes nothing and reports nothing |
| MavenSbom.NoChangeIsIdentity | scripts/reports/reconcile_maven_sbom.py:97-118 | the change list is empty exactly when the document is returned as it was |
| MavenOutcomes.ByteQuoted | scripts/reports/reconcile_maven_sbom.py:28-32 | unreserved bytes print as themselves, all others as % and two upper-case hexadecimal digits |
| MavenOutcomes.PlainPurl | scripts/reports/reconcile_maven_sbom.py:32 | a coordinate of plain bytes prints as pkg:maven/group/name@version |
| MavenOutcomes.PurlMeans | scripts/reports/reconcile_maven_sbom.py:59-64 | text is a Maven URL exactly when behind the prefix it has an @, and a slash before the last one |
| MavenOutcomes.QualifiersIgnored | scripts/reports/reconcile_maven_sbom.py:66 | qualifiers and a subpath behind the version are ignored |
| MavenOutcomes.DocumentPasses | scripts/reports/reconcile_maven_sbom.py:98-117 | a document is reconciled exactly when no package is malformed, has two Maven URLs or an ambiguous one |
| MavenOutcomes.DocumentFails | scripts/reports/reconcile_maven_sbom.py:98-110 | otherwise its failure is that of its first such package |
| MavenOutcomes.OthersKept | scripts/reports/reconcile_maven_sbom.py:101-103 | a package without a Maven URL is kept as it is |
| MavenOutcomes.Replaced | scripts/reports/reconcile_maven_sbom.py:104-117 | a Maven URL that is not canonical and fits one coordinate becomes that coordinate's, and the change says so |
| PlanWalk.PlanNodes | scripts/benchmarks/event_query_plan.py:99-111 | returns the walk of a well-formed tree of at most 999 nodes, and otherwise exactly the first fault met in a thousand turns, or the depth error |
| PlanWalk.OutcomeShape | scripts/benchmarks/event_query_plan.py:99-111 | the bounded walk succeeds exactly for well-formed trees of at most 999 nodes and fails by depth alone on larger ones |
| PlanWalk.WellFormedWalk | scripts/benchmarks/event_query_plan.py:104-110 | a tree is well formed exactly when its walk meets no fault |
| PlanWalk.WalkVisitsEachOnce | scripts/benchmarks/event_query_plan.py:105-110 | the walk is a rearrangement of the tree's nodes, each once |
| PlanWalk.WalkSpills | scripts/benchmarks/event_query_plan.py:88-89 | counting along the walk is counting over the tree |
| PlanWalk.SpillsAre | scripts/benchmarks/event_query_plan.py:88-89 | the count is the number of nodes whose sort space is "Disk" |
| PlanWalk.FaultMeans | scripts/benchmarks/event_query_plan.py:107-110 | a node is at fault when its children are no list, or else when one of them is no object |
| PlanWalk.SortSpills | scripts/benchmarks/event_query_plan.py:88-89 | returns the number of spilling sorts in the whole tree, or the failure of the walk |

## Left out

- Subprocess, Docker, psycopg2, urllib, file and command-line plumbing, evidence gates and reports, API routes and the dashboard: no logic of their own.
- The Kotlin and Go services beyond the operational read SQL they own.
- Run-time measurements, plan timings and the `uuid_range_scan` pattern on plan text.
- Floating-point rounding and the 1e-12 tolerance of `values_equal`: aggregates are exact over reals and doubles in the codec are their eight bytes.
- Collations: text order is code-unit order, as in a C collation.
- SQL errors for a negative LIMIT, and the missing-timezone refusal of a rollup window: instants are already UTC.
- The WHERE clause shared by the session queries: they are compared on the rows it leaves.
- SHA-256, HMAC, canonical JSON and `fromisoformat`: parameters of the audit model.
- JSON floats, lists and objects in audit records: opaque values. Comparing two logs leaves their equality open, so NaN, which Python finds unequal to itself, and `[1]` against `[true]`, which it finds equal, are covered there; but a float equal to an integer is not accepted as a sequence number or record count.
- Unreadable or malformed JSON files, anchors that are not objects, and the key file's size and permission checks.
- The 4300-digit limit of Python's `int()` on RESP sizes and integers.
- Unicode digits, which Python's `\d` admits in a date before the calendar check refuses them: the model has one `BadDate` for both refusals.
- Socket timeouts, the MQTT connect and subscribe dialogue and its `field` helper, and a four-byte limit on the length field, which the reader does not enforce either.
- Percent-escapes that decode to invalid UTF-8: Python substitutes a replacement character, the model keeps the bytes.
- Loading of the dependency manifest, and document fields other than packages and their references.
- Backfill responses with impossible row counts, constraint validation statements, and deletes or updates by other sessions.
- Containers that start or die on their own during `stop`, and secret and PKI checks before `start`, which may pass or fail freely.
- The deployment target, project name and file checks of the lifecycle configuration: only its time bounds are modelled.
