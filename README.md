# Fail-safe BigQuery converters, modelled in Dafny

This project models the fail-safe conversion and routing logic of `BigQueryConverters`
(DataflowTemplates, `v2/common`). Records move between BigQuery table rows and JSON
strings. A conversion failure never drops a record. The record is wrapped in a
`FailsafeElement` that keeps its original payload. The element gets the exception's message
and stack trace, and goes to a dead-letter channel.

Modules:

- `Failsafe` (`failsafe.dfy`): the `FailsafeElement` carrier and its `of`, copy and setter
  operations. It also holds the exceptions a library call can throw (`Exception`, with a
  message that may be null, as in Java) and `Result`, the outcome of a possibly-failing call.
- `Channels` (`channels.dfy`): the two tagged outputs of a stage (`Outputs`), the routing
  decision for one element (`Routed`), and the generic fail-safe stage `RunStage`. The stage
  applies a per-element step to every element of its input channel. Channels are sequences.
- `BigQueryConverters` (`converters.dfy`):
  - `convertJsonToTableRow` and its error wrapping;
  - the DoFn of `FailsafeJsonToTableRow`;
  - `TableRowToFailsafeElementFn`, a class with its two counters;
  - the composer `TableRowToFailsafeJsonDocument`;
  - `FailsafeTableRowToFailsafeStringFn`.
- `BigQueryRead` (`read_big_query.dfy`): the validation in `ReadBigQuery.Builder.build` and the
  choice of read mode in `ReadBigQuery.expand`.

The library calls are arrow-typed fields of a `Library` value. They are Gson's `toJson`,
`TableRowJsonCoder`'s decode, `TableRow.toString` and `Throwables.getStackTraceAsString`.
The decoder and `toJson` may throw, so they return a `Result`. `TableRow.toString` and the
stack-trace rendering are total functions. In particular `element.getOriginalPayload().toString()`
(line 403), which no try block guards, is assumed not to throw. `Library` is a parameter of every
converter. The script
UDF stage is an opaque function from (script path, function name, input channel) to the two
output channels.

Behaviour of the code worth knowing:

- The code accepts both a table spec and a query; a set query then wins.
- In Java, `e.getMessage()` may be null, so a dead letter is only guaranteed a stack trace.
  Its error message is the exception's message, whatever that is.
- `build()` runs two `checkArgument`s. The second can never fail once the first has passed
  (`SecondCheckNeverFails`). So a missing table spec and query is always reported with the
  first message.
- `FailsafeElement.of(original, payload)` builds a new element. So
  `FailsafeTableRowToFailsafeStringFn` does not carry error fields over. Its outputs are
  always healthy.
- `Flatten` has no order. The model concatenates the UDF dead letters and then the wrap-stage
  dead letters, and states only multiset facts about the result.

## Model

| member | source | states |
|---|---|---|
| `Failsafe.Quarantine` | v2/common/src/main/java/com/google/cloud/teleport/v2/transforms/BigQueryConverters.java:156-158 | the failure annotation keeps the original payload and the payload, sets the error message to the exception's message and sets the stack trace |
| `Failsafe.FailsafeElement.SetErrorMessage` | v2/common/src/main/java/com/google/cloud/teleport/v2/transforms/BigQueryConverters.java:157 | (and line 384) replaces the error message with the given one (possibly null) and leaves the payloads and the stack trace unchanged |
| `Failsafe.FailsafeElement.SetStacktrace` | v2/common/src/main/java/com/google/cloud/teleport/v2/transforms/BigQueryConverters.java:158 | (and line 385) sets the stack trace and leaves the payloads and the error message unchanged |
| `Failsafe.Of` | v2/common/src/main/java/com/google/cloud/teleport/v2/transforms/BigQueryConverters.java:378-383 | a new element holds the given original payload and payload and has no error message and no stack trace |
| `Failsafe.Copy` | v2/common/src/main/java/com/google/cloud/teleport/v2/transforms/BigQueryConverters.java:156 | a copy of an element equals it in every field, error fields included |
| `Channels.Emit` | v2/common/src/main/java/com/google/cloud/teleport/v2/transforms/BigQueryConverters.java:152-158 | emitting on the success tag appends to the success channel only; emitting on the failure tag appends to the failure channel only |
| `BigQueryRead.CheckTableSpecOrQuery` | v2/common/src/main/java/com/google/cloud/teleport/v2/transforms/BigQueryConverters.java:240-244 | passes if and only if a table spec or a query is set; otherwise an IllegalArgumentException with the "no inputTableSpec" message |
| `BigQueryRead.CheckQueryOrTableSpec` | v2/common/src/main/java/com/google/cloud/teleport/v2/transforms/BigQueryConverters.java:246-250 | passes if and only if a query or a table spec is set; otherwise an IllegalArgumentException with the "no query" message |
| `Channels.Partition` | v2/common/src/main/java/com/google/cloud/teleport/v2/transforms/BigQueryConverters.java:141-162 | emitting routed elements onto the two tags yields as many outputs as there were routed elements |
| `Channels.PartitionSuccessCount` | v2/common/src/main/java/com/google/cloud/teleport/v2/transforms/BigQueryConverters.java:150-159 | a value occurs on the success channel exactly as often as it was routed there (no loss, no duplication) |
| `Channels.PartitionFailureCount` | v2/common/src/main/java/com/google/cloud/teleport/v2/transforms/BigQueryConverters.java:153-158 | a value occurs on the failure channel exactly as often as it was routed there |
| `Channels.PartitionMembers` | v2/common/src/main/java/com/google/cloud/teleport/v2/transforms/BigQueryConverters.java:150-159 | a value is on a channel if and only if some element was routed to that channel with it |
| `Channels.RunStage` | v2/common/src/main/java/com/google/cloud/teleport/v2/transforms/BigQueryConverters.java:141-162 | a fail-safe stage yields exactly one output per input: the success count plus the failure count is the input count |
| `Channels.RunStageMembers` | v2/common/src/main/java/com/google/cloud/teleport/v2/transforms/BigQueryConverters.java:141-162 | an output is on a channel if and only if the step routed some input element there with that value |
| `BigQueryConverters.ConvertJsonToTableRow` | v2/common/src/main/java/com/google/cloud/teleport/v2/transforms/BigQueryConverters.java:65-77 | succeeds exactly when the decoder does, with the decoded row; an IOException becomes a RuntimeException whose message is the fixed prefix plus the JSON and whose cause is the IOException; other exceptions pass through |
| `BigQueryConverters.JsonToTableRowStep` | v2/common/src/main/java/com/google/cloud/teleport/v2/transforms/BigQueryConverters.java:146-159 | routes to success exactly when conversion succeeds, emitting the row only; on failure the element keeps its original payload and payload and gains the exception's message and stack trace |
| `BigQueryConverters.FailsafeJsonToTableRow` | v2/common/src/main/java/com/google/cloud/teleport/v2/transforms/BigQueryConverters.java:140-163 | the stage's two outputs together have as many elements as its input |
| `BigQueryConverters.JsonToTableRowOutputs` | v2/common/src/main/java/com/google/cloud/teleport/v2/transforms/BigQueryConverters.java:147-158 | the success channel holds exactly the rows some input decoded to; the failure channel holds exactly the quarantined copies of the inputs that failed (both directions) |
| `BigQueryConverters.JsonToTableRowKeepsPayloads` | v2/common/src/main/java/com/google/cloud/teleport/v2/transforms/BigQueryConverters.java:154-158 | every dead letter has the original payload and payload of some input element and has its stack trace set |
| `BigQueryConverters.MalformedJsonIsDeadLettered` | v2/common/src/main/java/com/google/cloud/teleport/v2/transforms/BigQueryConverters.java:65-158 | the text `{a:1`, rejected by the decoder with an IOException, yields no success and one dead letter with original payload `{a:1`, message "Failed to serialize json to table row: {a:1" and a stack trace |
| `BigQueryConverters.TableRowToFailsafeElementStep` | v2/common/src/main/java/com/google/cloud/teleport/v2/transforms/BigQueryConverters.java:375-388 | success exactly when serialisation succeeds, emitting a healthy (row, JSON) element; on failure (row, row.toString()) with the exception's message and stack trace |
| `BigQueryConverters.TableRowToFailsafeElement` | v2/common/src/main/java/com/google/cloud/teleport/v2/transforms/BigQueryConverters.java:298-302 | the wrap stage's two outputs together have as many elements as there are rows |
| `BigQueryConverters.TableRowToFailsafeElementOutputs` | v2/common/src/main/java/com/google/cloud/teleport/v2/transforms/BigQueryConverters.java:376-385 | success elements are exactly the (row, JSON) elements of rows that serialise; dead letters are exactly the annotated (row, toString) elements of rows that do not |
| `BigQueryConverters.TableRowToFailsafeElementPartitionsRows` | v2/common/src/main/java/com/google/cloud/teleport/v2/transforms/BigQueryConverters.java:376-387 | the multiset of original payloads over both channels equals the multiset of input rows |
| `BigQueryConverters.TableRowToFailsafeElementFn.constructor` | v2/common/src/main/java/com/google/cloud/teleport/v2/transforms/BigQueryConverters.java:360-372 | a new DoFn has both counters at zero and has processed nothing |
| `BigQueryConverters.TableRowToFailsafeElementFn.ProcessElement` | v2/common/src/main/java/com/google/cloud/teleport/v2/transforms/BigQueryConverters.java:374-388 | emits the routed element of the row; exactly one counter moves: the success counter on success, the failed counter on failure; each counter keeps equal to its channel's size over all rows processed |
| `BigQueryConverters.TableRowToFailsafeElementFn.ProcessElements` | v2/common/src/main/java/com/google/cloud/teleport/v2/transforms/BigQueryConverters.java:374-388 | processing a bundle row by row yields the wrap stage's outputs for the bundle; each counter grows by the size of its channel |
| `BigQueryConverters.CountersAddUp` | v2/common/src/main/java/com/google/cloud/teleport/v2/transforms/BigQueryConverters.java:378-386 | success count plus failed count equals the number of rows processed |
| `BigQueryConverters.TableRowToFailsafeJsonDocument` | v2/common/src/main/java/com/google/cloud/teleport/v2/transforms/BigQueryConverters.java:294-328 | without a script path the output is the wrap stage's output unchanged; with one, the successes are the UDF's successes and the dead letters are the multiset union of the UDF's and the wrap stage's, their size the sum |
| `BigQueryConverters.TableRowToFailsafeJsonDocumentPartitionsRows` | v2/common/src/main/java/com/google/cloud/teleport/v2/transforms/BigQueryConverters.java:305-327 | if the UDF stage partitions its input by original payload, the composer's outputs partition the input rows by original payload; no row is lost or duplicated |
| `BigQueryConverters.NoUdfIsPassThroughUdf` | v2/common/src/main/java/com/google/cloud/teleport/v2/transforms/BigQueryConverters.java:305-327 | the composer with no script path equals the composer with a pass-through UDF: same successes, same dead letters up to order |
| `BigQueryConverters.TableRowToFailsafeJsonDocumentDeadLettersQuarantined` | v2/common/src/main/java/com/google/cloud/teleport/v2/transforms/BigQueryConverters.java:318-324 | if the UDF's dead letters carry stack traces, every dead letter of the composer does |
| `BigQueryConverters.FailsafeTableRowToFailsafeString` | v2/common/src/main/java/com/google/cloud/teleport/v2/transforms/BigQueryConverters.java:399-404 | the original payload becomes the row's string form, the payload is unchanged, and the element has no error fields |
| `BigQueryConverters.FailsafeTableRowsToFailsafeStrings` | v2/common/src/main/java/com/google/cloud/teleport/v2/transforms/BigQueryConverters.java:396-405 | exactly one output per input, in order, each re-typed as above |
| `BigQueryRead.Expand` | v2/common/src/main/java/com/google/cloud/teleport/v2/transforms/BigQueryConverters.java:191-227 | a table read if and only if no query is set, from the configured table spec; otherwise a read of the configured query, legacy SQL if and only if the legacy flag is set |
| `BigQueryRead.CheckArgument` | v2/common/src/main/java/com/google/cloud/teleport/v2/transforms/BigQueryConverters.java:241-243 | passes if and only if the condition holds; otherwise an IllegalArgumentException with the given message |
| `BigQueryRead.Build` | v2/common/src/main/java/com/google/cloud/teleport/v2/transforms/BigQueryConverters.java:236-253 | succeeds if and only if a table spec or a query is set, keeping the options; otherwise fails with the "no inputTableSpec" IllegalArgumentException |
| `BigQueryRead.SecondCheckNeverFails` | v2/common/src/main/java/com/google/cloud/teleport/v2/transforms/BigQueryConverters.java:240-250 | whenever the first check of build passes, the second passes too |
| `BigQueryRead.BuildThenExpandFollowsDecisionTable` | v2/common/src/main/java/com/google/cloud/teleport/v2/transforms/BigQueryConverters.java:193-253 | build rejects exactly the row with neither table nor query; every other row picks its read mode from the decision table of the three read modes and the configuration error, a query taking precedence over a table, from a source that is present |

## Left out

- JSON encoding and decoding by Gson and `TableRowJsonCoder` (lines 70 and 92): library code. They are opaque, possibly-failing functions, so no row/JSON round trip is stated.
- The `BigQueryIO` reads (lines 195-224): network I/O. Only the chosen read mode and its argument are modelled.
- The script UDF stage (`JavascriptTextTransformer.FailsafeJavascriptUdf`) is not part of this model. It is an opaque stage; what the composer lemmas assume about it is stated in their requires.
- Emission and counting never throw: `context.output` and `successCounter.inc()` (lines 150-152, 377-379) are modelled as total. In the code they sit inside the try, so an exception from a fused downstream step would send an element already on the success channel to the dead-letter channel as well, and move the failed counter instead of the success counter. "Exactly one output per input" (`Channels.RunStage`, `Channels.Partition`, `BigQueryConverters.CountersAddUp`) relies on this assumption.
- Beam plumbing (`PTransform`, `ParDo`, `PCollectionTuple`, `TupleTag`, `Flatten`): channels are sequences and tags are the two fields of `Outputs`. Parallel execution and output order across workers are not modelled.
- `Metrics` counters: plain sequential integer fields. Their concurrent aggregation is not modelled.
- Logging (lines 194, 204, 208, 218).
- `TableRowToJsonFn` (lines 82-89): a plain, non-fail-safe map outside the fail-safe core. A failure there fails the bundle.
- The option interfaces and AutoValue builders, except the validation in `build()`. The dead-letter table option is carried but unused, as in the code.
- Java nulls other than the exception message: a null payload, a null table spec reaching an expand that was built without `build()`, and a null boxed `useLegacySql`, which would throw a NullPointerException at line 206; the model's flag is a plain `bool`.
- `Error`s (throwables that are not `Exception`s) and exceptions thrown inside a catch block: they escape the stage and are not modelled.
- `Failsafe.Quarantine`: the stack-trace text is whatever the injected rendering returns. Only that it is set is stated, not its contents.
