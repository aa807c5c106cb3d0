/** The fail-safe converters of BigQueryConverters: JSON to table row, table row to
    FailsafeElement (with its success and failure counters), the composer that optionally
    runs a script UDF stage and merges dead letters, and the re-typing of original payloads. */
module BigQueryConverters {
  import opened Failsafe
  import opened Channels

  /** The library calls the converters make: decodeJson is TableRowJsonCoder's decode and
      toJson is Gson's serialisation of a row, both of which may throw; rowToString is
      TableRow.toString and stackTrace is Throwables.getStackTraceAsString, both total. */
  datatype Library<!R> = Library(
    decodeJson: string -> Result<R>,
    toJson: R -> Result<string>,
    rowToString: R -> string,
    stackTrace: Exception -> string)

  /** A channel element whose current payload is a JSON string. */
  type JsonElement<O> = FailsafeElement<O, string>

  const JsonToTableRowErrorPrefix := "Failed to serialize json to table row: "

  /** convertJsonToTableRow: decodes one JSON string. An IOException from the decoder is
      rethrown as a RuntimeException naming the JSON and carrying the IOException as its
      cause; any other exception passes through unchanged. */
  function ConvertJsonToTableRow<R(!new)>(lib: Library<R>, json: string): (r: Result<R>)
    ensures r.Ok? <==> lib.decodeJson(json).Ok?
    ensures r.Ok? ==> r.value == lib.decodeJson(json).value
    ensures lib.decodeJson(json).Err? && lib.decodeJson(json).error.kind == IOException ==>
      r.Err? && r.error.kind == RuntimeException && r.error.cause == Some(lib.decodeJson(json).error) &&
      r.error.message == Some(JsonToTableRowErrorPrefix + json)
    ensures lib.decodeJson(json).Err? && lib.decodeJson(json).error.kind != IOException ==>
      r == lib.decodeJson(json)
  {
    match lib.decodeJson(json)
    case Ok(row) => Ok(row)
    case Err(e) =>
      if e.kind == IOException then Err(Exception(RuntimeException, Some(JsonToTableRowErrorPrefix + json), Some(e)))
      else Err(e)
  }

  // ---------------------------------------------------------------------------------------
  // FailsafeJsonToTableRow

  /** The DoFn of FailsafeJsonToTableRow on one element: a decoded row goes to the success
      channel; on failure a copy of the element, annotated with the exception's message and
      stack trace, goes to the failure channel. */
  function JsonToTableRowStep<O(!new), R(!new)>(lib: Library<R>, element: JsonElement<O>): (r: Routed<R, JsonElement<O>>)
    ensures r.ToSuccess? <==> ConvertJsonToTableRow(lib, element.payload).Ok?
    ensures r.ToSuccess? ==> r.success == ConvertJsonToTableRow(lib, element.payload).value
    ensures r.ToFailure? ==>
      var e := ConvertJsonToTableRow(lib, element.payload).error;
      && r.failure.originalPayload == element.originalPayload
      && r.failure.payload == element.payload
      && r.failure.errorMessage == e.message
      && r.failure.stacktrace == Some(lib.stackTrace(e))
  {
    match ConvertJsonToTableRow(lib, element.payload)
    case Ok(row) => ToSuccess(row)
    case Err(e) => ToFailure(Quarantine(Copy(element), e, lib.stackTrace))
  }

  function JsonToTableRowFn<O(!new), R(!new)>(lib: Library<R>): JsonElement<O> -> Routed<R, JsonElement<O>> {
    element => JsonToTableRowStep(lib, element)
  }

  /** FailsafeJsonToTableRow.expand: the DoFn applied to every element of the input. */
  function FailsafeJsonToTableRow<O(!new), R(!new)>(lib: Library<R>, elements: seq<JsonElement<O>>): (o: Outputs<R, JsonElement<O>>)
    ensures |o.success| + |o.failure| == |elements|
  {
    RunStage(JsonToTableRowFn(lib), elements)
  }

  /** The success channel holds exactly the rows some input decoded to; the failure channel
      holds exactly the quarantined copies of the inputs that failed to decode. */
  lemma JsonToTableRowOutputs<O(!new), R(!new)>(lib: Library<R>, elements: seq<JsonElement<O>>)
    ensures forall row :: row in FailsafeJsonToTableRow(lib, elements).success <==>
      exists i :: 0 <= i < |elements| && ConvertJsonToTableRow(lib, elements[i].payload) == Ok(row)
    ensures forall f :: f in FailsafeJsonToTableRow(lib, elements).failure <==>
      exists i :: 0 <= i < |elements| && ConvertJsonToTableRow(lib, elements[i].payload).Err? &&
        f == Quarantine(elements[i], ConvertJsonToTableRow(lib, elements[i].payload).error, lib.stackTrace)
  {
    var step := JsonToTableRowFn(lib);
    RunStageMembers(step, elements);
    forall row ensures row in FailsafeJsonToTableRow(lib, elements).success <==>
      exists i :: 0 <= i < |elements| && ConvertJsonToTableRow(lib, elements[i].payload) == Ok(row)
    {
      if row in FailsafeJsonToTableRow(lib, elements).success {
        var i :| 0 <= i < |elements| && step(elements[i]) == ToSuccess(row);
        assert ConvertJsonToTableRow(lib, elements[i].payload) == Ok(row);
      }
      if exists i :: 0 <= i < |elements| && ConvertJsonToTableRow(lib, elements[i].payload) == Ok(row) {
        var i :| 0 <= i < |elements| && ConvertJsonToTableRow(lib, elements[i].payload) == Ok(row);
        assert step(elements[i]) == ToSuccess(row);
      }
    }
    forall f ensures f in FailsafeJsonToTableRow(lib, elements).failure <==>
      exists i :: 0 <= i < |elements| && ConvertJsonToTableRow(lib, elements[i].payload).Err? &&
        f == Quarantine(elements[i], ConvertJsonToTableRow(lib, elements[i].payload).error, lib.stackTrace)
    {
      if f in FailsafeJsonToTableRow(lib, elements).failure {
        var i :| 0 <= i < |elements| && step(elements[i]) == ToFailure(f);
        assert ConvertJsonToTableRow(lib, elements[i].payload).Err?;
      }
      if exists i :: 0 <= i < |elements| && ConvertJsonToTableRow(lib, elements[i].payload).Err? &&
          f == Quarantine(elements[i], ConvertJsonToTableRow(lib, elements[i].payload).error, lib.stackTrace) {
        var i :| 0 <= i < |elements| && ConvertJsonToTableRow(lib, elements[i].payload).Err? &&
          f == Quarantine(elements[i], ConvertJsonToTableRow(lib, elements[i].payload).error, lib.stackTrace);
        assert step(elements[i]) == ToFailure(f);
      }
    }
  }

  /** Every dead letter keeps the original payload and the payload of an input element and
      has its stack trace set. */
  lemma JsonToTableRowKeepsPayloads<O(!new), R(!new)>(lib: Library<R>, elements: seq<JsonElement<O>>, f: JsonElement<O>)
    requires f in FailsafeJsonToTableRow(lib, elements).failure
    ensures exists i :: (0 <= i < |elements| &&
      f.originalPayload == elements[i].originalPayload && f.payload == elements[i].payload)
    ensures f.stacktrace.Some?
  {
    JsonToTableRowOutputs(lib, elements);
  }

  /** A malformed JSON text on which the decoder throws an IOException reaches the failure
      channel with its original payload and the wrapping exception's message. */
  lemma MalformedJsonIsDeadLettered(lib: Library<string>, cause: Exception)
    requires lib.decodeJson("{a:1").Err? && lib.decodeJson("{a:1").error == cause
    requires cause.kind == IOException
    ensures var o := FailsafeJsonToTableRow(lib, [Of("{a:1", "{a:1")]);
      && o.success == []
      && |o.failure| == 1
      && o.failure[0].originalPayload == "{a:1"
      && o.failure[0].errorMessage == Some("Failed to serialize json to table row: {a:1")
      && o.failure[0].stacktrace.Some?
  {
    var input := [Of("{a:1", "{a:1")];
    assert input == [] + [input[0]];
    RunStageSnoc(JsonToTableRowFn(lib), [], input[0]);
    assert JsonToTableRowFn(lib)(input[0]) == JsonToTableRowStep(lib, input[0]);
    assert JsonToTableRowErrorPrefix + "{a:1" == "Failed to serialize json to table row: {a:1";
  }

  // ---------------------------------------------------------------------------------------
  // TableRowToFailsafeElementFn

  /** A channel element whose original payload is a table row and whose payload is a string. */
  type RowElement<R> = FailsafeElement<R, string>

  /** TableRowToFailsafeElementFn on one row: on success the row with its JSON form; on
      failure the row with its toString form, annotated with the exception. */
  function TableRowToFailsafeElementStep<R(!new)>(lib: Library<R>, row: R): (r: Routed<RowElement<R>, RowElement<R>>)
    ensures r.ToSuccess? <==> lib.toJson(row).Ok?
    ensures r.ToSuccess? ==>
      && r.success.originalPayload == row
      && r.success.payload == lib.toJson(row).value
      && r.success.errorMessage.None? && r.success.stacktrace.None?
    ensures r.ToFailure? ==>
      && r.failure.originalPayload == row
      && r.failure.payload == lib.rowToString(row)
      && r.failure.errorMessage == lib.toJson(row).error.message
      && r.failure.stacktrace == Some(lib.stackTrace(lib.toJson(row).error))
  {
    match lib.toJson(row)
    case Ok(json) => ToSuccess(Of(row, json))
    case Err(e) => ToFailure(Quarantine(Of(row, lib.rowToString(row)), e, lib.stackTrace))
  }

  function TableRowToFailsafeElementFnStep<R(!new)>(lib: Library<R>): R -> Routed<RowElement<R>, RowElement<R>> {
    row => TableRowToFailsafeElementStep(lib, row)
  }

  /** The ParDo of TableRowToFailsafeElementFn over a channel of rows. */
  function TableRowToFailsafeElement<R(!new)>(lib: Library<R>, rows: seq<R>): (o: Outputs<RowElement<R>, RowElement<R>>)
    ensures |o.success| + |o.failure| == |rows|
  {
    RunStage(TableRowToFailsafeElementFnStep(lib), rows)
  }

  /** Success elements are healthy and carry the JSON form of an input row; dead letters
      carry the toString form of an input row whose serialisation failed, with the
      exception's message and stack trace. Both directions hold. */
  lemma TableRowToFailsafeElementOutputs<R(!new)>(lib: Library<R>, rows: seq<R>)
    ensures forall e :: e in TableRowToFailsafeElement(lib, rows).success <==>
      exists i :: 0 <= i < |rows| && lib.toJson(rows[i]).Ok? && e == Of(rows[i], lib.toJson(rows[i]).value)
    ensures forall e :: e in TableRowToFailsafeElement(lib, rows).failure <==>
      exists i :: 0 <= i < |rows| && lib.toJson(rows[i]).Err? &&
        e == Quarantine(Of(rows[i], lib.rowToString(rows[i])), lib.toJson(rows[i]).error, lib.stackTrace)
  {
    var step := TableRowToFailsafeElementFnStep(lib);
    RunStageMembers(step, rows);
    forall e ensures e in TableRowToFailsafeElement(lib, rows).success <==>
      exists i :: 0 <= i < |rows| && lib.toJson(rows[i]).Ok? && e == Of(rows[i], lib.toJson(rows[i]).value)
    {
      if e in TableRowToFailsafeElement(lib, rows).success {
        var i :| 0 <= i < |rows| && step(rows[i]) == ToSuccess(e);
        assert lib.toJson(rows[i]).Ok?;
      }
      if exists i :: 0 <= i < |rows| && lib.toJson(rows[i]).Ok? && e == Of(rows[i], lib.toJson(rows[i]).value) {
        var i :| 0 <= i < |rows| && lib.toJson(rows[i]).Ok? && e == Of(rows[i], lib.toJson(rows[i]).value);
        assert step(rows[i]) == ToSuccess(e);
      }
    }
    forall e ensures e in TableRowToFailsafeElement(lib, rows).failure <==>
      exists i :: 0 <= i < |rows| && lib.toJson(rows[i]).Err? &&
        e == Quarantine(Of(rows[i], lib.rowToString(rows[i])), lib.toJson(rows[i]).error, lib.stackTrace)
    {
      if e in TableRowToFailsafeElement(lib, rows).failure {
        var i :| 0 <= i < |rows| && step(rows[i]) == ToFailure(e);
        assert lib.toJson(rows[i]).Err?;
      }
      if exists i :: 0 <= i < |rows| && lib.toJson(rows[i]).Err? &&
          e == Quarantine(Of(rows[i], lib.rowToString(rows[i])), lib.toJson(rows[i]).error, lib.stackTrace) {
        var i :| 0 <= i < |rows| && lib.toJson(rows[i]).Err? &&
          e == Quarantine(Of(rows[i], lib.rowToString(rows[i])), lib.toJson(rows[i]).error, lib.stackTrace);
        assert step(rows[i]) == ToFailure(e);
      }
    }
  }

  /** Every input row is the original payload of exactly one output element, on one of the
      two channels: the channels partition the input. */
  lemma {:induction false} TableRowToFailsafeElementPartitionsRows<R(!new)>(lib: Library<R>, rows: seq<R>)
    ensures var o := TableRowToFailsafeElement(lib, rows);
      multiset(OriginalPayloads(o.success)) + multiset(OriginalPayloads(o.failure)) == multiset(rows)
  {
    if rows != [] {
      var init, last := rows[..|rows| - 1], rows[|rows| - 1];
      assert rows == init + [last];
      TableRowToFailsafeElementPartitionsRows(lib, init);
      var r := TableRowToFailsafeElementStep(lib, last);
      EmitStep(lib, init, last, r);
      EmitAddsOriginal(TableRowToFailsafeElement(lib, init), r, last);
      assert multiset(rows) == multiset(init) + multiset{last};
    }
  }

  /** Emitting an element whose original payload is `original` adds `original` once to the
      original payloads over both channels. */
  lemma EmitAddsOriginal<O, P>(o: Outputs<FailsafeElement<O, P>, FailsafeElement<O, P>>,
                               r: Routed<FailsafeElement<O, P>, FailsafeElement<O, P>>, original: O)
    requires match r
      case ToSuccess(e) => e.originalPayload == original
      case ToFailure(e) => e.originalPayload == original
    ensures multiset(OriginalPayloads(Emit(o, r).success)) + multiset(OriginalPayloads(Emit(o, r).failure))
      == multiset(OriginalPayloads(o.success)) + multiset(OriginalPayloads(o.failure)) + multiset{original}
  {
    match r
    case ToSuccess(e) =>
      OriginalPayloadsAppend(o.success, [e]);
    case ToFailure(e) =>
      OriginalPayloadsAppend(o.failure, [e]);
  }

  /** The DoFn instance: its two counters, and the rows it has processed so far (ghost).
      Each counter equals the size of the channel it counts over everything processed. */
  class TableRowToFailsafeElementFn<R(!new)> {
    const lib: Library<R>
    var successCounter: nat
    var failedCounter: nat
    ghost var processed: seq<R>

    ghost predicate Valid()
      reads this
    {
      && successCounter == |TableRowToFailsafeElement(lib, processed).success|
      && failedCounter == |TableRowToFailsafeElement(lib, processed).failure|
    }

    constructor (lib: Library<R>)
      ensures Valid() && this.lib == lib
      ensures processed == [] && successCounter == 0 && failedCounter == 0
    {
      this.lib := lib;
      successCounter, failedCounter := 0, 0;
      processed := [];
    }

    /** processElement: emits one output and increments exactly one counter. */
    method ProcessElement(row: R) returns (r: Routed<RowElement<R>, RowElement<R>>)
      requires Valid()
      modifies this
      ensures Valid()
      ensures processed == old(processed) + [row]
      ensures r == TableRowToFailsafeElementStep(lib, row)
      ensures successCounter == old(successCounter) + (if r.ToSuccess? then 1 else 0)
      ensures failedCounter == old(failedCounter) + (if r.ToFailure? then 1 else 0)
    {
      match lib.toJson(row) {
        case Ok(json) =>
          r := ToSuccess(Of(row, json));
          successCounter := successCounter + 1;
        case Err(e) =>
          r := ToFailure(Quarantine(Of(row, lib.rowToString(row)), e, lib.stackTrace));
          failedCounter := failedCounter + 1;
      }
      EmitStep(lib, processed, row, r);
      processed := processed + [row];
    }

    /** processElement over a bundle of rows, appending each output to its channel. */
    method ProcessElements(rows: seq<R>) returns (o: Outputs<RowElement<R>, RowElement<R>>)
      requires Valid()
      modifies this
      ensures Valid()
      ensures processed == old(processed) + rows
      ensures o == TableRowToFailsafeElement(lib, rows)
      ensures successCounter == old(successCounter) + |o.success|
      ensures failedCounter == old(failedCounter) + |o.failure|
    {
      o := Outputs([], []);
      var i := 0;
      EmptyStage(lib, rows);
      while i < |rows|
        invariant 0 <= i <= |rows|
        invariant Valid()
        invariant processed == old(processed) + rows[..i]
        invariant o == TableRowToFailsafeElement(lib, rows[..i])
        invariant successCounter == old(successCounter) + |o.success|
        invariant failedCounter == old(failedCounter) + |o.failure|
      {
        ghost var before, successBefore, failedBefore := processed, successCounter, failedCounter;
        var r := ProcessElement(rows[i]);
        ExtendPrefix(lib, rows, i, o, r, old(processed), before);
        CountersFollowEmit(o, r, old(successCounter), old(failedCounter), successBefore, failedBefore,
                           successCounter, failedCounter);
        o := Emit(o, r);
        i := i + 1;
      }
      assert rows[..|rows|] == rows;
    }
  }

  lemma EmitStep<R(!new)>(lib: Library<R>, rows: seq<R>, row: R, r: Routed<RowElement<R>, RowElement<R>>)
    requires r == TableRowToFailsafeElementStep(lib, row)
    ensures TableRowToFailsafeElement(lib, rows + [row]) == Emit(TableRowToFailsafeElement(lib, rows), r)
  {
    RunStageSnoc(TableRowToFailsafeElementFnStep(lib), rows, row);
    assert TableRowToFailsafeElementFnStep(lib)(row) == r;
  }

  /** One iteration of ProcessElements: emitting the next row's output extends the outputs
      and the processed rows by that row. */
  lemma ExtendPrefix<R(!new)>(lib: Library<R>, rows: seq<R>, i: nat, o: Outputs<RowElement<R>, RowElement<R>>,
                              r: Routed<RowElement<R>, RowElement<R>>, start: seq<R>, before: seq<R>)
    requires i < |rows|
    requires o == TableRowToFailsafeElement(lib, rows[..i])
    requires r == TableRowToFailsafeElementStep(lib, rows[i])
    requires before == start + rows[..i]
    ensures Emit(o, r) == TableRowToFailsafeElement(lib, rows[..i + 1])
    ensures before + [rows[i]] == start + rows[..i + 1]
  {
    assert rows[..i + 1] == rows[..i] + [rows[i]];
    EmitStep(lib, rows[..i], rows[i], r);
  }

  /** One iteration of ProcessElements keeps each counter equal to its start value plus the
      size of its channel. */
  lemma CountersFollowEmit<S, F>(o: Outputs<S, F>, r: Routed<S, F>, successStart: nat, failedStart: nat,
                                 successBefore: nat, failedBefore: nat, successAfter: nat, failedAfter: nat)
    requires successBefore == successStart + |o.success| && failedBefore == failedStart + |o.failure|
    requires successAfter == successBefore + (if r.ToSuccess? then 1 else 0)
    requires failedAfter == failedBefore + (if r.ToFailure? then 1 else 0)
    ensures successAfter == successStart + |Emit(o, r).success|
    ensures failedAfter == failedStart + |Emit(o, r).failure|
  {
  }

  /** Before the first iteration of ProcessElements nothing has been emitted. */
  lemma EmptyStage<R(!new)>(lib: Library<R>, rows: seq<R>)
    ensures TableRowToFailsafeElement(lib, rows[..0]) == Outputs([], [])
  {
    assert rows[..0] == [];
    assert Routes(TableRowToFailsafeElementFnStep(lib), []) == [];
  }

  /** The counters add up to the number of rows processed. */
  lemma CountersAddUp<R(!new)>(fn: TableRowToFailsafeElementFn<R>)
    requires fn.Valid()
    ensures fn.successCounter + fn.failedCounter == |fn.processed|
  {
  }

  // ---------------------------------------------------------------------------------------
  // TableRowToFailsafeJsonDocument

  /** The options TableRowToFailsafeJsonDocument reads: the script location and function name. */
  datatype JavascriptTextTransformerOptions = JavascriptTextTransformerOptions(
    javascriptTextTransformGcsPath: Option<string>,
    javascriptTextTransformFunctionName: Option<string>)

  /** The script UDF stage, an opaque fail-safe stage given the script location, the
      function name and its input channel. */
  type UdfStage<!R> = (string, Option<string>, seq<RowElement<R>>) -> Outputs<RowElement<R>, RowElement<R>>

  /** TableRowToFailsafeJsonDocument.expand: wraps the rows; with a script location set, runs
      the UDF stage on the wrapped successes and flattens both stages' dead letters. */
  function TableRowToFailsafeJsonDocument<R(!new)>(lib: Library<R>, options: JavascriptTextTransformerOptions,
                                             udf: UdfStage<R>, rows: seq<R>): (o: Outputs<RowElement<R>, RowElement<R>>)
    ensures options.javascriptTextTransformGcsPath.None? ==> o == TableRowToFailsafeElement(lib, rows)
    ensures options.javascriptTextTransformGcsPath.Some? ==>
      var wrapped := TableRowToFailsafeElement(lib, rows);
      var udfOut := udf(options.javascriptTextTransformGcsPath.value,
                        options.javascriptTextTransformFunctionName, wrapped.success);
      && o.success == udfOut.success
      && multiset(o.failure) == multiset(udfOut.failure) + multiset(wrapped.failure)
      && |o.failure| == |udfOut.failure| + |wrapped.failure|
  {
    var wrapped := TableRowToFailsafeElement(lib, rows);
    match options.javascriptTextTransformGcsPath
    case None => wrapped
    case Some(path) =>
      var udfOut := udf(path, options.javascriptTextTransformFunctionName, wrapped.success);
      Outputs(udfOut.success, udfOut.failure + wrapped.failure)
  }

  /** A UDF stage that itself partitions its input: every input element's original payload
      reaches exactly one output element. */
  ghost predicate PartitionsByOriginal<R(!new)>(udf: UdfStage<R>) {
    forall path, name, xs :: multiset(OriginalPayloads(udf(path, name, xs).success)) +
      multiset(OriginalPayloads(udf(path, name, xs).failure)) == multiset(OriginalPayloads(xs))
  }

  /** With a UDF stage that partitions its input, the composer's two outputs partition the
      input rows by original payload: no row is lost or duplicated, and every output still
      carries the row it started from. */
  lemma TableRowToFailsafeJsonDocumentPartitionsRows<R(!new)>(lib: Library<R>, options: JavascriptTextTransformerOptions,
                                                        udf: UdfStage<R>, rows: seq<R>)
    requires PartitionsByOriginal(udf)
    ensures var o := TableRowToFailsafeJsonDocument(lib, options, udf, rows);
      && multiset(OriginalPayloads(o.success)) + multiset(OriginalPayloads(o.failure)) == multiset(rows)
      && |o.success| + |o.failure| == |rows|
  {
    var o := TableRowToFailsafeJsonDocument(lib, options, udf, rows);
    var wrapped := TableRowToFailsafeElement(lib, rows);
    TableRowToFailsafeElementPartitionsRows(lib, rows);
    if options.javascriptTextTransformGcsPath.Some? {
      var udfOut := udf(options.javascriptTextTransformGcsPath.value,
                        options.javascriptTextTransformFunctionName, wrapped.success);
      OriginalPayloadsAppend(udfOut.failure, wrapped.failure);
      assert o.failure == udfOut.failure + wrapped.failure;
    }
    assert |multiset(OriginalPayloads(o.success))| == |o.success|;
    assert |multiset(OriginalPayloads(o.failure))| == |o.failure|;
    assert |multiset(rows)| == |rows|;
  }

  /** Without a script location the composer behaves like a composer whose UDF stage passes
      every element through: the same successes, and the same dead letters up to order. */
  lemma NoUdfIsPassThroughUdf<R(!new)>(lib: Library<R>, path: string, name: Option<string>,
                                 udf: UdfStage<R>, passThrough: UdfStage<R>, rows: seq<R>)
    requires forall p, n, xs :: passThrough(p, n, xs) == Outputs(xs, [])
    ensures var without := TableRowToFailsafeJsonDocument(lib, JavascriptTextTransformerOptions(None, name), udf, rows);
      var with := TableRowToFailsafeJsonDocument(lib, JavascriptTextTransformerOptions(Some(path), name), passThrough, rows);
      without.success == with.success && multiset(without.failure) == multiset(with.failure)
  {
    var wrapped := TableRowToFailsafeElement(lib, rows);
    assert passThrough(path, name, wrapped.success) == Outputs(wrapped.success, []);
  }

  /** If the UDF stage sets the stack trace of its dead letters, every dead letter of the
      composer has its stack trace set. */
  lemma TableRowToFailsafeJsonDocumentDeadLettersQuarantined<R(!new)>(lib: Library<R>, options: JavascriptTextTransformerOptions,
                                                                udf: UdfStage<R>, rows: seq<R>)
    requires forall p, n, xs, e :: e in udf(p, n, xs).failure ==> e.stacktrace.Some?
    ensures forall e :: e in TableRowToFailsafeJsonDocument(lib, options, udf, rows).failure ==> e.stacktrace.Some?
  {
    var wrapped := TableRowToFailsafeElement(lib, rows);
    TableRowToFailsafeElementOutputs(lib, rows);
    forall e | e in wrapped.failure
      ensures e.stacktrace.Some?
    {
      var i :| 0 <= i < |rows| && lib.toJson(rows[i]).Err? &&
        e == Quarantine(Of(rows[i], lib.rowToString(rows[i])), lib.toJson(rows[i]).error, lib.stackTrace);
    }
  }

  // ---------------------------------------------------------------------------------------
  // FailsafeTableRowToFailsafeStringFn

  /** FailsafeTableRowToFailsafeStringFn on one element: the original row becomes its string
      form and the payload is kept. FailsafeElement.of builds a new element, so the error
      fields are not carried over. */
  function FailsafeTableRowToFailsafeString<R(!new)>(lib: Library<R>, element: RowElement<R>): (e: FailsafeElement<string, string>)
    ensures e.originalPayload == lib.rowToString(element.originalPayload)
    ensures e.payload == element.payload
    ensures e.errorMessage.None? && e.stacktrace.None?
  {
    Of(lib.rowToString(element.originalPayload), element.payload)
  }

  /** The ParDo of FailsafeTableRowToFailsafeStringFn: exactly one output per input, in order. */
  function FailsafeTableRowsToFailsafeStrings<R(!new)>(lib: Library<R>, xs: seq<RowElement<R>>): (ys: seq<FailsafeElement<string, string>>)
    ensures |ys| == |xs|
    ensures forall i :: 0 <= i < |xs| ==>
      && ys[i].originalPayload == lib.rowToString(xs[i].originalPayload) && ys[i].payload == xs[i].payload
      && ys[i].errorMessage.None? && ys[i].stacktrace.None?
  {
    seq(|xs|, i requires 0 <= i < |xs| => FailsafeTableRowToFailsafeString(lib, xs[i]))
  }
}
