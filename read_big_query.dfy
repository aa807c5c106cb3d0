/** ReadBigQuery: the validation its builder performs and the choice of read its expand makes.
    The read itself is not modelled; only the chosen mode and its argument are. */
module BigQueryRead {
  import opened Failsafe

  /** The options ReadBigQuery consults. `useLegacySql` is a boxed Boolean defaulting to false. */
  datatype BigQueryReadOptions = BigQueryReadOptions(
    inputTableSpec: Option<string>,
    outputDeadletterTable: Option<string>,
    query: Option<string>,
    useLegacySql: bool)

  /** A ReadBigQuery transform, as its builder produces it. */
  datatype ReadBigQuery = ReadBigQuery(options: BigQueryReadOptions)

  /** The three reads expand can ask for. A table read uses the DIRECT_READ method; the two
      query reads use the default method with standard or legacy SQL. */
  datatype ReadMode =
    | DirectTableRead(tableSpec: Option<string>)
    | StandardSqlQueryRead(query: string)
    | LegacySqlQueryRead(query: string)

  const NoTableSpecMessage := "If no inputTableSpec is provided then a query is required."
  const NoQueryMessage := "If no query is provided then an inputTableSpec is required."

  /** ReadBigQuery.expand: a set query takes precedence over the table; the legacy flag only
      matters when reading from a query. */
  function Expand(read: ReadBigQuery): (m: ReadMode)
    ensures m.DirectTableRead? <==> read.options.query.None?
    ensures m.DirectTableRead? ==> m.tableSpec == read.options.inputTableSpec
    ensures !m.DirectTableRead? ==> Some(m.query) == read.options.query
    ensures m.LegacySqlQueryRead? <==> read.options.query.Some? && read.options.useLegacySql
  {
    match read.options.query
    case None => DirectTableRead(read.options.inputTableSpec)
    case Some(q) => if !read.options.useLegacySql then StandardSqlQueryRead(q) else LegacySqlQueryRead(q)
  }

  /** Guava's checkArgument: an IllegalArgumentException with the message unless `condition`. */
  function CheckArgument(condition: bool, message: string): (r: Result<()>)
    ensures r.Ok? <==> condition
    ensures r.Err? ==> r.error == Exception(IllegalArgumentException, Some(message), None)
  {
    if condition then Ok(()) else Err(Exception(IllegalArgumentException, Some(message), None))
  }

  /** The first check of build: without a table spec a query is required. */
  function CheckTableSpecOrQuery(options: BigQueryReadOptions): (r: Result<()>)
    ensures r.Ok? <==> options.inputTableSpec.Some? || options.query.Some?
    ensures r.Err? ==> r.error == Exception(IllegalArgumentException, Some(NoTableSpecMessage), None)
  {
    if options.inputTableSpec.None? then CheckArgument(options.query.Some?, NoTableSpecMessage) else Ok(())
  }

  /** The second check of build: without a query a table spec is required. */
  function CheckQueryOrTableSpec(options: BigQueryReadOptions): (r: Result<()>)
    ensures r.Ok? <==> options.query.Some? || options.inputTableSpec.Some?
    ensures r.Err? ==> r.error == Exception(IllegalArgumentException, Some(NoQueryMessage), None)
  {
    if options.query.None? then CheckArgument(options.inputTableSpec.Some?, NoQueryMessage) else Ok(())
  }

  /** ReadBigQuery.Builder.build: the two checks in order. Construction succeeds exactly when
      a table spec or a query is set; otherwise the first check rejects it. */
  function Build(options: BigQueryReadOptions): (r: Result<ReadBigQuery>)
    ensures r.Ok? <==> options.inputTableSpec.Some? || options.query.Some?
    ensures r.Ok? ==> r.value.options == options
    ensures r.Err? ==> r.error == Exception(IllegalArgumentException, Some(NoTableSpecMessage), None)
  {
    var readBigQuery := ReadBigQuery(options);
    match CheckTableSpecOrQuery(options)
    case Err(e) => Err(e)
    case Ok(_) =>
      match CheckQueryOrTableSpec(options)
      case Err(e) => Err(e)
      case Ok(_) => Ok(readBigQuery)
  }

  /** The second check never rejects what the first admitted, so its message is never raised. */
  lemma SecondCheckNeverFails(options: BigQueryReadOptions)
    requires CheckTableSpecOrQuery(options).Ok?
    ensures CheckQueryOrTableSpec(options).Ok?
  {
  }

  /** The decision table of the three read modes and the configuration error, one row per
      combination of table spec and query: None stands for the configuration error. */
  datatype Action = TableRead | StandardQuery | LegacyQuery

  function DecisionTable(tableSet: bool, querySet: bool, legacy: bool): Option<Action> {
    match (tableSet, querySet)
    case (true, false) => Some(TableRead)
    case (false, true) => if legacy then Some(LegacyQuery) else Some(StandardQuery)
    case (true, true) => if legacy then Some(LegacyQuery) else Some(StandardQuery)
    case (false, false) => None
  }

  function ActionOf(m: ReadMode): Action {
    match m
    case DirectTableRead(_) => TableRead
    case StandardSqlQueryRead(_) => StandardQuery
    case LegacySqlQueryRead(_) => LegacyQuery
  }

  /** Build followed by Expand follows the decision table: the error row is exactly the one
      Build rejects, and every other row picks its read mode, from a source that is set. */
  lemma BuildThenExpandFollowsDecisionTable(options: BigQueryReadOptions)
    ensures var row := DecisionTable(options.inputTableSpec.Some?, options.query.Some?, options.useLegacySql);
      && (row.None? <==> Build(options).Err?)
      && (Build(options).Ok? ==>
            var m := Expand(Build(options).value);
            && ActionOf(m) == row.value
            && (m.DirectTableRead? ==> m.tableSpec.Some? && m.tableSpec == options.inputTableSpec)
            && (!m.DirectTableRead? ==> Some(m.query) == options.query))
  {
  }
}
