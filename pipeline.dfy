/**
 * The question-answering pipeline around the three string transforms: read the
 * spreadsheet and normalize its headers, load it into SQLite, ask the model for
 * a query, clean the reply and run it, and decide what the page shows.
 * Reading the file, the model call, loading the table, reading its column names
 * back and running a query are outside calls; they are parameters here. All but
 * the column read return either a value or the text of the exception raised.
 */
module Pipeline {
  import opened Text
  import opened HeaderNormalizer
  import opened Prompt
  import opened ResponseCleaner

  /** What an outside call gives back: a value, or the text of its exception. */
  datatype Result<T> = Ok(value: T) | Err(message: string)

  /** A data frame: column labels and rows of cells. */
  datatype Frame<Cell> = Frame(columns: seq<string>, rows: seq<seq<Cell>>)

  /** What a step hands back: a frame, or a message to show instead. */
  datatype Answer<Cell> = Table(frame: Frame<Cell>) | ErrorText(text: string)

  /** The page once a file was uploaded: the file error, or a preview of the data
      and, when a question was asked, its answer. */
  datatype Page<Cell> =
    | FileError(text: string)
    | Loaded(preview: Frame<Cell>, answer: Option<Answer<Cell>>)

  const ErrorMark := "\U{274C} Error "
  const ReadError := ErrorMark + "reading file: "
  const GenerateError := ErrorMark + "generating SQL: "
  const RunError := ErrorMark + "running SQL query: "
  /** How many rows the preview shows. */
  const PreviewRows := 5

  /** Reads the upload and normalizes its headers; a failed read becomes its
      error text. */
  function UploadExcel<Cell>(read: Result<Frame<Cell>>): (out: Answer<Cell>)
    ensures out.Table? <==> read.Ok?
    ensures out.Table? ==> out.frame.rows == read.value.rows
    ensures out.Table? ==> out.frame.columns == NormalizeColumns(read.value.columns)
    ensures out.ErrorText? ==> out.text == ReadError + read.message
  {
    match read
    case Ok(df) => Table(Frame(NormalizeColumns(df.columns), df.rows))
    case Err(e) => ErrorText(ReadError + e)
  }

  /** Asks the model for a query and cleans the reply; a failed call becomes its
      error text, which is returned in place of a query. */
  function GenerateSqlQuery(question: string, columns: seq<string>,
                            complete: Request -> Result<string>): (sql: string)
    ensures complete(BuildRequest(question, columns)).Ok? ==>
      && sql == Clean(complete(BuildRequest(question, columns)).value)
      && IsStripped(sql) && !Contains(sql, Fence)
    ensures complete(BuildRequest(question, columns)).Err? ==>
      sql == GenerateError + complete(BuildRequest(question, columns)).message
  {
    match complete(BuildRequest(question, columns))
    case Ok(reply) => Clean(reply)
    case Err(e) => GenerateError + e
  }

  /** Loads the frame into SQLite, reads its column names back, asks for a query
      and runs whatever came back. Every failure ends as a running error. */
  function ExecuteSqlQuery<Db, Cell>(
    question: string, df: Frame<Cell>,
    load: Frame<Cell> -> Result<Db>, schema: Db -> seq<string>,
    complete: Request -> Result<string>, run: (Db, string) -> Result<Frame<Cell>>
  ): (out: Answer<Cell>)
    ensures out.Table? <==>
      load(df).Ok? && run(load(df).value, GenerateSqlQuery(question, schema(load(df).value), complete)).Ok?
    ensures out.Table? ==>
      out.frame == run(load(df).value, GenerateSqlQuery(question, schema(load(df).value), complete)).value
    ensures out.ErrorText? ==> RunError <= out.text
  {
    match load(df)
    case Err(e) => ErrorText(RunError + e)
    case Ok(db) =>
      var sql := GenerateSqlQuery(question, schema(db), complete);
      match run(db, sql)
      case Ok(result) => Table(result)
      case Err(e) => ErrorText(RunError + e)
  }

  /** The first rows of a frame. */
  function Head<Cell>(df: Frame<Cell>): (preview: Frame<Cell>)
    ensures preview.columns == df.columns
    ensures |preview.rows| == if |df.rows| < PreviewRows then |df.rows| else PreviewRows
    ensures preview.rows <= df.rows
  {
    if |df.rows| < PreviewRows then df else Frame(df.columns, df.rows[..PreviewRows])
  }

  /** The page after a file was uploaded and `question` typed (empty when nothing
      was typed). The query step is the intended one, which reports a failed
      model call instead of running its error text. */
  function Respond<Db, Cell>(
    read: Result<Frame<Cell>>, question: string,
    load: Frame<Cell> -> Result<Db>, schema: Db -> seq<string>,
    complete: Request -> Result<string>, run: (Db, string) -> Result<Frame<Cell>>
  ): (page: Page<Cell>)
    ensures page.FileError? <==> read.Err?
    ensures page.FileError? ==> page.text == ReadError + read.message
    ensures page.Loaded? ==> (page.answer.None? <==> question == "")
  {
    match UploadExcel(read)
    case ErrorText(text) => FileError(text)
    case Table(df) =>
      Loaded(Head(df),
             if question == "" then None
             else Some(ExecuteSqlQueryChecked(question, df, load, schema, complete, run)))
  }

  // ---------------------------------------------------------------------------
  // Properties of the pipeline.

  /** Uploading normalizes every header, and normalizing the result again changes
      nothing. */
  lemma UploadNormalizes<Cell>(read: Result<Frame<Cell>>)
    requires read.Ok?
    ensures forall k :: 0 <= k < |UploadExcel(read).frame.columns| ==>
      IsNormalName(UploadExcel(read).frame.columns[k])
    ensures NormalizeColumns(UploadExcel(read).frame.columns) == UploadExcel(read).frame.columns
  {
    var names := UploadExcel(read).frame.columns;
    forall k | 0 <= k < |names|
      ensures Normalize(names[k]) == names[k]
    {
      NormalizeFixedPoint(names[k]);
    }
  }

  /** The model is asked exactly the question typed, and is told exactly the
      columns SQLite reports, in order, when there is at least one and none holds
      a comma. */
  lemma RequestCarriesQuestionAndColumns(question: string, columns: seq<string>)
    requires |columns| >= 1
    requires forall k :: 0 <= k < |columns| ==> NoComma(columns[k])
    ensures BuildRequest(question, columns).messages[1].role == User
    ensures QuestionOf(BuildRequest(question, columns).messages[1].content) == Some(question)
    ensures ColumnsOf(BuildRequest(question, columns).messages[0].content) == Some(columns)
  {
    QuestionRoundTrip(question);
    ColumnsRoundTrip(columns);
  }

  /** Every question asked ends in exactly one of a result table or an error text,
      and every error text is a generating or a running error. */
  lemma AnswerIsTableOrError<Db, Cell>(
    read: Result<Frame<Cell>>, question: string,
    load: Frame<Cell> -> Result<Db>, schema: Db -> seq<string>,
    complete: Request -> Result<string>, run: (Db, string) -> Result<Frame<Cell>>)
    requires read.Ok? && question != ""
    ensures Respond(read, question, load, schema, complete, run).Loaded?
    ensures Respond(read, question, load, schema, complete, run).answer.Some?
    ensures Respond(read, question, load, schema, complete, run).answer.value.ErrorText? ==>
      var text := Respond(read, question, load, schema, complete, run).answer.value.text;
      GenerateError <= text || RunError <= text
  {
  }

  /** The preview and the answer are about the frame with normalized headers. */
  lemma RespondUsesNormalizedFrame<Db, Cell>(
    read: Result<Frame<Cell>>, question: string,
    load: Frame<Cell> -> Result<Db>, schema: Db -> seq<string>,
    complete: Request -> Result<string>, run: (Db, string) -> Result<Frame<Cell>>)
    requires read.Ok?
    ensures Respond(read, question, load, schema, complete, run).preview.columns
         == NormalizeColumns(read.value.columns)
    ensures question != "" ==>
      Respond(read, question, load, schema, complete, run).answer
        == Some(ExecuteSqlQueryChecked(question, UploadExcel(read).frame, load, schema, complete, run))
  {
  }

  // ---------------------------------------------------------------------------
  // A failed model call is run as a query.

  /** As written, a failed model call hands its error text to SQLite as the query
      to run. */
  lemma FailedGenerationIsRun<Db, Cell>(
    question: string, df: Frame<Cell>,
    load: Frame<Cell> -> Result<Db>, schema: Db -> seq<string>,
    complete: Request -> Result<string>, run: (Db, string) -> Result<Frame<Cell>>)
    requires load(df).Ok?
    requires complete(BuildRequest(question, schema(load(df).value))).Err?
    ensures GenerateSqlQuery(question, schema(load(df).value), complete)
         == GenerateError + complete(BuildRequest(question, schema(load(df).value))).message
    ensures var sql := GenerateError + complete(BuildRequest(question, schema(load(df).value))).message;
      ExecuteSqlQuery(question, df, load, schema, complete, run)
        == (if run(load(df).value, sql).Ok? then Table(run(load(df).value, sql).value)
            else ErrorText(RunError + run(load(df).value, sql).message))
  {
  }

  /** As written, a failed model call is reported as a running error, never under
      the generating prefix: every error text the query step returns starts with
      the running prefix. What the text after that prefix says is left to `run`,
      whose message is not modelled. */
  lemma GenerationErrorNeverShown<Db, Cell>(
    question: string, df: Frame<Cell>,
    load: Frame<Cell> -> Result<Db>, schema: Db -> seq<string>,
    complete: Request -> Result<string>, run: (Db, string) -> Result<Frame<Cell>>)
    ensures ExecuteSqlQuery(question, df, load, schema, complete, run).ErrorText? ==>
      !(GenerateError <= ExecuteSqlQuery(question, df, load, schema, complete, run).text)
  {
    var out := ExecuteSqlQuery(question, df, load, schema, complete, run);
    if out.ErrorText? {
      assert out.text[9] == RunError[9];
      assert GenerateError[9] != RunError[9];
    }
  }

  /** The query step as intended: a failed model call is reported as such and
      nothing is run. */
  function GenerateSqlChecked(question: string, columns: seq<string>,
                              complete: Request -> Result<string>): (sql: Result<string>)
    ensures sql.Ok? <==> complete(BuildRequest(question, columns)).Ok?
    ensures sql.Ok? ==> IsStripped(sql.value) && !Contains(sql.value, Fence)
    ensures sql.Err? ==> sql.message == GenerateError + complete(BuildRequest(question, columns)).message
  {
    match complete(BuildRequest(question, columns))
    case Ok(reply) => Ok(Clean(reply))
    case Err(e) => Err(GenerateError + e)
  }

  function ExecuteSqlQueryChecked<Db, Cell>(
    question: string, df: Frame<Cell>,
    load: Frame<Cell> -> Result<Db>, schema: Db -> seq<string>,
    complete: Request -> Result<string>, run: (Db, string) -> Result<Frame<Cell>>
  ): (out: Answer<Cell>)
    ensures load(df).Ok? && complete(BuildRequest(question, schema(load(df).value))).Err? ==>
      out == ErrorText(GenerateError + complete(BuildRequest(question, schema(load(df).value))).message)
    ensures out.Table? ==>
      && load(df).Ok?
      && complete(BuildRequest(question, schema(load(df).value))).Ok?
      && run(load(df).value, Clean(complete(BuildRequest(question, schema(load(df).value))).value)).Ok?
    ensures out.ErrorText? ==> GenerateError <= out.text || RunError <= out.text
  {
    match load(df)
    case Err(e) => ErrorText(RunError + e)
    case Ok(db) =>
      match GenerateSqlChecked(question, schema(db), complete)
      case Err(message) => ErrorText(message)
      case Ok(sql) =>
        match run(db, sql)
        case Ok(result) => Table(result)
        case Err(e) => ErrorText(RunError + e)
  }

  /** With the check, a failed model call is what the page shows, and whenever the
      model answers, the intended step and the written one agree. */
  lemma CheckedReportsGeneration<Db, Cell>(
    question: string, df: Frame<Cell>,
    load: Frame<Cell> -> Result<Db>, schema: Db -> seq<string>,
    complete: Request -> Result<string>, run: (Db, string) -> Result<Frame<Cell>>)
    requires load(df).Ok?
    ensures complete(BuildRequest(question, schema(load(df).value))).Err? ==>
      GenerateError <= ExecuteSqlQueryChecked(question, df, load, schema, complete, run).text
    ensures complete(BuildRequest(question, schema(load(df).value))).Ok? ==>
      ExecuteSqlQueryChecked(question, df, load, schema, complete, run)
        == ExecuteSqlQuery(question, df, load, schema, complete, run)
  {
  }
}
