/**
 * The chat request sent to the language model: a system message that names the
 * table and lists its columns joined by ", ", then a user message that is a
 * fixed prefix followed by the question, unchanged.
 */
module Prompt {
  import opened Text
  import opened HeaderNormalizer

  /** The table the spreadsheet is loaded into and the prompt names. */
  const TableName := "data_table"
  const ModelName := "gpt-4-turbo"

  const Intro := "You are an AI that generates correct SQL queries for SQLite. "
  const Instruction := "Return only the SQL query without explanations."
  const TableIntro := "\n\nThe table "
  const ColumnsIntro := " has the following columns: "
  /** The quoted table name as it appears in the system message. */
  const QuotedTable := "`" + TableName + "`"
  /** Everything of the system message before the column list. */
  const Preamble := Intro + Instruction + TableIntro + QuotedTable + ColumnsIntro
  const ColumnSeparator := ", "
  const UserPrefix := "Generate an SQL query to answer: "

  datatype Role = System | User
  datatype Message = Message(role: Role, content: string)
  datatype Request = Request(model: string, messages: seq<Message>)
  datatype Option<T> = None | Some(value: T)

  /** The wire name of a role. */
  function RoleName(r: Role): (name: string)
    ensures name == "system" || name == "user"
    ensures (name == "system") <==> r.System?
  {
    match r
    case System => "system"
    case User => "user"
  }

  /** The system message's text for the given column names. */
  function SystemContent(columns: seq<string>): (content: string)
    ensures Preamble <= content
    ensures content[|Preamble|..] == Join(columns, ColumnSeparator)
  {
    var joined := Join(columns, ColumnSeparator);
    assert (Preamble + joined)[|Preamble|..] == joined;
    Preamble + joined
  }

  /** The user message's text for a question. */
  function UserContent(question: string): (content: string)
    ensures UserPrefix <= content
    ensures |content| == |UserPrefix| + |question|
  {
    UserPrefix + question
  }

  /** The two messages, system first. */
  function BuildMessages(question: string, columns: seq<string>): (messages: seq<Message>)
    ensures |messages| == 2
    ensures messages[0].role == System && messages[1].role == User
    ensures messages[0].content == SystemContent(columns)
    ensures messages[1].content == UserContent(question)
  {
    [Message(System, SystemContent(columns)), Message(User, UserContent(question))]
  }

  /** The request for a question about a table with the given columns. */
  function BuildRequest(question: string, columns: seq<string>): (request: Request)
    ensures request.model == ModelName
    ensures request.messages == BuildMessages(question, columns)
  {
    Request(ModelName, BuildMessages(question, columns))
  }

  // ---------------------------------------------------------------------------
  // Reading the question and the columns back out of the messages.

  /** The question carried by a user message, if it has the fixed prefix. */
  function QuestionOf(content: string): (question: Option<string>)
    ensures question.Some? <==> UserPrefix <= content
    ensures question.Some? ==> content == UserPrefix + question.value
  {
    if UserPrefix <= content then
      assert content == UserPrefix + content[|UserPrefix|..];
      Some(content[|UserPrefix|..])
    else None
  }

  /** The column list carried by a system message, if it has the preamble. */
  function ColumnsOf(content: string): (columns: Option<seq<string>>)
    ensures columns.Some? <==> Preamble <= content
  {
    if Preamble <= content then Some(Split(content[|Preamble|..], ColumnSeparator))
    else None
  }

  /** The question reaches the model unchanged: it can be read back from the user
      message. */
  lemma QuestionRoundTrip(question: string)
    ensures QuestionOf(UserContent(question)) == Some(question)
  {
    assert (UserPrefix + question)[|UserPrefix|..] == question;
  }

  /** Different questions give different user messages. */
  lemma UserContentInjective(a: string, b: string)
    ensures UserContent(a) == UserContent(b) ==> a == b
  {
    QuestionRoundTrip(a);
    QuestionRoundTrip(b);
  }

  /** A column name with a comma would break the list apart. */
  predicate NoComma(name: string)
  {
    forall k :: 0 <= k < |name| ==> name[k] != ','
  }

  /** The column names can be read back, in order, from the system message as long
      as there is at least one and none holds a comma. */
  lemma ColumnsRoundTrip(columns: seq<string>)
    requires |columns| >= 1
    requires forall k :: 0 <= k < |columns| ==> NoComma(columns[k])
    ensures ColumnsOf(SystemContent(columns)) == Some(columns)
  {
    forall k | 0 <= k < |columns|
      ensures ColumnSeparator[0] !in columns[k]
    {
      assert NoComma(columns[k]);
    }
    SplitJoin(columns, ColumnSeparator);
  }

  /** Normalized headers never hold a comma, so the system message lists exactly
      the normalized columns, in order. */
  lemma NormalizedColumnsListed(question: string, headers: seq<string>)
    requires |headers| >= 1
    ensures ColumnsOf(BuildMessages(question, NormalizeColumns(headers))[0].content)
         == Some(NormalizeColumns(headers))
  {
    var names := NormalizeColumns(headers);
    forall k | 0 <= k < |names|
      ensures NoComma(names[k])
    {
      forall j | 0 <= j < |names[k]|
        ensures names[k][j] != ','
      {
        assert IsWordChar(names[k][j]);
      }
    }
    ColumnsRoundTrip(names);
  }

  /** The system message names the table, quoted in backticks. */
  lemma SystemNamesTable(columns: seq<string>)
    ensures Contains(SystemContent(columns), QuotedTable)
  {
    var before := Intro + Instruction + TableIntro;
    var content := SystemContent(columns);
    assert content == before + QuotedTable + (ColumnsIntro + Join(columns, ColumnSeparator));
    assert content[|before|..][..|QuotedTable|] == QuotedTable;
  }
}
