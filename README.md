# Spreadsheet question app: verified model of its string transforms

`App.py` is a small Streamlit app. It reads an Excel sheet, cleans up the
column headers and loads the sheet into an in-memory SQLite table `data_table`.
It then asks an OpenAI chat model to turn a typed question into SQL, cleans the
reply and runs it. The page shows the result table or an error text.

This project models that app in Dafny and proves properties of the model.
Five modules, one file each:

- `Text` (`text.dfy`) models the Python `str` operations the app relies on:
  - `strip()`, over the full `str.isspace()` set;
  - `replace(old, new)` as a leftmost, non-overlapping replace-all, including an empty pattern;
  - `sep.join(parts)`, `split(sep)` and the `in` substring test.
- `HeaderNormalizer` (`header_normalizer.dfy`) models the header rewrite
  `df.columns.str.replace(r"\W+", "_", regex=True).str.lower()`. Each maximal
  run of non-word characters becomes one `_`, then the name is lowercased.
- `Prompt` (`prompt.dfy`) builds the chat request: the `gpt-4-turbo` model,
  a system message and a user message.
  - The system message names `` `data_table` `` and lists the columns joined by `", "`.
  - The user message is `"Generate an SQL query to answer: "` followed by the question.
- `ResponseCleaner` (`response_cleaner.dfy`) models the reply clean-up. It
  strips, deletes every "```sql", deletes every remaining "```", then strips again.
- `Pipeline` (`pipeline.dfy`) models `upload_excel`, `generate_sql_query`,
  `execute_sql_query` and the part of `main` that decides what the page shows.
  - Five outside calls are function parameters: reading the file, the model
    call, loading the table, reading its column names back and running a query.
  - Reading the column names back returns the names. Each of the other four
    returns either a value or the text of the exception it raised.

The model follows the code as written. In particular:

- Headers that normalize to the same name are not told apart (no suffix is added).
- Fence removal is case-sensitive, so "```SQL" leaves "SQL" in the query.
- An empty question issues nothing, but a question of only spaces is sent.
- The generated SQL is not checked or rewritten before it is run.

## Model

| member | source | states |
|---|---|---|
| Text.Strip | App.py:49-50 | `strip()` leaves no whitespace at either end and never lengthens the text |
| Text.StripTrims | App.py:49-50 | `strip()` only removes a whitespace prefix and a whitespace suffix |
| Text.StripUnique | App.py:49-50 | the stripped text is the only stripped string obtainable by cutting whitespace off both ends, so `Strip` is fully determined by that description |
| Text.StripKeepsPrefix | App.py:49-50 | a non-empty prefix with no whitespace at its ends survives `strip()` |
| Text.StripFixedPoint | App.py:49-50 | `strip()` leaves a string unchanged exactly when it has no whitespace at either end |
| Text.ReplaceAllAbsent | App.py:50 | `replace` with a pattern that does not occur returns the string unchanged |
| Text.ReplaceAllHead | App.py:50 | a match at the front is replaced and the scan resumes right after it |
| Text.ReplaceAllTail | App.py:50 | text that cannot start a match is copied, and a match right after it is replaced |
| Text.SplitJoin | App.py:43 | splitting a `", "`-joined list gives back the pieces, when there is at least one piece and none contains the separator's first character |
| HeaderNormalizer.LowerChar | App.py:23 | lowercasing one character yields no upper-case letter, keeps word-ness, shifts `A`-`Z` onto `a`-`z` and leaves the rest alone |
| HeaderNormalizer.Lower | App.py:23 | `lower()` keeps the length and lowers each character in place |
| HeaderNormalizer.DropRun | App.py:23 | `\W+` consumes exactly the maximal run of non-word characters at the front |
| HeaderNormalizer.CollapseNonWord | App.py:23 | after `re.sub(r"\W+", "_")` only word characters remain, the text is no longer, and it is empty exactly when the input is |
| HeaderNormalizer.Normalize | App.py:23 | a normalized header holds only word characters and no upper-case letter, is no longer than the header, and is empty exactly when the header is |
| HeaderNormalizer.NormalizeColumns | App.py:23 | every header is normalized in place, order and count kept |
| HeaderNormalizer.NormalizeByPosition | App.py:23 | equal to a position-by-position description: each word character lowercased, one `_` where a non-word run starts, nothing for the rest of the run |
| HeaderNormalizer.NormalizeRun | App.py:23 | a maximal non-word run between word characters becomes exactly one `_`, and the word characters before it are kept in order, lowercased |
| HeaderNormalizer.CollapseWordsOnly | App.py:23 | a header of word characters only is just lowercased |
| HeaderNormalizer.NormalizeFixedPoint | App.py:23 | normalization leaves a name unchanged exactly when the name has only word characters and no upper-case letter |
| HeaderNormalizer.NormalizeIdempotent | App.py:23 | normalizing twice equals normalizing once |
| HeaderNormalizer.NormalizeSeparated | App.py:23 | two words joined by one non-word character normalize to the lowered words joined by `_` |
| HeaderNormalizer.NormalizeCollides | App.py:23 | normalization is not injective: headers that differ only in the non-word separator, such as "Total Sales" and "Total-Sales", get the same column name, with no disambiguation |
| Prompt.RoleName | App.py:40-45 | the system message carries role `system`, the user message role `user` |
| Prompt.SystemContent | App.py:40-43 | the system message is the fixed instructions naming the table, followed by the column list joined by `", "` |
| Prompt.UserContent | App.py:45 | the user message starts with the fixed prefix and is exactly prefix plus question in length |
| Prompt.BuildMessages | App.py:39-46 | exactly two messages, the system message first and the user message second |
| Prompt.BuildRequest | App.py:37-47 | the request names the model `gpt-4-turbo` and carries those two messages |
| Prompt.QuestionOf | App.py:45 | the inverse of the user message: present exactly when the text starts with the prefix, and prefix plus result is the text |
| Prompt.ColumnsOf | App.py:43 | the inverse of the system message: present exactly when the text starts with the fixed instructions |
| Prompt.QuestionRoundTrip | App.py:45 | the question can be read back unchanged from the user message |
| Prompt.UserContentInjective | App.py:45 | different questions give different user messages |
| Prompt.ColumnsRoundTrip | App.py:43 | the column names can be read back, in order, from the system message when there is at least one and none holds a comma |
| Prompt.NormalizedColumnsListed | App.py:43 | for normalized headers, the system message lists exactly those names in order |
| Prompt.SystemNamesTable | App.py:43 | the system message names `` `data_table` ``, the table the sheet is loaded into |
| ResponseCleaner.Clean | App.py:49-50 | the cleaned query has no whitespace at either end and contains no "```" anywhere |
| ResponseCleaner.RemoveFenceInvariant | App.py:50 | deleting every "```" leaves the leading backtick run at its length modulo 3 and no "```" anywhere, even where a deletion brings backticks together |
| ResponseCleaner.RemoveFenceLeavesNone | App.py:50 | after `.replace("```", "")` no "```" remains |
| ResponseCleaner.CleanIdempotent | App.py:49-50 | cleaning a cleaned query changes nothing |
| ResponseCleaner.CleanWithoutBackticks | App.py:49-50 | a reply without backticks is only stripped |
| ResponseCleaner.CleanSqlFenced | App.py:49-50 | a reply "```sql" + whitespace + query + whitespace + "```", where the query has no backticks and no whitespace at its ends, is cleaned to exactly the query |
| ResponseCleaner.CleanExample | App.py:49-50 | "```sql\nSELECT 1\n```" is cleaned to "SELECT 1" |
| ResponseCleaner.CleanPlainFenced | App.py:49-50 | a reply between plain "```" fences, whose body has no backticks and does not start with "sql", is cleaned to the stripped body |
| ResponseCleaner.CleanUpperCaseTag | App.py:49-50 | the tag is matched case-sensitively: a reply "```SQL" + body + "```", newlines included, is cleaned to the stripped "SQL" + body, so "SQL" stays in front of the query |
| ResponseCleaner.CleanUpperCaseTagExact | App.py:49-50 | when the body after "```SQL" ends in no whitespace, the cleaned text is exactly "SQL" followed by the body |
| ResponseCleaner.CleanPlainFencedTagged | App.py:49-50 | any non-empty tag without whitespace at its ends that opens a plain-fenced body stays at the front of the cleaned text |
| Pipeline.UploadExcel | App.py:20-26 | a read sheet keeps its rows and gets normalized headers; a failed read becomes "❌ Error reading file: " plus the error text |
| Pipeline.GenerateSqlQuery | App.py:35-53 | a model reply is returned cleaned, so stripped and fence-free; a failed call returns "❌ Error generating SQL: " plus the error text in place of a query |
| Pipeline.ExecuteSqlQuery | App.py:56-74 | the answer is a table exactly when loading and running the generated text both succeed, and then it is the run's table; every error text starts with "❌ Error running SQL query: " |
| Pipeline.Head | App.py:87 | the preview keeps the columns and the first five rows, or all rows when there are fewer |
| Pipeline.Respond | App.py:83-98 | the page shows a file error exactly when reading failed, and shows an answer exactly when the question is not empty; the answer comes from the corrected query step (see Findings) |
| Pipeline.UploadNormalizes | App.py:22-24 | uploaded headers are all normal names, and normalizing them again changes nothing |
| Pipeline.RequestCarriesQuestionAndColumns | App.py:61-67 | the model is asked exactly the typed question and told exactly the column names SQLite reports, in order |
| Pipeline.AnswerIsTableOrError | App.py:91-96 | every non-empty question on a read sheet ends in exactly one answer, a table or an error text, and every error text is a generating or a running error |
| Pipeline.RespondUsesNormalizedFrame | App.py:84-92 | the preview and the query step both work on the sheet with normalized headers |
| Pipeline.FailedGenerationIsRun | App.py:67-70 | as written, a failed model call sends its error text to SQLite as the query to run |
| Pipeline.GenerationErrorNeverShown | App.py:67-74 | as written, a failed model call is reported as a running error, never under the generating prefix: every error text the query step returns starts with the running prefix |
| Pipeline.GenerateSqlChecked | App.py:35-53 | as intended: a failed model call is reported as an error, not returned as a query; a reply is cleaned |
| Pipeline.ExecuteSqlQueryChecked | App.py:56-74 | as intended: a failed model call shows the generating error; a table means loading, the model call and running the cleaned reply all succeeded; every error text is a generating or a running error |
| Pipeline.CheckedReportsGeneration | App.py:56-74 | the intended query step reports a failed model call, and agrees with the written one whenever the model answers |

## Left out

- The Streamlit page itself is not modelled: title, text, file uploader, text input, rendering and the `__main__` entry (App.py:77-82, 100-102). `Pipeline.Respond` starts once a file was uploaded and returns what the page would show.
- Pipeline.Respond: uses the corrected query step `Pipeline.ExecuteSqlQueryChecked`, so a failed model call shows the generating error. The written step, `Pipeline.ExecuteSqlQuery`, is modelled and proved about separately (see Findings).
- The API-key bootstrap is not modelled: `.env` loading, the missing-key error and `st.stop()` (App.py:9-17). These are process configuration.
- `pd.read_excel`, the OpenAI client, the SQLite connection (`load_data_into_sqlite`, `to_sql`, `PRAGMA table_info`, `read_sql_query`) and `conn.close()` are foreign code with no visible semantics. They are function parameters, and an exception is an `Err` carrying its message text.
- Pipeline.ExecuteSqlQuery: the column names read back through `PRAGMA table_info` are a total function of the loaded database, so that read cannot fail in the model. What SQLite does with two columns that normalize to the same name is whatever the `load` parameter returns.
- Pipeline.GenerateSqlQuery: a reply whose content is `None` is modelled as a failed call, because `.strip()` would raise.
- HeaderNormalizer.IsWordChar: `\w` and `lower()` cover ASCII only. Python's Unicode-aware `\w` would keep non-ASCII letters and digits, and its `lower()` would map them. Here they count as non-word characters.
- HeaderNormalizer.Normalize: headers are strings. The pandas `.str` accessor turns non-string labels into NaN or raises, and that is not modelled.
- Prompt.ColumnsRoundTrip: needs at least one column. With no columns the list is empty text, and splitting it gives one empty name, as Python's `"".split(", ")` does.
- Collision disambiguation, case-insensitive fence removal, rewriting leaked original header names, rejecting an empty cleaned query, and validating the query as a single read-only statement are absent from `App.py`. The model does not add them.

## Findings

| source | as written | input that shows it | evidently intended | confidence | as-written member | corrected member |
|---|---|---|---|---|---|---|
| App.py:53-70 | `generate_sql_query` returns its error text in place of a query, and `execute_sql_query` passes that text to `read_sql_query` | the model call raises with message e: SQLite is asked to run "❌ Error generating SQL: e", and the failure is reported as a running error, under "❌ Error running SQL query: ", never under the generating prefix; the text after that prefix is whatever `run` reports, which the model leaves abstract | show the generating error and run nothing | medium; not executed | Pipeline.GenerationErrorNeverShown | Pipeline.CheckedReportsGeneration |
