# dbchatdarius core, modelled in Dafny

dbchatdarius is a Streamlit chat front-end. A user asks a question in plain language. The
application builds a prompt holding the database schema description and sends it to a
local language model. It pulls an SQL statement out of the model's free-form answer and
runs that statement against SQL Server. The question, the statement and the outcome (rows,
advice for an empty result, or an error) are kept as a conversation. Conversations can be
filed away, reopened, deleted, grouped by recency and searched by their summary.

This project models the parts of that program that hold logic:

- `strings.dfy` (module `Strings`): the Python string operations the core relies on. These
  are `str.strip()` and `str.lower()` on ASCII, and substring search (`in`, and the literal
  scans a regular-expression search performs).
- `sql_extraction.dfy` (module `SqlExtraction`): `extract_sql_from_response`. Its two
  regular-expression searches are written as explicit leftmost index searches, and each of
  the three tiers is characterised by a lemma.
- `conversation.dfy` (module `Conversation`): chat entries, the summary expression
  `msg.split('.')[0][:50] + "..."`, and the outcome of one question. The language-model call
  and the query are inputs. A chat is a `Chat` object.
- `sessions.dfy` (module `Sessions`): the session state, an active `Chat` plus the list of
  saved `Chat` references. It covers the new-chat, reopen and delete buttons, the
  question handler, grouping by day and the search filter. Chats are objects, so reopening a
  saved chat makes the active chat and that list entry the same object, as in the program.
- `schema_text.dfy` (module `SchemaText`): `get_db_schema` with the catalogue query results
  taken as input. It fills an insertion-ordered dictionary, then renders it as text.

Dates are whole day numbers, and the current day is a parameter.

## Model

| member | source | states |
|---|---|---|
| Strings.Strip | app.py:19-23 | the result is a contiguous piece of the input, with only whitespace removed before and after it and no whitespace left at either end |
| Strings.StripIdempotent | app.py:19-23 | stripping a stripped text changes nothing |
| Strings.StripAround | app.py:19 | whitespace around a trimmed core is exactly what strip removes |
| Strings.LowerStr | app.py:151 | lower-casing keeps the length and lowers each character on its own |
| Strings.Find | app.py:17-20 | the result is the leftmost occurrence at or after the start position, and None means there is no occurrence there |
| Strings.ContainsMeansOccurs | app.py:151 | `needle in hay` holds exactly when the needle occurs at some position |
| Strings.EmptyIsContained | app.py:151 | the empty string is contained in every text |
| SqlExtraction.FenceMatch | app.py:17 | finds a fenced block exactly when some "```sql" is followed by a non-overlapping "```"; the body runs from the first such opening fence to the nearest closing fence after it |
| SqlExtraction.KeywordAt | app.py:20 | reports a keyword exactly when one of the seven keywords matches there, ignoring case |
| SqlExtraction.KeywordOnlyOne | app.py:20 | at most one keyword can match at a position, so the order of the alternation does not matter |
| SqlExtraction.StatementFrom | app.py:20 | a found span starts with a keyword and ends at the first ';' after that keyword |
| SqlExtraction.StatementFromIsLeftmost | app.py:20 | the found span starts at the leftmost position where a keyword has a ';' after it; None means there is no such position |
| SqlExtraction.StatementMatch | app.py:20 | the keyword search succeeds exactly when some keyword has a later ';', and then returns the leftmost such span |
| SqlExtraction.ExtractSql | app.py:16-23 | the extractor is total and always returns a contiguous piece of its input |
| SqlExtraction.FencedBlockWins | app.py:17-19 | with a fence, the result is the stripped text between the first "```sql" and the next "```", whatever else the text holds |
| SqlExtraction.ProseAroundFence | app.py:17-19 | prose before the fence and anything after it are ignored |
| SqlExtraction.StatementTier | app.py:20-22 | without a fence, the result is the span from the leftmost keyword with a later ';' to that ';'; no keyword occurs before it, and the span's only ';' is its last character |
| SqlExtraction.SpanShape | app.py:20-22 | the statement span has no ';' before its last character and begins and ends with non-whitespace |
| SqlExtraction.FallbackTier | app.py:23 | with neither a fence nor a keyword followed by ';', the result is the stripped input |
| SqlExtraction.NoSemicolonFallsBack | app.py:20-23 | a fence-free text without ';' comes back stripped |
| SqlExtraction.BareStatementUnchanged | app.py:20-22 | a bare statement that starts with a keyword and ends at its only ';' comes back unchanged |
| SqlExtraction.PlainProseUnchanged | app.py:23 | trimmed prose without backticks or ';' comes back unchanged |
| SqlExtraction.FencedExample | app.py:17-19 | a worked fenced answer with prose yields its statement |
| SqlExtraction.BareExample | app.py:20-22 | a worked bare statement comes back unchanged |
| SqlExtraction.RefusalExample | app.py:23 | a worked refusal comes back as written |
| Conversation.Summary | app.py:180 | the summary is at most 53 characters and ends with "..."; before that it is a prefix of the message with no '.', and it is cut short only at 50 characters or at the first '.' |
| Conversation.SummaryNonEmpty | app.py:179-180 | a summary is never empty, so once set it is never replaced |
| Conversation.TurnOutcome | app.py:193-230 | a failed model call adds a single error entry. Otherwise the extracted SQL comes first, then an error exactly when the query fails, guidance exactly when it returns no rows, a result with the same table exactly when it returns rows, and nothing when it returns no frame |
| Conversation.TurnEndsOneWay | app.py:193-230 | a turn never adds a user entry, and it ends with the model's SQL exactly when the model answered and the query returned no frame |
| Conversation.FirstUser | app.py:116-119 | finds the first user entry at or after a position, and None means there is none |
| Conversation.ArchivedSummary | app.py:114-119 | an existing summary, or that of an empty chat, is kept; any new summary is the summary of the first user entry; a chat with no summary and some user entry always ends up with a non-empty one |
| Conversation.Chat.constructor | app.py:122-126 | a new chat has an empty history, an empty summary and today's date |
| Conversation.Chat.Respond | app.py:193-230 | the `try` block appends exactly the turn's outcome to the history and changes nothing else |
| Sessions.Bucket | app.py:139-145 | a chat goes to Today for today, to Yesterday for today−1 and to Last Week for today−7 ≤ day < today−1; any other day goes to no group |
| Sessions.Pick | app.py:137-146 | a group lists exactly the `(i, saved[i])` pairs whose day belongs to it, in ascending index order |
| Sessions.Matches | app.py:151 | an empty search term matches every summary, and a term longer than the summary matches none |
| Sessions.MatchesIgnoringCase | app.py:151 | the search matches exactly when the term occurs at some position of the summary with letter case ignored |
| Sessions.Filter | app.py:151 | keeps exactly the entries whose lower-cased summary contains the lower-cased term, as a subsequence in the same order and one result entry per matching position, so duplicates are kept as the list comprehension keeps them; an empty term keeps all |
| Sessions.RemoveAt | app.py:171 | `pop(i)` leaves the list one shorter, with the entries before i in place and the entries after i moved down by one |
| Sessions.ChatStore.constructor | app.py:88-99 | a session starts with the schema description, no saved chats and an empty active chat |
| Sessions.ChatStore.ArchiveActive | app.py:114-120 | a chat with history is appended to the saved list after it gets a summary from its first question if it had none; an empty chat is not filed; the schema description is unchanged |
| Sessions.ChatStore.NewChat | app.py:113-126 | the saved list grows by exactly the old active chat when that chat has history and is unchanged otherwise; the active chat becomes a fresh, empty chat dated today; the filed chat keeps its date; the schema description is unchanged |
| Sessions.ChatStore.SwitchTo | app.py:157-168 | the active chat is filed as by NewChat; then saved chat i becomes the active chat while staying in the list, so the list never shrinks; the filed chat keeps its date; the schema description is unchanged |
| Sessions.ChatStore.Delete | app.py:170-171 | exactly entry i is removed and the others keep their order; the active chat and the schema description are unchanged |
| Sessions.ChatStore.GroupByDate | app.py:132-146 | the three groups are exactly the per-group selections of the saved list, no index is in two groups, and nothing is modified |
| Sessions.ChatStore.Sidebar | app.py:148-154 | each listed group is its date group filtered by the search term |
| Sessions.ChatStore.Turn | app.py:177-230 | an empty input changes nothing. Otherwise the history becomes the old history, then the question, then the turn's outcome; the summary is set from the question only when it was empty |
| Sessions.ChatStore.ReopenAskAndStartOver | app.py:165-168 | reopening saved chat i, asking in it and starting a new chat files the same object again: it is both `saved[i]` and the last saved entry, and both show the new question; the schema description is unchanged |
| SchemaText.Assign | db_connector.py:36 | dictionary assignment keeps the keys distinct and each key once; a new key goes last, an old key keeps its place and takes the new columns, and other keys are untouched |
| SchemaText.Collect | db_connector.py:24-36 | the dictionary built from the catalogue lists each key once and maps every listed key |
| SchemaText.CollectKeys | db_connector.py:31-36 | the keys are exactly the table names in the catalogue |
| SchemaText.CollectOrder | db_connector.py:31-36 | keys appear in the order their tables were first listed |
| SchemaText.CollectLastWins | db_connector.py:36 | a table listed more than once carries the columns of its last row |
| SchemaText.Join | db_connector.py:43 | joining no columns gives the empty text; otherwise the text starts with the first column and is as long as the names plus two characters per separator |
| SchemaText.JoinRoundTrip | db_connector.py:35-43 | comma-free column names can be read back, in order, from the joined text, so the line keeps the column order |
| SchemaText.Line | db_connector.py:43 | a table's line is six characters longer than its name and joined columns |
| SchemaText.LineShape | db_connector.py:43 | a line starts with "- " and the table name and ends with ")" and a newline; with newline-free names, that newline is its only one |
| SchemaText.Render | db_connector.py:41-45 | the text begins with "Tables:\n" and is exactly that when there are no tables |
| SchemaText.LinePerTable | db_connector.py:42-43 | without newlines in names, the text has one line for the header plus exactly one per table |
| SchemaText.SingleTable | db_connector.py:41-45 | a one-table catalogue renders as the header followed by that table's line |
| SchemaText.TableWithoutColumns | db_connector.py:43 | a table without columns renders as "- name ()\n" |
| SchemaText.Format | db_connector.py:41-45 | the formatting loop produces the rendering of the dictionary |
| SchemaText.GetDbSchema | db_connector.py:24-45 | the whole function produces the rendering of the dictionary collected from the catalogue |

## Left out

- Streamlit rendering, HTML and CSS, sidebar widgets, expanders and `st.rerun` (app.py:32-85, 102-111, 233-275) are user interface. Each button press or question is modelled as one method call, not as a whole script run.
- Loading icons and encoding them in base64 (app.py:11-13, 26-30) is file I/O.
- The TXT and Excel export of results (app.py:253-264) relies on pandas and xlsxwriter.
- llama_connector.py is not part of this model. The model call is an input, `LlamaReply`: an answer text, or a failure with its message.
- The prompt text (app.py:182-190) is a fixed template. The model's reply is not tied to it, so `ChatStore.schema` is stored but not read.
- `connect_db`, `pyodbc` and `pd.read_sql` (db_connector.py:9-16, 48-50) are database I/O. Running a query is a function input, `runQuery`, which returns a frame, no frame, or a failure. The catalogue queries are replaced by their result rows. The table name pasted into the column query is not modelled.
- A DataFrame is reduced to column names and rows of strings. Only its row count affects the outcome.
- Exceptions are failure values carrying the message that `str(e)` would give. The kind of exception and its text are not modelled.
- `datetime.now`, timestamp strings, `strptime` and `timedelta` (app.py:98, 125, 133-139) are replaced by whole day numbers. The time of day is dropped.
- Strings.Strip, Strings.LowerStr and SqlExtraction.KeywordAt cover ASCII only. Python's `strip` also removes non-ASCII whitespace such as U+00A0, and `lower` folds non-ASCII letters. With `re.IGNORECASE`, Python's regex also matches 'ſ' (U+017F) against the S of the keywords and both the dotless 'ı' (U+0131) and the dotted 'İ' (U+0130) against the I of INSERT. None of that is modelled.
- Sessions.ChatStore.Delete and Sessions.ChatStore.SwitchTo require a valid index. The program only passes indices it has just taken from `enumerate` over the saved list.
- The keyword search is lazy: `.*?` stops at the first ';' after the keyword (app.py:20). The model does the same.
- The summary is set whenever it is still empty, not only for a chat's first question (app.py:115, 179-180). The model does the same.
