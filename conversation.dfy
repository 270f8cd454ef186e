/** One conversation of the chat front-end (app.py): the role-tagged entries of its
    history, its derived summary, and what a single question appends to it. The
    language-model call and the database query are not modelled; they are inputs
    (what the model answered, or why it failed; what the query returned for a given
    SQL text). */
module Conversation {
  import opened Strings
  import SqlExtraction

  /** A materialised result set: column names and rows. `len(df)` is |rows|. */
  datatype Table = Table(columns: seq<string>, rows: seq<seq<string>>)

  /** A history entry; the constructor is the entry's "role". */
  datatype Entry =
    | User(text: string)        // the question as typed
    | Llama(sql: string)        // the SQL extracted from the model's answer
    | Guidance(html: string)    // the fixed advice shown for an empty result
    | Result(table: Table)      // a non-empty result set
    | Error(text: string)       // "Error: " followed by the failure's message

  /** What the language-model call did. */
  datatype LlamaReply = Answer(text: string) | LlamaFailure(message: string)

  /** What running one SQL text did: a data frame, no frame at all, or a failure. */
  datatype QueryReply = Frame(table: Table) | NoFrame | QueryFailure(message: string)

  const ERROR_PREFIX := "Error: "
  const ELLIPSIS := "..."
  const SUMMARY_WIDTH := 50

  /** The advice appended when a query returns no rows (app.py:207-215). */
  const GUIDANCE :=
    "\n"
    + "                        <div><strong>\U{1F50D} No results found</strong><br><br>\n"
    + "                        Try being more specific with:<br>\n"
    + "                        • Brand names (e.g., \"Dell\")<br>\n"
    + "                        • Exact specs (e.g., \"Ryzen 7\")<br>\n"
    + "                        • Filters (e.g., \"with 16GB RAM\")<br><br>\n"
    + "                        Example: \"Show me Dell laptops with Ryzen 7 CPUs and 16GB RAM\"\n"
    + "                        </div>\n"
    + "                        "

  /** `msg.split('.')[0][:50] + "..."`: the text before the first '.', cut to at most
      50 characters, with an ellipsis always appended. */
  function Summary(msg: string): (r: string)
    ensures SUMMARY_WIDTH + |ELLIPSIS| >= |r| >= |ELLIPSIS|
    ensures r[|r| - |ELLIPSIS|..] == ELLIPSIS
    ensures
      var head := r[..|r| - |ELLIPSIS|];
      && |head| <= |msg| && head == msg[..|head|]
      && '.' !in head
      && (|head| < SUMMARY_WIDTH ==> |head| == |msg| || msg[|head|] == '.')
  {
    var first := match Find(".", msg, 0)
      case Some(i) => msg[..i]
      case None => msg;
    assert '.' !in first by {
      forall j | 0 <= j < |first| ensures first[j] != '.' {
        assert !OccursAt(".", msg, j);
        assert msg[j..j + 1] == [msg[j]];
      }
    }
    assert Find(".", msg, 0).Some? ==> msg[|first|..|first| + 1] == ".";
    var head := if |first| <= SUMMARY_WIDTH then first else first[..SUMMARY_WIDTH];
    assert (head + ELLIPSIS)[..|head|] == head;
    head + ELLIPSIS
  }

  /** A summary is never empty, so once set it is never replaced. */
  lemma SummaryNonEmpty(msg: string)
    ensures Summary(msg) != []
  {
  }

  /** The entries one answered or failed model call adds after the user's entry
      (app.py:193-230). */
  function TurnOutcome(reply: LlamaReply, runQuery: string -> QueryReply): (r: seq<Entry>)
    ensures 1 <= |r| <= 2
    // the model failed: a single error entry and nothing else
    ensures reply.LlamaFailure? <==> r[0].Error?
    ensures reply.LlamaFailure? ==> r == [Error(ERROR_PREFIX + reply.message)]
    // the model answered: its extracted SQL comes first, then the query's outcome
    ensures reply.Answer? ==> r[0] == Llama(SqlExtraction.ExtractSql(reply.text))
    ensures reply.Answer? ==>
      var q := runQuery(SqlExtraction.ExtractSql(reply.text));
      && (|r| == 1 <==> q.NoFrame?)
      && (|r| == 2 && r[1].Error? <==> q.QueryFailure?)
      && (|r| == 2 && r[1].Guidance? <==> q.Frame? && |q.table.rows| == 0)
      && (|r| == 2 && r[1].Result? <==> q.Frame? && |q.table.rows| > 0)
      && (|r| == 2 && r[1].Result? ==> r[1].table == q.table)
      && (|r| == 2 && r[1].Guidance? ==> r[1].html == GUIDANCE)
      && (|r| == 2 && r[1].Error? ==> r[1].text == ERROR_PREFIX + q.message)
  {
    match reply
    case LlamaFailure(e) => [Error(ERROR_PREFIX + e)]
    case Answer(text) =>
      var sql := SqlExtraction.ExtractSql(text);
      [Llama(sql)] +
        match runQuery(sql)
        case QueryFailure(e) => [Error(ERROR_PREFIX + e)]
        case NoFrame => []
        case Frame(t) => if |t.rows| == 0 then [Guidance(GUIDANCE)] else [Result(t)]
  }

  /** A turn adds no user entry, and it ends with the model's SQL exactly when the query
      returned no frame. */
  lemma TurnEndsOneWay(reply: LlamaReply, runQuery: string -> QueryReply)
    ensures
      var r := TurnOutcome(reply, runQuery);
      && (forall k :: 0 <= k < |r| ==> !r[k].User?)
      && (r[|r| - 1].Llama? <==> reply.Answer? && runQuery(SqlExtraction.ExtractSql(reply.text)).NoFrame?)
  {
    if reply.Answer? {
      var q := runQuery(SqlExtraction.ExtractSql(reply.text));
      assert q.NoFrame? || q.QueryFailure? || q.Frame?;
    }
  }

  /** The index of the first user entry at or after `from`. */
  function FirstUser(history: seq<Entry>, from: nat): (r: Option<nat>)
    ensures r.Some? ==> from <= r.value < |history| && history[r.value].User?
    ensures forall j :: from <= j < |history| && (r.None? || j < r.value) ==> !history[j].User?
    decreases |history| - from
  {
    if from >= |history| then None
    else if history[from].User? then Some(from)
    else FirstUser(history, from + 1)
  }

  /** The summary an archived chat ends up with (app.py:114-119): kept when already
      set or when the history is empty, otherwise taken from the first user entry. */
  function ArchivedSummary(summary: string, history: seq<Entry>): (r: string)
    ensures summary != [] || history == [] ==> r == summary
    ensures r != summary ==>
      exists k :: 0 <= k < |history| && history[k].User? && r == Summary(history[k].text)
        && forall j :: 0 <= j < k ==> !history[j].User?
    ensures summary == [] && (exists k :: 0 <= k < |history| && history[k].User?) ==> r != []
  {
    if history == [] || summary != [] then summary
    else match FirstUser(history, 0)
      case Some(k) => Summary(history[k].text)
      case None => summary
  }

  /** A conversation: `{"history": [...], "summary": "...", "timestamp": ...}`. The
      timestamp is kept as a day number. */
  class Chat {
    var history: seq<Entry>
    var summary: string
    var timestamp: int

    constructor (today: int)
      ensures history == [] && summary == [] && timestamp == today
    {
      history, summary, timestamp := [], [], today;
    }

    /** The `try` block of a turn (app.py:193-230): the model's SQL, then the query's
        outcome, or an error entry for whichever call failed. */
    method Respond(reply: LlamaReply, runQuery: string -> QueryReply)
      modifies this
      ensures history == old(history) + TurnOutcome(reply, runQuery)
      ensures summary == old(summary) && timestamp == old(timestamp)
    {
      match reply {
        case LlamaFailure(e) =>
          history := history + [Error(ERROR_PREFIX + e)];
        case Answer(text) =>
          var sql := SqlExtraction.ExtractSql(text);
          history := history + [Llama(sql)];
          match runQuery(sql) {
            case QueryFailure(e) =>
              history := history + [Error(ERROR_PREFIX + e)];
            case NoFrame =>
            case Frame(table) =>
              if |table.rows| == 0 {
                history := history + [Guidance(GUIDANCE)];
              } else {
                history := history + [Result(table)];
              }
          }
      }
    }
  }
}
