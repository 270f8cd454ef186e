/** The session state of the chat front-end (app.py:87-230): one active chat and the
    list of saved chats, both holding references to `Chat` objects, so that the
    aliasing the application creates when it reopens a saved chat is kept. Each
    button press or submitted question is one method call; the current day is passed
    in as a day number. */
module Sessions {
  import opened Strings
  import opened Conversation
  import SchemaText

  /** The three sidebar groups, in the order they are rendered. */
  datatype Group = Today | Yesterday | LastWeek

  /** Each group lists `(index into saved chats, chat)` pairs. */
  datatype Groups = Groups(today: seq<(nat, Chat)>, yesterday: seq<(nat, Chat)>, lastWeek: seq<(nat, Chat)>)

  /** When a chat dated `day` belongs to group `g`, by the calendar. */
  predicate InGroup(day: int, today: int, g: Group) {
    match g
    case Today => day == today
    case Yesterday => day == today - 1
    case LastWeek => today - 7 <= day < today - 1
  }

  /** The `if / elif / elif` that files one saved chat (app.py:139-145). */
  function Bucket(day: int, today: int): (r: Option<Group>)
    ensures forall g :: r == Some(g) <==> InGroup(day, today, g)
    ensures r.None? <==> day < today - 7 || today < day
  {
    if day == today then Some(Today)
    else if day == today - 1 then Some(Yesterday)
    else if today - 7 <= day < today - 1 then Some(LastWeek)
    else None
  }

  /** The `(i, chat)` pairs of `chats` that fall in group `g`, in list order. */
  function Pick(chats: seq<Chat>, today: int, g: Group): (r: seq<(nat, Chat)>)
    reads chats
    ensures forall k :: 0 <= k < |r| ==>
      r[k].0 < |chats| && r[k].1 == chats[r[k].0] && InGroup(chats[r[k].0].timestamp, today, g)
    ensures forall i :: 0 <= i < |chats| && InGroup(chats[i].timestamp, today, g) ==> (i, chats[i]) in r
    ensures forall k, l :: 0 <= k < l < |r| ==> r[k].0 < r[l].0
    decreases |chats|
  {
    if chats == [] then []
    else
      var n := |chats| - 1;
      var front := Pick(chats[..n], today, g);
      front + if Bucket(chats[n].timestamp, today) == Some(g) then [(n, chats[n])] else []
  }

  /** No saved-chat index is listed in both `a` and `b`. */
  predicate Disjoint(a: seq<(nat, Chat)>, b: seq<(nat, Chat)>) {
    forall k, l :: 0 <= k < |a| && 0 <= l < |b| ==> a[k].0 != b[l].0
  }

  /** `search_term.lower() in summary.lower()`. */
  predicate Matches(term: string, summary: string): (r: bool)
    ensures term == [] ==> r
    ensures r ==> |term| <= |summary|
  {
    EmptyIsContained(LowerStr(summary));
    assert LowerStr([]) == [];
    Contains(LowerStr(summary), LowerStr(term))
  }

  /** `term` occurs at `i` in `summary` when letter case is ignored. */
  predicate MatchesAt(term: string, summary: string, i: int) {
    0 <= i && i + |term| <= |summary| && forall k :: 0 <= k < |term| ==> Lower(summary[i + k]) == Lower(term[k])
  }

  /** The search matches exactly when the term occurs somewhere in the summary, letter
      case ignored. */
  lemma MatchesIgnoringCase(term: string, summary: string)
    ensures Matches(term, summary) <==> exists i :: MatchesAt(term, summary, i)
  {
    var t, s := LowerStr(term), LowerStr(summary);
    ContainsMeansOccurs(s, t);
    forall i ensures OccursAt(t, s, i) <==> MatchesAt(term, summary, i) {
      if 0 <= i && i + |t| <= |s| {
        var w := s[i..i + |t|];
        assert forall k :: 0 <= k < |t| ==> w[k] == s[i + k];
      }
    }
  }

  /** `a` is `b` with some elements dropped and the rest in the same order. */
  predicate IsSubsequence<T(==)>(a: seq<T>, b: seq<T>)
    decreases |b|
  {
    a == [] || (b != [] && ((a[0] == b[0] && IsSubsequence(a[1..], b[1..])) || IsSubsequence(a, b[1..])))
  }

  function ChatsOf(chats: seq<(nat, Chat)>): set<Chat> {
    set k | 0 <= k < |chats| :: chats[k].1
  }

  lemma ChatsOfTail(chats: seq<(nat, Chat)>)
    requires chats != []
    ensures ChatsOf(chats[1..]) <= ChatsOf(chats)
  {
    forall k | 0 <= k < |chats[1..]| ensures chats[1..][k].1 in ChatsOf(chats) {
      assert chats[1..][k] == chats[k + 1];
    }
  }

  /** How many positions of `chats` hold a chat whose summary matches `term`. */
  function MatchCount(term: string, chats: seq<(nat, Chat)>): (n: nat)
    reads ChatsOf(chats)
    ensures n <= |chats|
  {
    if chats == [] then 0
    else
      ChatsOfTail(chats);
      (if Matches(term, chats[0].1.summary) then 1 else 0) + MatchCount(term, chats[1..])
  }

  /** The search box filter applied to one group (app.py:151). */
  function Filter(term: string, chats: seq<(nat, Chat)>): (r: seq<(nat, Chat)>)
    reads ChatsOf(chats)
    ensures forall k :: 0 <= k < |r| ==> r[k] in chats && Matches(term, r[k].1.summary)
    ensures forall k :: 0 <= k < |chats| && Matches(term, chats[k].1.summary) ==> chats[k] in r
    ensures IsSubsequence(r, chats)
    ensures |r| == MatchCount(term, chats)
    ensures term == [] ==> r == chats
  {
    if chats == [] then []
    else
      ChatsOfTail(chats);
      var rest := Filter(term, chats[1..]);
      if Matches(term, chats[0].1.summary) then [chats[0]] + rest else rest
  }

  /** The copy of `s` that `s.pop(i)` leaves behind. */
  function RemoveAt<T>(s: seq<T>, i: nat): (r: seq<T>)
    requires i < |s|
    ensures |r| == |s| - 1
    ensures forall k :: 0 <= k < i ==> r[k] == s[k]
    ensures forall k :: i <= k < |r| ==> r[k] == s[k + 1]
  {
    s[..i] + s[i + 1..]
  }

  class ChatStore {
    var schema: string
    var active: Chat
    var saved: seq<Chat>

    /** First run of a session (app.py:88-99): the schema description is read once, there
        are no saved chats and the active chat is empty. */
    constructor (today: int, catalog: SchemaText.Catalog)
      ensures schema == SchemaText.Render(SchemaText.Collect(catalog))
      ensures fresh(active)
      ensures active.history == [] && active.summary == [] && active.timestamp == today
      ensures saved == []
    {
      var description := SchemaText.GetDbSchema(catalog);
      var chat := new Chat(today);
      schema, active, saved := description, chat, [];
    }

    /** Files the active chat, if it holds anything, at the end of the saved list, first
        giving it a summary from its first question if it has none (app.py:114-120 and
        159-165). */
    method ArchiveActive()
      modifies this, active
      ensures active == old(active) && schema == old(schema)
      ensures active.history == old(active.history) && active.timestamp == old(active.timestamp)
      ensures active.summary == ArchivedSummary(old(active.summary), old(active.history))
      ensures saved == if old(active.history) == [] then old(saved) else old(saved) + [active]
    {
      var chat := active;
      if chat.history != [] {
        if chat.summary == [] {
          var k := 0;
          while k < |chat.history|
            invariant 0 <= k <= |chat.history|
            invariant forall j :: 0 <= j < k ==> !chat.history[j].User?
            invariant chat.summary == old(chat.summary) && chat.history == old(chat.history)
          {
            if chat.history[k].User? {
              chat.summary := Summary(chat.history[k].text);
              break;
            }
            k := k + 1;
          }
        }
        saved := saved + [chat];
      }
    }

    /** The "new chat" button (app.py:113-126): the active chat is filed if it holds
        anything and a fresh, empty chat dated today replaces it. */
    method NewChat(today: int)
      modifies this, active
      ensures fresh(active) && schema == old(schema)
      ensures old(active).timestamp == old(active.timestamp)
      ensures active.history == [] && active.summary == [] && active.timestamp == today
      ensures saved == if old(active.history) == [] then old(saved) else old(saved) + [old(active)]
      ensures old(active).history == old(active.history)
      ensures old(active).summary == ArchivedSummary(old(active.summary), old(active.history))
    {
      ArchiveActive();
      active := new Chat(today);
    }

    /** Clicking saved chat `i` (app.py:157-168): the active chat is filed as by
        `NewChat`, then the saved chat itself becomes the active one while staying in
        the saved list, so both refer to the same object. */
    method SwitchTo(i: nat)
      requires i < |saved|
      modifies this, active
      ensures active == old(saved[i]) && schema == old(schema)
      ensures old(active).timestamp == old(active.timestamp)
      ensures saved == if old(active.history) == [] then old(saved) else old(saved) + [old(active)]
      ensures active in saved
      ensures old(active).history == old(active.history)
      ensures old(active).summary == ArchivedSummary(old(active.summary), old(active.history))
    {
      var chat := saved[i];
      ArchiveActive();
      active := chat;
    }

    /** The delete button of saved chat `i` (app.py:170-171): exactly that entry goes. */
    method Delete(i: nat)
      requires i < |saved|
      modifies this
      ensures saved == RemoveAt(old(saved), i)
      ensures active == old(active) && schema == old(schema)
    {
      saved := saved[..i] + saved[i + 1..];
    }

    /** `group_chats_by_date` (app.py:132-146). */
    method GroupByDate(today: int) returns (g: Groups)
      ensures g.today == Pick(saved, today, Today)
      ensures g.yesterday == Pick(saved, today, Yesterday)
      ensures g.lastWeek == Pick(saved, today, LastWeek)
      ensures Disjoint(g.today, g.yesterday) && Disjoint(g.today, g.lastWeek) && Disjoint(g.yesterday, g.lastWeek)
    {
      var t, y, w := [], [], [];
      var i := 0;
      while i < |saved|
        invariant 0 <= i <= |saved|
        invariant t == Pick(saved[..i], today, Today)
        invariant y == Pick(saved[..i], today, Yesterday)
        invariant w == Pick(saved[..i], today, LastWeek)
      {
        var chat := saved[i];
        assert saved[..i + 1][..i] == saved[..i];
        if chat.timestamp == today {
          t := t + [(i, chat)];
        } else if chat.timestamp == today - 1 {
          y := y + [(i, chat)];
        } else if today - 7 <= chat.timestamp < today - 1 {
          w := w + [(i, chat)];
        }
        i := i + 1;
      }
      assert saved[..i] == saved;
      g := Groups(t, y, w);
    }

    /** What the sidebar lists for a search term: each group, filtered (app.py:148-154). */
    method Sidebar(today: int, term: string) returns (g: Groups)
      ensures g.today == Filter(term, Pick(saved, today, Today))
      ensures g.yesterday == Filter(term, Pick(saved, today, Yesterday))
      ensures g.lastWeek == Filter(term, Pick(saved, today, LastWeek))
    {
      var all := GroupByDate(today);
      g := Groups(Filter(term, all.today), Filter(term, all.yesterday), Filter(term, all.lastWeek));
    }

    /** A submitted question (app.py:177-230). An empty input does nothing; otherwise the
        question, then the turn's outcome, are appended to the active chat, whose summary
        is set from the question if it has none yet. */
    method Turn(userInput: string, reply: LlamaReply, runQuery: string -> QueryReply)
      modifies active
      ensures userInput == [] ==> active.history == old(active.history) && active.summary == old(active.summary)
      ensures userInput != [] ==>
        active.history == old(active.history) + [User(userInput)] + TurnOutcome(reply, runQuery)
      ensures userInput != [] ==>
        active.summary == if old(active.summary) == [] then Summary(userInput) else old(active.summary)
      ensures active.timestamp == old(active.timestamp)
    {
      if userInput != [] {
        var chat := active;
        chat.history := chat.history + [User(userInput)];
        if chat.summary == [] {
          chat.summary := Summary(userInput);
        }
        chat.Respond(reply, runQuery);
      }
    }

    /** Reopening saved chat `i`, asking a question in it and then pressing "new chat"
        files that chat a second time: it is then both `saved[i]` and the last saved
        chat, and both show the new question. */
    method ReopenAskAndStartOver(i: nat, userInput: string, reply: LlamaReply,
                                 runQuery: string -> QueryReply, today: int)
      requires i < |saved| && userInput != []
      modifies this, active, saved[i]
      ensures |saved| >= |old(saved)| + 1 && schema == old(schema)
      ensures saved[..|old(saved)|] == old(saved)
      ensures saved[i] == saved[|saved| - 1] == old(saved[i])
      ensures saved[i].history == old(saved[i].history) + [User(userInput)] + TurnOutcome(reply, runQuery)
    {
      ghost var before := saved;
      SwitchTo(i);
      Turn(userInput, reply, runQuery);
      NewChat(today);
      assert saved[..|before|] == before;
    }
  }
}
