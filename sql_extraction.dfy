/** Recovery of an SQL statement from free-form language-model output
    (`extract_sql_from_response`, app.py:16-23). The two regular-expression searches
    are written as explicit left-to-right index searches:

      1. r'```sql(.*?)```' with DOTALL: the first "```sql" that has some "```" after
         it, and the shortest body up to the nearest such "```";
      2. r'(SELECT|INSERT|UPDATE|DELETE|CREATE|ALTER|DROP).*?;' with DOTALL and
         IGNORECASE: the leftmost position where a keyword matches and a ';' follows
         it, running to the nearest such ';';
      3. otherwise the whole response.

    Whichever tier wins, its text is stripped of surrounding whitespace. */
module SqlExtraction {
  import opened Strings

  const OPEN_FENCE := "```sql"
  const CLOSE_FENCE := "```"

  /** The statement keywords, lower-cased, in the order of the regex alternation. */
  const KEYWORDS: seq<string> := ["select", "insert", "update", "delete", "create", "alter", "drop"]

  /** Some opening fence is followed (without overlap) by a closing fence. */
  ghost predicate HasFence(s: string) {
    exists p, q :: OccursAt(OPEN_FENCE, s, p) && p + |OPEN_FENCE| <= q && OccursAt(CLOSE_FENCE, s, q)
  }

  /** The match of the fenced-block pattern, as the bounds [b, e) of its group 1. */
  function FenceMatch(s: string): (r: Option<(nat, nat)>)
    ensures r.None? <==> !HasFence(s)
    ensures r.Some? ==>
      var (b, e) := r.value;
      && |OPEN_FENCE| <= b <= e
      && OccursAt(OPEN_FENCE, s, b - |OPEN_FENCE|)
      && OccursAt(CLOSE_FENCE, s, e)
      && (forall i :: 0 <= i < b - |OPEN_FENCE| ==> !OccursAt(OPEN_FENCE, s, i))
      && (forall j :: b <= j < e ==> !OccursAt(CLOSE_FENCE, s, j))
  {
    match Find(OPEN_FENCE, s, 0)
    case None => None
    case Some(p) =>
      match Find(CLOSE_FENCE, s, p + |OPEN_FENCE|)
      case None =>
        assert !HasFence(s) by {
          forall p', q' | OccursAt(OPEN_FENCE, s, p') && p' + |OPEN_FENCE| <= q'
            ensures !OccursAt(CLOSE_FENCE, s, q')
          {
            assert p <= p';
          }
        }
        None
      case Some(q) => Some((p + |OPEN_FENCE|, q))
  }

  /** `k` matches case-insensitively at position `p` of `s`. */
  predicate KeywordMatches(s: string, p: nat, k: string) {
    p + |k| <= |s| && forall m :: 0 <= m < |k| ==> Lower(s[p + m]) == k[m]
  }

  /** The keyword matching at `p`, trying the alternatives from index `n` on. */
  function KeywordFrom(s: string, p: nat, n: nat): (r: Option<string>)
    requires n <= |KEYWORDS|
    ensures r.Some? ==> r.value in KEYWORDS[n..] && KeywordMatches(s, p, r.value)
    ensures r.None? ==> forall m :: n <= m < |KEYWORDS| ==> !KeywordMatches(s, p, KEYWORDS[m])
    decreases |KEYWORDS| - n
  {
    if n == |KEYWORDS| then None
    else if KeywordMatches(s, p, KEYWORDS[n]) then Some(KEYWORDS[n])
    else KeywordFrom(s, p, n + 1)
  }

  /** The alternation group of the keyword pattern, tried at position `p`. */
  function KeywordAt(s: string, p: nat): (r: Option<string>)
    ensures r.Some? ==> r.value in KEYWORDS && KeywordMatches(s, p, r.value)
    ensures r.None? ==> forall k :: k in KEYWORDS ==> !KeywordMatches(s, p, k)
  {
    KeywordFrom(s, p, 0)
  }

  /** The keyword pattern matches at `p`: a keyword there and a ';' somewhere after it. */
  predicate StatementAt(s: string, p: nat) {
    KeywordAt(s, p).Some? && ';' in s[p + |KeywordAt(s, p).value|..]
  }

  /** Every keyword is made of lower-case ASCII letters. */
  lemma KeywordLetters(k: string, i: nat)
    requires k in KEYWORDS && i < |k|
    ensures 'a' <= k[i] <= 'z'
  {
  }

  /** No ';' and no whitespace lies inside a matched keyword. */
  lemma KeywordHasNoSemicolon(s: string, p: nat, k: string, i: nat)
    requires k in KEYWORDS && KeywordMatches(s, p, k) && p <= i < p + |k|
    ensures s[i] != ';' && !IsSpace(s[i])
  {
    assert Lower(s[p + (i - p)]) == k[i - p];
    KeywordLetters(k, i - p);
    LowerLetterIsLetter(s[i]);
  }

  /** Group 0 of the keyword pattern can be s[a..e]: a keyword at `a`, and the nearest
      ';' after that keyword at e - 1. */
  ghost predicate SpanAt(s: string, a: nat, e: nat) {
    && KeywordAt(s, a).Some?
    && a + |KeywordAt(s, a).value| < e <= |s|
    && s[e - 1] == ';'
    && (forall j :: a + |KeywordAt(s, a).value| <= j < e - 1 ==> s[j] != ';')
  }

  /** A search for the keyword pattern that starts at position `p`; its result is the
      bounds [a, e) of group 0. */
  function StatementFrom(s: string, p: nat): (r: Option<(nat, nat)>)
    ensures r.Some? ==> p <= r.value.0 && SpanAt(s, r.value.0, r.value.1)
    decreases |s| - p
  {
    if p >= |s| then None
    else
      match KeywordAt(s, p)
      case None => StatementFrom(s, p + 1)
      case Some(k) =>
        match Find(";", s, p + |k|)
        case Some(q) =>
          SemicolonFound(s, p + |k|, q);
          Some((p, q + 1))
        case None => StatementFrom(s, p + 1)
  }

  /** The search stops at the first position where the pattern matches, and finds
      nothing only when the pattern matches nowhere from `p` on. */
  lemma {:induction false} StatementFromIsLeftmost(s: string, p: nat)
    ensures StatementFrom(s, p).None? ==> forall i :: p <= i ==> !StatementAt(s, i)
    ensures StatementFrom(s, p).Some? ==> forall i :: p <= i < StatementFrom(s, p).value.0 ==> !StatementAt(s, i)
    decreases |s| - p
  {
    if p >= |s| {
      NoStatementPastEnd(s, p);
    } else if KeywordAt(s, p).None? || Find(";", s, p + |KeywordAt(s, p).value|).None? {
      assert StatementFrom(s, p) == StatementFrom(s, p + 1);
      if KeywordAt(s, p).None? {
        NoKeywordNoStatement(s, p);
      } else {
        NoSemicolonNoStatement(s, p, KeywordAt(s, p).value);
      }
      StatementFromIsLeftmost(s, p + 1);
      NoStatementExtends(s, p, StatementFrom(s, p + 1));
    } else {
      assert StatementFrom(s, p).value.0 == p;
    }
  }

  lemma NoStatementExtends(s: string, p: nat, r: Option<(nat, nat)>)
    requires !StatementAt(s, p)
    requires r.None? ==> forall i :: p + 1 <= i ==> !StatementAt(s, i)
    requires r.Some? ==> forall i :: p + 1 <= i < r.value.0 ==> !StatementAt(s, i)
    ensures r.None? ==> forall i :: p <= i ==> !StatementAt(s, i)
    ensures r.Some? ==> forall i :: p <= i < r.value.0 ==> !StatementAt(s, i)
  {
  }

  lemma NoStatementPastEnd(s: string, p: nat)
    requires |s| <= p
    ensures forall i :: p <= i ==> !StatementAt(s, i)
  {
  }

  lemma NoKeywordNoStatement(s: string, p: nat)
    requires KeywordAt(s, p).None?
    ensures !StatementAt(s, p)
  {
  }

  lemma SemicolonFound(s: string, from: nat, q: nat)
    requires Find(";", s, from) == Some(q)
    ensures q < |s| && s[q] == ';'
    ensures forall j :: from <= j < q ==> s[j] != ';'
  {
    assert s[q..q + 1] == [s[q]];
    forall j | from <= j < q ensures s[j] != ';' {
      assert !OccursAt(";", s, j);
      assert s[j..j + 1] == [s[j]];
    }
  }

  lemma SemicolonAbsent(s: string, from: nat)
    requires Find(";", s, from).None?
    ensures forall q :: from <= q < |s| ==> s[q] != ';'
  {
    forall q | from <= q < |s| ensures s[q] != ';' {
      assert !OccursAt(";", s, q);
      assert s[q..q + 1] == [s[q]];
    }
  }

  lemma NoSemicolonNoStatement(s: string, p: nat, k: string)
    requires KeywordAt(s, p) == Some(k) && Find(";", s, p + |k|).None?
    ensures !StatementAt(s, p)
  {
    SemicolonAbsent(s, p + |k|);
    forall k' | k' in KEYWORDS && KeywordMatches(s, p, k') ensures k' == k {
      KeywordOnlyOne(s, p, k, k');
    }
  }

  /** At most one keyword matches at a position: their first two letters differ. */
  lemma KeywordOnlyOne(s: string, p: nat, k: string, k': string)
    requires k in KEYWORDS && k' in KEYWORDS
    requires KeywordMatches(s, p, k) && KeywordMatches(s, p, k')
    ensures k == k'
  {
    assert k[0] == Lower(s[p + 0]) == k'[0];
    assert k[1] == Lower(s[p + 1]) == k'[1];
  }

  /** The match of the keyword pattern over the whole response. */
  function StatementMatch(s: string): (r: Option<(nat, nat)>)
    ensures r.None? <==> forall i :: 0 <= i ==> !StatementAt(s, i)
    ensures r.Some? ==>
      && SpanAt(s, r.value.0, r.value.1)
      && (forall i :: 0 <= i < r.value.0 ==> !StatementAt(s, i))
  {
    var r := StatementFrom(s, 0);
    StatementFromIsLeftmost(s, 0);
    match r
    case None => r
    case Some((a, e)) =>
      SpanIsStatement(s, a, e);
      r
  }

  lemma SpanIsStatement(s: string, a: nat, e: nat)
    requires SpanAt(s, a, e)
    ensures StatementAt(s, a)
  {
    var k := KeywordAt(s, a).value;
    assert k in KEYWORDS && KeywordMatches(s, a, k) && a + |k| <= e - 1 < |s| && s[e - 1] == ';';
  }

  /** `extract_sql_from_response`: never fails, and always returns a piece of its input. */
  function ExtractSql(response: string): (r: string)
    ensures IsSlice(r, response)
  {
    match FenceMatch(response)
    case Some((b, e)) =>
      StripOfSliceIsSlice(response, b, e);
      Strip(response[b..e])
    case None =>
      match StatementMatch(response)
      case Some((a, e)) =>
        StripOfSliceIsSlice(response, a, e);
        Strip(response[a..e])
      case None =>
        StripOfSliceIsSlice(response, 0, |response|);
        Strip(response)
  }

  lemma StripOfSliceIsSlice(s: string, b: nat, e: nat)
    requires b <= e <= |s|
    ensures IsSlice(Strip(s[b..e]), s)
  {
    var t := s[b..e];
    var i, j :| 0 <= i <= j <= |t| && t[i..j] == Strip(t);
    SliceOfSlice(s, b, e, i, j);
  }

  // ---------------------------------------------------------------------------
  // The three tiers

  /** Tier 1: with a fenced block, the result is the stripped text between the first
      "```sql" and the nearest "```" after it; the prose around it is ignored and the
      keyword tier is never consulted. */
  lemma FencedBlockWins(s: string, p: nat, q: nat)
    requires OccursAt(OPEN_FENCE, s, p) && p + |OPEN_FENCE| <= q && OccursAt(CLOSE_FENCE, s, q)
    requires forall i :: 0 <= i < p ==> !OccursAt(OPEN_FENCE, s, i)
    requires forall j :: p + |OPEN_FENCE| <= j < q ==> !OccursAt(CLOSE_FENCE, s, j)
    ensures ExtractSql(s) == Strip(s[p + |OPEN_FENCE|..q])
  {
    assert HasFence(s);
    var (b, e) := FenceMatch(s).value;
    assert b - |OPEN_FENCE| <= p;
    assert p <= b - |OPEN_FENCE|;
    assert e <= q;
    assert q <= e;
    assert FenceMatch(s) == Some((p + |OPEN_FENCE|, q));
  }

  /** Tier 2: without a fenced block, the result starts at the FIRST position where any
      keyword matches (case-insensitively, even inside a longer word) provided a ';'
      follows it, and it runs to the nearest ';' after that keyword. The span begins
      with that keyword, contains exactly one ';', its last character, and stripping
      leaves it unchanged. */
  lemma StatementTier(s: string)
    requires !HasFence(s)
    requires exists i :: 0 <= i && StatementAt(s, i)
    ensures StatementMatch(s).Some?
    ensures
      var (a, e) := StatementMatch(s).value;
      && ExtractSql(s) == s[a..e]
      && KeywordAt(s, a).Some?
      && (forall i :: 0 <= i < a ==> KeywordAt(s, i).None?)
      && s[e - 1] == ';'
      && (forall j :: a <= j < e - 1 ==> s[j] != ';')
  {
    var (a, e) := StatementMatch(s).value;
    StatementIsLeftmostKeyword(s, a, e);
    StatementReturnedWhole(s, a, e);
  }

  lemma StatementIsLeftmostKeyword(s: string, a: nat, e: nat)
    requires StatementMatch(s) == Some((a, e))
    ensures forall i :: 0 <= i < a ==> KeywordAt(s, i).None?
  {
    forall i | 0 <= i < a ensures KeywordAt(s, i).None? {
      if KeywordAt(s, i).Some? {
        EarlierKeywordMatches(s, i, a, e);
      }
    }
  }

  lemma StatementReturnedWhole(s: string, a: nat, e: nat)
    requires FenceMatch(s).None? && StatementMatch(s) == Some((a, e))
    ensures ExtractSql(s) == s[a..e]
    ensures forall j :: a <= j < e - 1 ==> s[j] != ';'
  {
    SpanShape(s, a, e);
    SpanTrimmed(s, a, e);
  }

  lemma SpanTrimmed(s: string, a: nat, e: nat)
    requires SpanAt(s, a, e)
    ensures Strip(s[a..e]) == s[a..e]
  {
    SpanShape(s, a, e);
    var t := s[a..e];
    assert |t| > 0 && t[0] == s[a] && t[|t| - 1] == s[e - 1];
    StripKeepsTrimmed(t);
  }

  /** A keyword before a span's start would itself have matched: the span's ';'
      follows it. */
  lemma EarlierKeywordMatches(s: string, i: nat, a: nat, e: nat)
    requires SpanAt(s, a, e) && i < a && KeywordAt(s, i).Some?
    ensures StatementAt(s, i)
  {
    var k := KeywordAt(s, i).value;
    if e - 1 < i + |k| {
      KeywordHasNoSemicolon(s, i, k, e - 1);
    } else {
      assert s[i + |k|..][e - 1 - (i + |k|)] == ';';
    }
  }

  /** A span holds one ';', its last character, and it starts with a letter. */
  lemma SpanShape(s: string, a: nat, e: nat)
    requires SpanAt(s, a, e)
    ensures forall j :: a <= j < e - 1 ==> s[j] != ';'
    ensures !IsSpace(s[a]) && !IsSpace(s[e - 1])
  {
    var k := KeywordAt(s, a).value;
    forall j | a <= j < a + |k| ensures s[j] != ';' {
      KeywordHasNoSemicolon(s, a, k, j);
    }
    KeywordHasNoSemicolon(s, a, k, a);
  }

  /** Tier 3: with neither pattern matching, the result is the response stripped. */
  lemma FallbackTier(s: string)
    requires !HasFence(s)
    requires forall i :: 0 <= i ==> !StatementAt(s, i)
    ensures ExtractSql(s) == Strip(s)
  {
  }

  /** A response without any ';' and without a fenced block is only stripped: keywords
      alone never make the second tier match. */
  lemma NoSemicolonFallsBack(s: string)
    requires !HasFence(s)
    requires ';' !in s
    ensures ExtractSql(s) == Strip(s)
  {
    assert StatementMatch(s).None? by {
      forall i | 0 <= i ensures !StatementAt(s, i) {
      }
    }
  }

  /** A bare statement that begins with a keyword and whose only ';' is its last
      character comes back unchanged. */
  lemma BareStatementUnchanged(s: string, k: string)
    requires !HasFence(s)
    requires k in KEYWORDS && KeywordMatches(s, 0, k) && |k| < |s|
    requires s[|s| - 1] == ';' && ';' !in s[..|s| - 1]
    ensures ExtractSql(s) == s
  {
    assert forall j :: 0 <= j < |s| - 1 ==> s[j] == s[..|s| - 1][j];
    assert KeywordAt(s, 0).Some?;
    KeywordOnlyOne(s, 0, KeywordAt(s, 0).value, k);
    assert ';' in s[|k|..] by {
      assert s[|k|..][|s| - 1 - |k|] == ';';
    }
    assert StatementAt(s, 0);
    StatementTier(s);
  }

  // ---------------------------------------------------------------------------
  // Worked examples

  /** Without a backtick there is no fenced block. */
  lemma NoBacktickNoFence(s: string)
    requires '`' !in s
    ensures !HasFence(s)
  {
    forall p | 0 <= p < |s| ensures !OccursAt(OPEN_FENCE, s, p) {
      assert s[p] != '`';
    }
  }

  lemma FirstCharDiffers(pat: string, s: string, i: nat)
    requires |pat| > 0 && i < |s| && s[i] != pat[0]
    ensures !OccursAt(pat, s, i)
  {
  }

  /** Prose before a fenced block is ignored, and so is everything after it. */
  lemma ProseAroundFence(prose: string, body: string, rest: string)
    requires '`' !in prose && '`' !in body
    ensures ExtractSql(prose + OPEN_FENCE + body + CLOSE_FENCE + rest) == Strip(body)
  {
    var s := prose + OPEN_FENCE + body + CLOSE_FENCE + rest;
    var p, q := |prose|, |prose| + |OPEN_FENCE| + |body|;
    assert s[p..p + |OPEN_FENCE|] == OPEN_FENCE;
    assert s[q..q + |CLOSE_FENCE|] == CLOSE_FENCE;
    assert s[p + |OPEN_FENCE|..q] == body;
    forall i | 0 <= i < p ensures !OccursAt(OPEN_FENCE, s, i) {
      assert s[i] == prose[i];
      FirstCharDiffers(OPEN_FENCE, s, i);
    }
    forall j | p + |OPEN_FENCE| <= j < q ensures !OccursAt(CLOSE_FENCE, s, j) {
      assert s[j] == body[j - p - |OPEN_FENCE|];
      FirstCharDiffers(CLOSE_FENCE, s, j);
    }
    FencedBlockWins(s, p, q);
  }

  /** A fenced answer with prose before it yields the statement inside the fence. */
  lemma FencedExample()
    ensures ExtractSql("Ok:\n" + "```sql" + "\nSELECT 1;\n" + "```") == "SELECT 1;"
  {
    var body := "SELECT 1;";
    assert "Ok:\n" + "```sql" + "\nSELECT 1;\n" + "```"
        == "Ok:\n" + OPEN_FENCE + ("\n" + body + "\n") + CLOSE_FENCE + "";
    ProseAroundFence("Ok:\n", "\n" + body + "\n", "");
    StripAround("\n", body, "\n");
  }

  /** A bare statement comes back unchanged. */
  lemma BareExample()
    ensures ExtractSql("SELECT 1;") == "SELECT 1;"
  {
    var s := "SELECT 1;";
    NoBacktickNoFence(s);
    assert KeywordMatches(s, 0, "select");
    assert s[..|s| - 1] == "SELECT 1";
    BareStatementUnchanged(s, "select");
  }

  /** Trimmed prose with no backtick and no ';' comes back unchanged. */
  lemma PlainProseUnchanged(s: string)
    requires '`' !in s && ';' !in s
    requires s == [] || (!IsSpace(s[0]) && !IsSpace(s[|s| - 1]))
    ensures ExtractSql(s) == s
  {
    NoBacktickNoFence(s);
    NoSemicolonFallsBack(s);
    StripKeepsTrimmed(s);
  }

  /** A refusal without any statement falls through to the whole (stripped) text. */
  lemma RefusalExample()
    ensures ExtractSql("I cannot help with that request.") == "I cannot help with that request."
  {
    PlainProseUnchanged("I cannot help with that request.");
  }
}
