/**
 * The FAQ lookup: the SELECT over `faqs` with a LIKE pattern built from the
 * query, the first row it yields, and the two fixed fallback replies.
 *
 * The SELECT has no ORDER BY; the model takes the rows in rowid order, the
 * order of a full scan of a rowid table, which is also insertion order here.
 */
module FaqLookup {
  import opened SqlText
  import opened FaqRecords

  const NOT_FOUND: string :=
    "I'm sorry, I don't have information about that. Please contact the college administration for more details."

  const DB_TROUBLE: string :=
    "I apologize, but I'm having trouble accessing the database right now."

  /** `'%' + query.lower() + '%'`: the query is spliced in unescaped. */
  function SearchPattern(query: string): string {
    "%" + Lower(query) + "%"
  }

  /** The WHERE clause: `LOWER(question) LIKE p OR LOWER(answer) LIKE p`. */
  predicate RowMatches(row: FaqRow, pattern: string) {
    Like(pattern, Lower(row.question)) || Like(pattern, Lower(row.answer))
  }

  predicate NoRowMatches(rows: seq<FaqRow>, pattern: string) {
    forall j :: 0 <= j < |rows| ==> !RowMatches(rows[j], pattern)
  }

  /** Row `i` matches and no row before it does. */
  predicate IsFirstMatch(rows: seq<FaqRow>, pattern: string, i: int) {
    0 <= i < |rows| && RowMatches(rows[i], pattern) &&
    forall j :: 0 <= j < i ==> !RowMatches(rows[j], pattern)
  }

  /** The position of the row `fetchone` returns, if the SELECT yields any. */
  function FindFirst(rows: seq<FaqRow>, pattern: string): (r: Option<nat>)
    ensures r.Some? ==> IsFirstMatch(rows, pattern, r.value)
    ensures r.None? ==> NoRowMatches(rows, pattern)
  {
    if |rows| == 0 then
      None
    else if RowMatches(rows[0], pattern) then
      Some(0)
    else
      match FindFirst(rows[1..], pattern)
      case None => None
      case Some(i) => Some(i + 1)
  }

  /**
   * The reply to `query`. `table` is None when the SELECT raises: the
   * `faqs` table does not exist or the database cannot be opened.
   */
  function GetResponse(table: Option<seq<FaqRow>>, query: string): (r: string)
    ensures table.None? ==> r == DB_TROUBLE
    ensures table.Some? && NoRowMatches(table.value, SearchPattern(query)) ==> r == NOT_FOUND
    ensures table.Some? ==> forall i :: IsFirstMatch(table.value, SearchPattern(query), i) ==> r == table.value[i].answer
  {
    match table
    case None => DB_TROUBLE
    case Some(rows) =>
      match FindFirst(rows, SearchPattern(query))
      case None => NOT_FOUND
      case Some(i) => rows[i].answer
  }

  /** A reply is a stored answer or one of the two fixed texts. */
  lemma ResponseIsStoredOrFixed(table: Option<seq<FaqRow>>, query: string)
    ensures var r := GetResponse(table, query);
      r == DB_TROUBLE || r == NOT_FOUND ||
      (table.Some? && exists i :: 0 <= i < |table.value| && r == table.value[i].answer)
  {
  }

  /** `question` or `answer`, lower-cased, contains the lower-cased query as plain text. */
  predicate TextContains(row: FaqRow, query: string) {
    Contains(Lower(row.question), Lower(query)) || Contains(Lower(row.answer), Lower(query))
  }

  /** Without `%` or `_` in the query, the WHERE clause is case-insensitive substring search on both columns. */
  lemma RowMatchesIffTextContains(row: FaqRow, query: string)
    requires NoWildcards(query)
    ensures RowMatches(row, SearchPattern(query)) <==> TextContains(row, query)
  {
    LowerKeepsWildcardFree(query);
    LikeSurroundedIsContains(Lower(query), Lower(row.question));
    LikeSurroundedIsContains(Lower(query), Lower(row.answer));
  }

  /** With or without wildcards, a row whose text contains the query literally always matches. */
  lemma TextContainsImpliesRowMatches(row: FaqRow, query: string)
    requires TextContains(row, query)
    ensures RowMatches(row, SearchPattern(query))
  {
    if Contains(Lower(row.question), Lower(query)) {
      ContainsImpliesLikeSurrounded(Lower(query), Lower(row.question));
    } else {
      ContainsImpliesLikeSurrounded(Lower(query), Lower(row.answer));
    }
  }

  /**
   * Any query, wildcards included, that occurs in row `k`'s question or
   * answer finds a row: the answer of row `k` or of an earlier row.
   */
  lemma ContainedQueryFindsRow(rows: seq<FaqRow>, k: int, query: string)
    requires 0 <= k < |rows| && TextContains(rows[k], query)
    ensures exists i :: 0 <= i <= k && GetResponse(Some(rows), query) == rows[i].answer
  {
    TextContainsImpliesRowMatches(rows[k], query);
    assert FindFirst(rows, SearchPattern(query)).Some?;
  }

  /** Row `i` contains the query as plain text and no row before it does. */
  predicate IsFirstTextMatch(rows: seq<FaqRow>, query: string, i: int) {
    0 <= i < |rows| && TextContains(rows[i], query) &&
    forall j :: 0 <= j < i ==> !TextContains(rows[j], query)
  }

  /**
   * For a wildcard-free query, the reply is the answer of the first row
   * whose question or answer contains the query (either column, whichever
   * later row might fit better), and the not-found text when none does.
   */
  lemma ResponseBySubstring(rows: seq<FaqRow>, query: string)
    requires NoWildcards(query)
    ensures forall i :: IsFirstTextMatch(rows, query, i) ==> GetResponse(Some(rows), query) == rows[i].answer
    ensures (forall j :: 0 <= j < |rows| ==> !TextContains(rows[j], query)) ==>
      GetResponse(Some(rows), query) == NOT_FOUND
  {
    forall j | 0 <= j < |rows|
      ensures RowMatches(rows[j], SearchPattern(query)) <==> TextContains(rows[j], query)
    {
      RowMatchesIffTextContains(rows[j], query);
    }
  }

  /** Two queries that agree after lower-casing get the same reply. */
  lemma SameLowerSameResponse(table: Option<seq<FaqRow>>, q1: string, q2: string)
    requires Lower(q1) == Lower(q2)
    ensures GetResponse(table, q1) == GetResponse(table, q2)
  {
  }

  /** Matching ignores ASCII case: the upper-cased query gets the same reply. */
  lemma UpperCaseQuerySameResponse(table: Option<seq<FaqRow>>, query: string)
    ensures GetResponse(table, Upper(query)) == GetResponse(table, query)
  {
    LowerOfUpper(query);
  }

  /** The empty query builds the pattern `%%`, which every row matches. */
  lemma EmptyQueryReturnsFirstAnswer(rows: seq<FaqRow>)
    ensures SearchPattern("") == "%%"
    ensures GetResponse(Some(rows), "") == if |rows| > 0 then rows[0].answer else NOT_FOUND
  {
    assert Lower("") == "";
    if |rows| > 0 {
      var p := SearchPattern("");
      assert p[0] == '%' && p[1..] == "%";
      LikePercentMatchesAll(Lower(rows[0].question));
      assert IsFirstMatch(rows, p, 0);
    }
  }

  /**
   * `_` is a wildcard: the query "_" matches every non-empty question, so
   * it returns the first row's answer whatever that row says.
   */
  lemma UnderscoreQueryReturnsFirstAnswer(rows: seq<FaqRow>)
    requires |rows| > 0 && rows[0].question != ""
    ensures GetResponse(Some(rows), "_") == rows[0].answer
  {
    var p := SearchPattern("_");
    var text := Lower(rows[0].question);
    assert Lower("_") == "_";
    assert p == "%_%";
    assert p[1..] == "_%" && p[1..][1..] == "%";
    LikePercentMatchesAll(text[1..]);
    assert Like(p[1..], text);
    assert IsFirstMatch(rows, p, 0);
  }

  /** The first match of a concatenation is the first match of the front part, if it has one, else of the back part. */
  lemma {:induction false} FindFirstAppend(front: seq<FaqRow>, back: seq<FaqRow>, pattern: string)
    ensures FindFirst(front + back, pattern) ==
      match FindFirst(front, pattern)
      case Some(i) => Some(i)
      case None => (match FindFirst(back, pattern) case None => None case Some(j) => Some(|front| + j))
  {
    if |front| == 0 {
      assert front + back == back;
    } else {
      assert (front + back)[0] == front[0];
      assert (front + back)[1..] == front[1..] + back;
      FindFirstAppend(front[1..], back, pattern);
    }
  }

  /** `copy` holds the same question and answer texts as `orig`, row by row. */
  predicate SameTexts(orig: seq<FaqRow>, copy: seq<FaqRow>) {
    |orig| == |copy| &&
    forall k :: 0 <= k < |orig| ==> orig[k].question == copy[k].question && orig[k].answer == copy[k].answer
  }

  /**
   * Appending another copy of rows already at the end of the table changes
   * no reply: the first match, if any, lies at or before the earlier copy.
   */
  lemma AppendedCopyKeepsResponses(rows: seq<FaqRow>, added: seq<FaqRow>, again: seq<FaqRow>, query: string)
    requires SameTexts(added, again)
    ensures GetResponse(Some(rows + added + again), query) == GetResponse(Some(rows + added), query)
  {
    var p := SearchPattern(query);
    FindFirstAppend(rows + added, again, p);
    if FindFirst(rows + added, p).None? {
      FindFirstAppend(rows, added, p);
      assert FindFirst(added, p).None?;
      forall k | 0 <= k < |again| ensures !RowMatches(again[k], p) {
        assert RowMatches(again[k], p) == RowMatches(added[k], p);
      }
      assert FindFirst(again, p).None?;
    }
  }
}
