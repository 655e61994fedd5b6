/**
 * Choosing the answer to a question from the rows of the sheet
 * (`searchAnswer`): every row with keywords and an answer is scored, a
 * relevant date adds 15, the first row with the highest positive score is
 * kept, and it is the answer when its score exceeds 5.
 */
module Search {
  import opened Wrappers
  import opened Text
  import opened Scoring
  import opened DateRelevance
  import opened Selection

  /** One row of the sheet, cells in column order; a missing cell is empty. */
  datatype Row = Row(category: string, keywords: string, answer: string, lastUpdated: string, date: string)

  datatype Confidence = Low | Medium | High

  /** The fields `searchAnswer` returns; `date` is `None` where the source
      has `null` or no date at all. */
  datatype MatchResult = MatchResult(
    found: bool, answer: string, category: string,
    confidence: Confidence, matchScore: nat, date: Option<string>)

  const DateBoost: nat := 15
  /** A best score must exceed this to be an answer. */
  const FoundThreshold: nat := 5
  /** A best score above this is answered with high confidence. */
  const HighThreshold: nat := 15

  const NotFoundAnswer: string :=
    "I'm sorry, I couldn't find a specific answer to your question. Please try asking about exam schedules, events, timetables, or holidays."

  const NotFound: MatchResult := MatchResult(false, NotFoundAnswer, "unknown", Low, 0, None)

  /** Rows without keywords or without an answer are skipped. */
  predicate Eligible(row: Row) {
    row.keywords != [] && row.answer != []
  }

  /** The score of a row: its keyword score, plus the boost when its date is
      relevant to the question. */
  function RowScore(question: string, row: Row, cal: Calendar): nat {
    MatchScore(question, row.keywords)
    + (if row.date != [] && IsDateRelevant(row.date, question, cal) then DateBoost else 0)
  }

  /** The score a row competes with. A skipped row never replaces the best
      match, and neither does a row scoring 0, since the running maximum
      starts at 0; so a skipped row may as well compete with 0. */
  function Competing(question: string, row: Row, cal: Calendar): nat {
    if Eligible(row) then RowScore(question, row, cal) else 0
  }

  /** The competing score of every row, in row order. */
  function Scores(question: string, rows: seq<Row>, cal: Calendar): (s: seq<nat>)
    ensures |s| == |rows|
  {
    seq(|rows|, i requires 0 <= i < |rows| => Competing(question, rows[i], cal))
  }

  /** Row `k` is the one the scan keeps: it is eligible, it scores above 0,
      no eligible row scores more, and every eligible row before it scores
      less. */
  ghost predicate IsFirstBest(question: string, rows: seq<Row>, cal: Calendar, k: int) {
    && 0 <= k < |rows|
    && Eligible(rows[k])
    && RowScore(question, rows[k], cal) > 0
    && (forall j :: 0 <= j < |rows| && Eligible(rows[j]) ==>
          RowScore(question, rows[j], cal) <= RowScore(question, rows[k], cal))
    && (forall j :: 0 <= j < k && Eligible(rows[j]) ==>
          RowScore(question, rows[j], cal) < RowScore(question, rows[k], cal))
  }

  /** The index of the row the scan keeps, if any. */
  function Best(question: string, rows: seq<Row>, cal: Calendar): Option<nat> {
    ArgMax(Scores(question, rows, cal))
  }

  /** The row at an index the scan may keep. */
  function RowAt(rows: seq<Row>, b: Option<nat>): Option<Row> {
    if b.Some? && b.value < |rows| then Some(rows[b.value]) else None
  }

  /** The result reported for the row kept with its score. */
  function Answered(row: Row, score: nat): MatchResult {
    MatchResult(
      true, row.answer,
      if row.category == [] then "General" else row.category,
      if score > HighThreshold then High else Medium,
      score,
      if row.date == [] then None else Some(row.date))
  }

  /** Result assembly: an answer when a row was kept and the best score
      exceeds the threshold, the fixed apology otherwise. */
  function Respond(bestMatch: Option<Row>, highestScore: nat): MatchResult {
    if bestMatch.Some? && highestScore > FoundThreshold then Answered(bestMatch.value, highestScore)
    else NotFound
  }

  /** What `searchAnswer(question, rows)` returns. */
  function Search(question: string, rows: seq<Row>, cal: Calendar): MatchResult {
    var scores := Scores(question, rows, cal);
    Respond(RowAt(rows, ArgMax(scores)), Max(scores))
  }

  /** `searchAnswer(question, rows)`: the scan keeps the first row with a
      strictly higher score than any before it, and the result is exactly
      `Search`. */
  method SearchAnswer(question: string, rows: seq<Row>, cal: Calendar) returns (r: MatchResult)
    ensures r == Search(question, rows, cal)
  {
    ghost var scores := Scores(question, rows, cal);
    var bestMatch: Option<Row> := None;
    var highestScore: nat := 0;
    for k := 0 to |rows|
      invariant highestScore == Max(scores[..k])
      invariant bestMatch == RowAt(rows, ArgMax(scores[..k]))
    {
      ScanStep(scores, k);
      var row := rows[k];
      if row.keywords == [] || row.answer == [] {
        continue;
      }
      var score := CalculateMatchScore(question, row.keywords);
      if row.date != [] && IsDateRelevant(row.date, question, cal) {
        score := score + DateBoost;
      }
      assert score == scores[k];
      if score > highestScore {
        highestScore := score;
        bestMatch := Some(row);
      }
    }
    assert scores[..|rows|] == scores;
    r := Respond(bestMatch, highestScore);
  }

  // ------------------------------------------------------------------ lemmas

  /** The row kept is the first best row, and the first best row is kept. */
  lemma BestIffFirstBest(question: string, rows: seq<Row>, cal: Calendar, k: int)
    ensures Best(question, rows, cal) == Some(k) <==> IsFirstBest(question, rows, cal, k)
  {
    var s := Scores(question, rows, cal);
    ArgMaxIff(s, k);
    if IsFirstMax(s, k) {
      FirstMaxIsFirstBest(question, rows, cal, k);
    }
    if IsFirstBest(question, rows, cal, k) {
      FirstBestIsFirstMax(question, rows, cal, k);
    }
  }

  lemma FirstMaxIsFirstBest(question: string, rows: seq<Row>, cal: Calendar, k: int)
    requires IsFirstMax(Scores(question, rows, cal), k)
    ensures IsFirstBest(question, rows, cal, k)
  {
    var s := Scores(question, rows, cal);
    assert s[k] == Competing(question, rows[k], cal);
    forall j | 0 <= j < |rows| && Eligible(rows[j])
      ensures RowScore(question, rows[j], cal) <= RowScore(question, rows[k], cal)
    {
      assert s[j] == Competing(question, rows[j], cal);
    }
    forall j | 0 <= j < k && Eligible(rows[j])
      ensures RowScore(question, rows[j], cal) < RowScore(question, rows[k], cal)
    {
      assert s[j] == Competing(question, rows[j], cal);
    }
  }

  lemma FirstBestIsFirstMax(question: string, rows: seq<Row>, cal: Calendar, k: int)
    requires IsFirstBest(question, rows, cal, k)
    ensures IsFirstMax(Scores(question, rows, cal), k)
  {
    var s := Scores(question, rows, cal);
    assert s[k] == RowScore(question, rows[k], cal);
    forall j | 0 <= j < |s|
      ensures s[j] <= s[k]
    {
      assert s[j] == Competing(question, rows[j], cal);
    }
    forall j | 0 <= j < k
      ensures s[j] < s[k]
    {
      assert s[j] == Competing(question, rows[j], cal);
    }
  }

  /** An answer is found exactly when some eligible row scores above 5. */
  lemma FoundIff(question: string, rows: seq<Row>, cal: Calendar)
    ensures Search(question, rows, cal).found
        <==> exists i :: 0 <= i < |rows| && Eligible(rows[i]) && RowScore(question, rows[i], cal) > FoundThreshold
  {
    var s := Scores(question, rows, cal);
    FoundIffMax(question, rows, cal);
    if Max(s) > FoundThreshold {
      var i :| 0 <= i < |s| && s[i] == Max(s);
      assert Eligible(rows[i]) && RowScore(question, rows[i], cal) > FoundThreshold;
    }
    if exists i :: 0 <= i < |rows| && Eligible(rows[i]) && RowScore(question, rows[i], cal) > FoundThreshold {
      var i :| 0 <= i < |rows| && Eligible(rows[i]) && RowScore(question, rows[i], cal) > FoundThreshold;
      assert s[i] > FoundThreshold;
    }
  }

  /** An answer is found exactly when the highest competing score exceeds 5. */
  lemma FoundIffMax(question: string, rows: seq<Row>, cal: Calendar)
    ensures Search(question, rows, cal).found <==> Max(Scores(question, rows, cal)) > FoundThreshold
  {
    MaxAtArgMax(Scores(question, rows, cal));
  }

  /** A found answer is that of the first best row: its answer, its category
      (or "General"), its date (or none), its score; the confidence is high
      exactly when the score exceeds 15 and medium otherwise. Anything else
      is the fixed apology. */
  lemma ResultOfSearch(question: string, rows: seq<Row>, cal: Calendar)
    ensures var r := Search(question, rows, cal);
      && (r.found ==> exists k :: IsFirstBest(question, rows, cal, k)
                                && r == Answered(rows[k], RowScore(question, rows[k], cal)))
      && (r.found ==> r.matchScore > FoundThreshold && r.confidence != Low
                      && (r.confidence == High <==> r.matchScore > HighThreshold))
      && (!r.found ==> r == NotFound)
  {
    var s := Scores(question, rows, cal);
    MaxAtArgMax(s);
    var b := ArgMax(s);
    if b.Some? {
      BestIffFirstBest(question, rows, cal, b.value);
    }
  }

  /** With no rows, or no eligible row, nothing is found. */
  lemma NoCandidatesNotFound(question: string, rows: seq<Row>, cal: Calendar)
    requires forall i :: 0 <= i < |rows| ==> !Eligible(rows[i])
    ensures Search(question, rows, cal) == NotFound
  {
    FoundIff(question, rows, cal);
    ResultOfSearch(question, rows, cal);
  }

  /** Ties go to the earlier row: a row is never kept when an earlier
      eligible row scores at least as much. */
  lemma EarlierRowWinsTies(question: string, rows: seq<Row>, cal: Calendar, i: nat, j: nat)
    requires i < j < |rows| && Eligible(rows[i])
    requires RowScore(question, rows[i], cal) >= RowScore(question, rows[j], cal)
    ensures Best(question, rows, cal) != Some(j)
  {
    BestIffFirstBest(question, rows, cal, j);
  }

  lemma ScoresAppend(question: string, a: seq<Row>, b: seq<Row>, cal: Calendar)
    ensures Scores(question, a + b, cal) == Scores(question, a, cal) + Scores(question, b, cal)
  {
    var s, sa, sb := Scores(question, a + b, cal), Scores(question, a, cal), Scores(question, b, cal);
    forall i | 0 <= i < |s|
      ensures s[i] == (sa + sb)[i]
    {
      if i < |a| {
        assert (a + b)[i] == a[i];
      } else {
        assert (a + b)[i] == b[i - |a|];
      }
    }
  }

  /** An ineligible row plays no part: removing it anywhere does not change
      the result. */
  lemma IneligibleRowIgnored(question: string, a: seq<Row>, x: Row, b: seq<Row>, cal: Calendar)
    requires !Eligible(x)
    ensures Search(question, a + [x] + b, cal) == Search(question, a + b, cal)
  {
    var sa, sb := Scores(question, a, cal), Scores(question, b, cal);
    ScoresWithIneligible(question, a, x, b, cal);
    ScoresAppend(question, a, b, cal);
    ZeroIgnored(sa, sb);
    RowAtShift(a, x, b, ArgMax(sa + sb));
  }

  lemma ScoresWithIneligible(question: string, a: seq<Row>, x: Row, b: seq<Row>, cal: Calendar)
    requires !Eligible(x)
    ensures Scores(question, a + [x] + b, cal) == Scores(question, a, cal) + [0] + Scores(question, b, cal)
  {
    ScoresAppend(question, a + [x], b, cal);
    ScoresAppend(question, a, [x], cal);
    assert Scores(question, [x], cal) == [0];
  }

  lemma RowAtShift(a: seq<Row>, x: Row, b: seq<Row>, o: Option<nat>)
    requires o.Some? ==> o.value < |a + b|
    ensures RowAt(a + [x] + b, ShiftPast(o, |a|)) == RowAt(a + b, o)
  {
    if o.Some? {
      var k := o.value;
      if k < |a| {
        assert (a + [x] + b)[k] == (a + b)[k];
      } else {
        assert (a + [x] + b)[k + 1] == (a + b)[k];
      }
    }
  }

  /** A question that names no time makes every date relevant, so an
      eligible row with a date scores at least 15 and an answer is always
      found, however unrelated its keywords. */
  lemma UntimedQuestionFindsDatedRow(question: string, rows: seq<Row>, cal: Calendar, i: nat)
    requires TimeWordOf(question) == NoTimeWord
    requires i < |rows| && Eligible(rows[i]) && rows[i].date != []
    ensures Search(question, rows, cal).found
    ensures Search(question, rows, cal).matchScore >= DateBoost
  {
    RelevantIffInWindow(rows[i].date, question, cal);
    assert RowScore(question, rows[i], cal) >= DateBoost;
    FoundIff(question, rows, cal);
    ResultOfSearch(question, rows, cal);
  }

  /** A row whose keyword score exceeds 5 and beats every other eligible
      row's by more than the date boost is the answer, whatever the dates. */
  lemma KeywordLeadWins(question: string, rows: seq<Row>, cal: Calendar, k: nat)
    requires k < |rows| && Eligible(rows[k])
    requires MatchScore(question, rows[k].keywords) > FoundThreshold
    requires forall j :: 0 <= j < |rows| && j != k && Eligible(rows[j]) ==>
               MatchScore(question, rows[j].keywords) + DateBoost < MatchScore(question, rows[k].keywords)
    ensures Search(question, rows, cal) == Answered(rows[k], RowScore(question, rows[k], cal))
  {
    assert IsFirstBest(question, rows, cal, k);
    BestIffFirstBest(question, rows, cal, k);
    MaxAtArgMax(Scores(question, rows, cal));
  }

  /** A relevant date adds exactly 15 to a row's score: the same row with
      its date cell emptied scores 15 less, or the same if the date is not
      relevant. */
  lemma DateBoostAdds(question: string, row: Row, cal: Calendar)
    ensures RowScore(question, row, cal) ==
      RowScore(question, row.(date := []), cal)
      + (if IsDateRelevant(row.date, question, cal) then DateBoost else 0)
  {}

  /** A row dated today gets the boost when the question says "today". */
  lemma TodayBoost(question: string, row: Row, cal: Calendar)
    requires Contains(Lower(question), "today")
    requires row.date != [] && cal.parse(row.date).Some?
    requires DayOf(cal.parse(row.date).value) == DayOf(cal.now)
    ensures RowScore(question, row, cal) == RowScore(question, row.(date := []), cal) + DateBoost
  {}
}
