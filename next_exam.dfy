/**
 * "When is the next exam?" asked against the fallback rows. The exam row
 * scores 20 from its keywords and every other row at most 3, so even the 15
 * of a relevant date cannot lift another row to it: the exam row is the
 * answer whatever the date today, always with high confidence, and the
 * score is 35 when the exam date is still to come and 20 otherwise.
 */
module NextExam {
  import opened Wrappers
  import opened Text
  import opened DateRelevance
  import opened Scoring
  import opened Search
  import opened MockTable
  import opened MockKeywords

  /** The keyword scores of the five keyword cells. */
  lemma KeywordScores(question: string)
    requires question == "When is the next exam?"
    ensures MatchScore(question, ExamKeywords) == 2 * PhrasePoints
    ensures MatchScore(question, EventsKeywords) == WordPoints
    ensures MatchScore(question, TimetableKeywords) == 0
    ensures MatchScore(question, HolidaysKeywords) == 0
    ensures MatchScore(question, GeneralKeywords) == 0
  {
    ExamRow(question, ExamKeywords);
    EventsRow(question, EventsKeywords);
    TimetableRow(question, TimetableKeywords);
    HolidaysRow(question, HolidaysKeywords);
    GeneralRow(question, GeneralKeywords);
  }

  /** The cells of the fallback rows the argument needs. */
  lemma MockCells()
    ensures |MockData| == 5
    ensures forall j :: 0 <= j < |MockData| ==> Eligible(MockData[j])
    ensures MockData[0] == Row("Exam Schedule", ExamKeywords, ExamAnswer, "2026-02-13", "2026-03-15")
    ensures MockData[1].keywords == EventsKeywords
    ensures MockData[2].keywords == TimetableKeywords
    ensures MockData[3].keywords == HolidaysKeywords
    ensures MockData[4].keywords == GeneralKeywords
  {}

  /** The question names "next" and no earlier time word. */
  lemma NamesNext(question: string)
    requires question == "When is the next exam?"
    ensures TimeWordOf(question) == Next
  {
    NextExamLower(question);
    var lq := Lower(question);
    MissingCharNotContained(lq, "today", 'o');
    MissingCharNotContained(lq, "tomorrow", 'o');
    MissingCharNotContained(lq, "week", 'k');
    assert OccursAt(lq, "next", 12);
  }

  /** Under "next", a dated row earns the boost exactly when its date parses
      and is not yet past. */
  lemma RowScoreUnderNext(question: string, row: Row, cal: Calendar)
    requires TimeWordOf(question) == Next && row.date != []
    ensures RowScore(question, row, cal)
         == MatchScore(question, row.keywords)
            + if cal.parse(row.date).Some? && cal.parse(row.date).value >= cal.now then DateBoost else 0
  {
    RelevantIffInWindow(row.date, question, cal);
  }

  /** Every row but the exam row scores at most 3 from its keywords. */
  lemma ExamRowLeads(question: string)
    requires question == "When is the next exam?"
    ensures MatchScore(question, MockData[0].keywords) == 20
    ensures forall j :: 1 <= j < |MockData| ==> MatchScore(question, MockData[j].keywords) <= 3
  {
    MockCells();
    KeywordScores(question);
    LeadOfFive(question, MockData, WordPoints);
  }

  lemma LeadOfFive(question: string, rows: seq<Row>, bound: nat)
    requires |rows| == 5
    requires MatchScore(question, rows[1].keywords) <= bound
    requires MatchScore(question, rows[2].keywords) <= bound
    requires MatchScore(question, rows[3].keywords) <= bound
    requires MatchScore(question, rows[4].keywords) <= bound
    ensures forall j :: 1 <= j < |rows| ==> MatchScore(question, rows[j].keywords) <= bound
  {
    forall j | 1 <= j < |rows|
      ensures MatchScore(question, rows[j].keywords) <= bound
    {
      assert j == 1 || j == 2 || j == 3 || j == 4;
    }
  }

  /** The question is answered from the exam row with high confidence,
      whatever the date today; the score is 35 when the exam date parses
      and is still to come, and 20 otherwise. */
  lemma NextExamAnswered(question: string, cal: Calendar)
    requires question == "When is the next exam?"
    ensures var r := Search.Search(question, MockData, cal);
      && r.found
      && r.answer == ExamAnswer
      && r.category == "Exam Schedule"
      && r.confidence == High
      && r.date == Some("2026-03-15")
      && r.matchScore
         == if cal.parse("2026-03-15").Some? && cal.parse("2026-03-15").value >= cal.now then 35 else 20
  {
    MockCells();
    ExamRowLeads(question);
    KeywordLeadWins(question, MockData, cal, 0);
    NamesNext(question);
    RowScoreUnderNext(question, MockData[0], cal);
  }
}
