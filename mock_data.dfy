/**
 * The five rows the server answers from when the spreadsheet cannot be
 * read, and what the matcher makes of some questions against them.
 */
module MockTable {
  import opened Text
  import opened DateRelevance
  import opened Search

  const ExamKeywords: string := "exam, test, midterm, final, next exam"
  const ExamAnswer: string :=
    "The next exam is Mathematics on March 15, 2026 at 9:00 AM in Hall A. Please arrive 15 minutes early."
  const EventsKeywords: string := "event, fest, cultural, technical, this week"
  const EventsAnswer: string :=
    "This week's events: Guest Lecture on AI (Feb 14), Coding Workshop (Feb 15), Sports Day (Feb 16)."
  const TimetableKeywords: string := "class, schedule, timetable, today, lecture"
  const TimetableAnswer: string :=
    "Today's schedule: 9 AM - Mathematics (Room 101), 11 AM - Physics Lab (Lab 2), 2 PM - Chemistry (Room 203)."
  const HolidaysKeywords: string := "holiday, vacation, break, upcoming"
  const HolidaysAnswer: string :=
    "Upcoming holidays: Holi (March 14), Spring Break (March 25-30, 2026). Total 8 holidays this semester."
  const GeneralKeywords: string := "help, info, about, hi, hello"
  const GeneralAnswer: string :=
    "I can help you with exam schedules, events, timetables, holidays, and more. Just ask!"

  const MockData: seq<Row> := [
    Row("Exam Schedule", ExamKeywords, ExamAnswer, "2026-02-13", "2026-03-15"),
    Row("Events", EventsKeywords, EventsAnswer, "2026-02-13", "2026-02-14"),
    Row("Timetable", TimetableKeywords, TimetableAnswer, "2026-02-13", "2026-02-13"),
    Row("Holidays", HolidaysKeywords, HolidaysAnswer, "2026-02-13", "2026-03-14"),
    Row("General", GeneralKeywords, GeneralAnswer, "2026-02-13", "")
  ]

  /** A lowercase question without the letters `t` and `w` names no time:
      each time word holds one of them. */
  lemma NoTimeWordWithoutTW(question: string)
    requires NoUpper(question)
    requires 't' !in question && 'w' !in question
    ensures TimeWordOf(question) == NoTimeWord
  {
    LowerOfLowercase(question);
    MissingCharNotContained(question, "today", 't');
    MissingCharNotContained(question, "tomorrow", 't');
    MissingCharNotContained(question, "week", 'w');
    MissingCharNotContained(question, "next", 't');
  }

  /** The nonsense question names no time. */
  lemma GibberishNamesNoTime(question: string)
    requires question == "asdkjasdk random gibberish"
    ensures TimeWordOf(question) == NoTimeWord
  {
    forall i | 0 <= i < |question|
      ensures !('A' <= question[i] <= 'Z') && question[i] != 't' && question[i] != 'w'
    {
    }
    NoTimeWordWithoutTW(question);
  }

  /** A question of nonsense words is answered from the exam row's date
      alone, whatever the date today: it scores at least 15, so it is found. */
  lemma GibberishIsAnswered(question: string, cal: Calendar)
    requires question == "asdkjasdk random gibberish"
    ensures Search.Search(question, MockData, cal).found
    ensures Search.Search(question, MockData, cal).matchScore >= DateBoost
  {
    GibberishNamesNoTime(question);
    UntimedQuestionFindsDatedRow(question, MockData, cal, 0);
  }

  /** The empty question is answered too; the route rejects it before the
      matcher is reached. */
  lemma EmptyQuestionIsAnswered(question: string, cal: Calendar)
    requires question == []
    ensures Search.Search(question, MockData, cal).found
  {
    NoTimeWordWithoutTW(question);
    UntimedQuestionFindsDatedRow(question, MockData, cal, 0);
  }
}
