/**
 * The keyword scores of the fallback rows for the question "When is the
 * next exam?": the exam row earns 20 (the phrases "exam" and "next exam"),
 * the events row 3 (its term "this week" includes the word "is"), every
 * other row 0.
 */
module MockKeywords {
  import opened Text
  import opened Scoring

  // ------------------------------------------- keyword cells (generic)

  /** A keyword term as written in a cell: not empty, no white space at
      either end, no comma, no capital letter. */
  predicate Term(t: string) {
    t != [] && !IsSpace(t[0]) && !IsSpace(t[|t| - 1]) && ',' !in t && NoUpper(t)
  }

  lemma NoUpperAppend(a: string, b: string)
    requires NoUpper(a) && NoUpper(b)
    ensures NoUpper(a + b)
  {
    assert forall i :: 0 <= i < |a + b| ==> (a + b)[i] == if i < |a| then a[i] else b[i - |a|];
  }

  /** A cell without a comma is one term, trimmed. */
  lemma KeywordListOne(k: string)
    requires NoUpper(k) && ',' !in k
    ensures KeywordList(k) == [Trim(k)]
  {
    LowerOfLowercase(k);
    SplitWithoutSeparator(k, ',');
  }

  /** A piece without a comma, a comma, and the rest of the cell: the
      piece's term comes first, then the rest's terms. */
  lemma KeywordListCons(p: string, rest: string)
    requires NoUpper(p) && NoUpper(rest) && ',' !in p
    ensures KeywordList(p + [','] + rest) == [Trim(p)] + KeywordList(rest)
  {
    var k := p + [','] + rest;
    NoUpperAppend(p, [',']);
    NoUpperAppend(p + [','], rest);
    LowerOfLowercase(k);
    LowerOfLowercase(rest);
    SplitAfterPiece(p, rest, ',');
    TrimmedPieces(Split(k, ','), p, Split(rest, ','));
  }

  lemma TrimmedPieces(pieces: seq<string>, p: string, ps: seq<string>)
    requires pieces == [p] + ps
    ensures seq(|pieces|, i requires 0 <= i < |pieces| => Trim(pieces[i]))
         == [Trim(p)] + seq(|ps|, i requires 0 <= i < |ps| => Trim(ps[i]))
  {
  }

  /** A term after its blank: still no capital and no comma, and the blank
      trims away. */
  lemma PaddedTerm(t: string)
    requires Term(t)
    ensures NoUpper([' '] + t) && ',' !in [' '] + t && Trim([' '] + t) == t
  {
    NoUpperAppend([' '], t);
    TrimPadded(t);
  }

  /** The last term of a cell, after its blank. */
  lemma LastTerm(t: string)
    requires Term(t)
    ensures NoUpper([' '] + t)
    ensures KeywordList([' '] + t) == [t]
  {
    PaddedTerm(t);
    KeywordListOne([' '] + t);
  }

  /** A blank, a term, a comma and the rest of the cell. */
  lemma TermThen(t: string, rest: string)
    requires Term(t) && NoUpper(rest)
    ensures NoUpper([' '] + t + [','] + rest)
    ensures KeywordList([' '] + t + [','] + rest) == [t] + KeywordList(rest)
  {
    var p := [' '] + t;
    PaddedTerm(t);
    NoUpperAppend(p, [',']);
    NoUpperAppend(p + [','], rest);
    KeywordListCons(p, rest);
  }

  /** The first term of a cell, its comma and the rest of the cell. */
  lemma FirstTerm(t: string, rest: string)
    requires Term(t) && NoUpper(rest)
    ensures KeywordList(t + [','] + rest) == [t] + KeywordList(rest)
  {
    TrimPadded(t);
    KeywordListCons(t, rest);
  }

  /** Four terms separated by a comma and a blank. */
  lemma Terms4(k: string, t1: string, t2: string, t3: string, t4: string)
    requires Term(t1) && Term(t2) && Term(t3) && Term(t4)
    requires k == t1 + [','] + ([' '] + t2 + [','] + ([' '] + t3 + [','] + ([' '] + t4)))
    ensures KeywordList(k) == [t1, t2, t3, t4]
  {
    var r3 := [' '] + t4;
    var r2 := [' '] + t3 + [','] + r3;
    var r1 := [' '] + t2 + [','] + r2;
    LastTerm(t4);
    TermThen(t3, r3);
    TermThen(t2, r2);
    FirstTerm(t1, r1);
    Nest4(t1, t2, t3, t4);
  }

  /** Five terms separated by a comma and a blank. */
  lemma Terms5(k: string, t1: string, t2: string, t3: string, t4: string, t5: string)
    requires Term(t1) && Term(t2) && Term(t3) && Term(t4) && Term(t5)
    requires k == t1 + [','] + ([' '] + t2 + [','] + ([' '] + t3 + [','] + ([' '] + t4 + [','] + ([' '] + t5))))
    ensures KeywordList(k) == [t1, t2, t3, t4, t5]
  {
    var r4 := [' '] + t5;
    var r3 := [' '] + t4 + [','] + r4;
    var r2 := [' '] + t3 + [','] + r3;
    var r1 := [' '] + t2 + [','] + r2;
    LastTerm(t5);
    TermThen(t4, r4);
    TermThen(t3, r3);
    TermThen(t2, r2);
    FirstTerm(t1, r1);
    Nest5(t1, t2, t3, t4, t5);
  }

  lemma Nest4<T>(a: T, b: T, c: T, d: T)
    ensures [a] + ([b] + ([c] + [d])) == [a, b, c, d]
  {}

  lemma Nest5<T>(a: T, b: T, c: T, d: T, e: T)
    ensures [a] + ([b] + ([c] + ([d] + [e]))) == [a, b, c, d, e]
  {}

  lemma Total4(q: string, words: seq<string>, k1: string, k2: string, k3: string, k4: string)
    ensures Total(q, words, [k1, k2, k3, k4])
         == KeywordPoints(q, words, k1) + KeywordPoints(q, words, k2)
          + KeywordPoints(q, words, k3) + KeywordPoints(q, words, k4)
  {
    assert Total(q, words, [k1]) == KeywordPoints(q, words, k1) by {
      assert [k1][..0] == [];
    }
    assert Total(q, words, [k1, k2]) == Total(q, words, [k1]) + KeywordPoints(q, words, k2) by {
      assert [k1, k2][..1] == [k1];
    }
    assert Total(q, words, [k1, k2, k3]) == Total(q, words, [k1, k2]) + KeywordPoints(q, words, k3) by {
      assert [k1, k2, k3][..2] == [k1, k2];
    }
    assert [k1, k2, k3, k4][..3] == [k1, k2, k3];
  }

  lemma Total5(q: string, words: seq<string>, k1: string, k2: string, k3: string, k4: string, k5: string)
    ensures Total(q, words, [k1, k2, k3, k4, k5])
         == KeywordPoints(q, words, k1) + KeywordPoints(q, words, k2)
          + KeywordPoints(q, words, k3) + KeywordPoints(q, words, k4) + KeywordPoints(q, words, k5)
  {
    assert [k1, k2, k3, k4, k5][..4] == [k1, k2, k3, k4];
    Total4(q, words, k1, k2, k3, k4);
  }

  // ------------------------------------------------------------ the question

  lemma QuestionShape(question: string)
    requires question == "When is the next exam?"
    ensures question == ['W'] + "hen is the next exam?"
  {}

  lemma RestIsLowercase(rest: string)
    requires rest == "hen is the next exam?"
    ensures NoUpper(rest)
  {}

  lemma LowercasedShape(rest: string)
    requires rest == "hen is the next exam?"
    ensures ['w'] + rest == "when is the next exam?"
  {}

  /** Only the capital W changes. */
  lemma NextExamLower(question: string)
    requires question == "When is the next exam?"
    ensures Lower(question) == "when is the next exam?"
  {
    var rest := "hen is the next exam?";
    QuestionShape(question);
    RestIsLowercase(rest);
    LowerOfLowercase(rest);
    LowerAppend(['W'], rest);
    assert Lower(['W']) == ['w'];
    LowercasedShape(rest);
  }

  lemma WordsShape(lq: string)
    requires lq == "when is the next exam?"
    ensures lq == "when" + [' '] + ("is" + [' '] + ("the" + [' '] + ("next" + [' '] + "exam?")))
  {}

  lemma FirstWordsAreWords()
    ensures "when" != [] && NoSpace("when") && "is" != [] && NoSpace("is")
  {}

  lemma LastWordsAreWords()
    ensures "the" != [] && NoSpace("the") && "next" != [] && NoSpace("next") && "exam?" != [] && NoSpace("exam?")
  {}

  /** A word, a blank and a rest that starts with a word split into the
      word and the rest's words. */
  lemma WordThen(w: string, t: string)
    requires NoSpace(w) && t != [] && !IsSpace(t[0])
    ensures SplitSpaces(w + [' '] + t) == [w] + SplitSpaces(t)
  {
    SplitSpacesAfterWord(w, t);
  }

  lemma Split5(s: string, w1: string, w2: string, w3: string, w4: string, w5: string)
    requires w1 != [] && w2 != [] && w3 != [] && w4 != [] && w5 != []
    requires NoSpace(w1) && NoSpace(w2) && NoSpace(w3) && NoSpace(w4) && NoSpace(w5)
    requires s == w1 + [' '] + (w2 + [' '] + (w3 + [' '] + (w4 + [' '] + w5)))
    ensures SplitSpaces(s) == [w1, w2, w3, w4, w5]
  {
    var t3 := w4 + [' '] + w5;
    var t2 := w3 + [' '] + t3;
    var t1 := w2 + [' '] + t2;
    SplitSpacesOfWord(w5);
    WordThen(w4, w5);
    WordThen(w3, t3);
    WordThen(w2, t2);
    WordThen(w1, t1);
  }

  lemma NextExamSplit(lq: string)
    requires lq == "when is the next exam?"
    ensures SplitSpaces(lq) == ["when", "is", "the", "next", "exam?"]
  {
    WordsShape(lq);
    FirstWordsAreWords();
    LastWordsAreWords();
    Split5(lq, "when", "is", "the", "next", "exam?");
  }

  /** The lowercased question and its words. */
  lemma NextExamWords(question: string)
    requires question == "When is the next exam?"
    ensures Lower(question) == "when is the next exam?"
    ensures QuestionWords(question) == ["when", "is", "the", "next", "exam?"]
  {
    NextExamLower(question);
    NextExamSplit(Lower(question));
  }

  /** Every word of the question occurs in it. */
  lemma WordsOccur(lq: string, words: seq<string>)
    requires lq == "when is the next exam?"
    requires words == ["when", "is", "the", "next", "exam?"]
    ensures forall i :: 0 <= i < |words| ==> Contains(lq, words[i])
  {
    assert OccursAt(lq, words[0], 0) && OccursAt(lq, words[1], 5) && OccursAt(lq, words[2], 8);
    assert OccursAt(lq, words[3], 12) && OccursAt(lq, words[4], 17);
  }

  // ------------------------------------------------- keywords that earn nothing

  /** A keyword earns nothing for this question when it does not occur in
      it and includes none of its words: it lacks "x" and "?" (so neither
      "next" nor "exam?"), lacks "w" or "n" (so not "when"), lacks "i" or
      "s" (so not "is"), and does not include "the". */
  lemma NothingFor(lq: string, words: seq<string>, k: string)
    requires lq == "when is the next exam?"
    requires words == ["when", "is", "the", "next", "exam?"]
    requires !Contains(lq, k)
    requires 'x' !in k && '?' !in k && ('w' !in k || 'n' !in k) && ('i' !in k || 's' !in k)
    requires !Contains(k, "the")
    ensures KeywordPoints(lq, words, k) == 0
  {
    WordsOccur(lq, words);
    if 'w' !in k {
      MissingCharNotContained(k, "when", 'w');
    } else {
      MissingCharNotContained(k, "when", 'n');
    }
    if 'i' !in k {
      MissingCharNotContained(k, "is", 'i');
    } else {
      MissingCharNotContained(k, "is", 's');
    }
    MissingCharNotContained(k, "next", 'x');
    MissingCharNotContained(k, "exam?", '?');
    assert forall i :: 0 <= i < |words| ==> !Contains(k, words[i]);
    UnrelatedKeywordEarnsNothing(lq, words, k);
  }

  /** The usual case of `NothingFor`: the keyword holds a letter `c` the
      question lacks, and lacks a letter `d` of "the". */
  lemma Unrelated(lq: string, words: seq<string>, k: string, c: char, d: char)
    requires lq == "when is the next exam?"
    requires words == ["when", "is", "the", "next", "exam?"]
    requires c in k && c !in lq && d in "the" && d !in k
    requires 'x' !in k && '?' !in k && ('w' !in k || 'n' !in k) && ('i' !in k || 's' !in k)
    ensures KeywordPoints(lq, words, k) == 0
  {
    MissingCharNotContained(lq, k, c);
    MissingCharNotContained(k, "the", d);
    NothingFor(lq, words, k);
  }

  // ---------------------------------------------------------- the exam row

  lemma ExamCell(k: string)
    requires k == "exam, test, midterm, final, next exam"
    ensures k == "exam" + [','] + ([' '] + "test" + [','] + ([' '] + "midterm" + [','] + ([' '] + "final" + [','] + ([' '] + "next exam"))))
  {}

  lemma ExamTermsAreTerms()
    ensures Term("exam") && Term("test") && Term("midterm") && Term("final") && Term("next exam")
  {}

  lemma ExamTerms(k: string)
    requires k == "exam, test, midterm, final, next exam"
    ensures KeywordList(k) == ["exam", "test", "midterm", "final", "next exam"]
  {
    ExamCell(k);
    ExamTermsAreTerms();
    Terms5(k, "exam", "test", "midterm", "final", "next exam");
  }

  /** "exam" and "next exam" occur in the question. */
  lemma PhrasesOfNextExam(lq: string, words: seq<string>)
    requires lq == "when is the next exam?"
    ensures KeywordPoints(lq, words, "exam") == PhrasePoints
    ensures KeywordPoints(lq, words, "next exam") == PhrasePoints
  {
    assert OccursAt(lq, "exam", 17) && OccursAt(lq, "next exam", 12);
  }

  /** The exam row scores 20 from its keywords. */
  lemma ExamRow(question: string, keywords: string)
    requires question == "When is the next exam?"
    requires keywords == "exam, test, midterm, final, next exam"
    ensures MatchScore(question, keywords) == 2 * PhrasePoints
  {
    NextExamWords(question);
    ExamTerms(keywords);
    var lq, words := Lower(question), QuestionWords(question);
    PhrasesOfNextExam(lq, words);
    NothingForTest(lq, words);
    NothingForMidterm(lq, words);
    NothingForFinal(lq, words);
    Total5(lq, words, "exam", "test", "midterm", "final", "next exam");
  }

  // -------------------------------------------------------- the events row

  lemma EventsCell(k: string)
    requires k == "event, fest, cultural, technical, this week"
    ensures k == "event" + [','] + ([' '] + "fest" + [','] + ([' '] + "cultural" + [','] + ([' '] + "technical" + [','] + ([' '] + "this week"))))
  {}

  lemma EventsTermsAreTerms()
    ensures Term("event") && Term("fest") && Term("cultural") && Term("technical") && Term("this week")
  {}

  lemma EventsTerms(k: string)
    requires k == "event, fest, cultural, technical, this week"
    ensures KeywordList(k) == ["event", "fest", "cultural", "technical", "this week"]
  {
    EventsCell(k);
    EventsTermsAreTerms();
    Terms5(k, "event", "fest", "cultural", "technical", "this week");
  }

  /** "this week" is not in the question but includes its word "is", and
      no other of its words. */
  lemma ThisWeekPoints(lq: string, words: seq<string>, k: string)
    requires lq == "when is the next exam?"
    requires words == ["when", "is", "the", "next", "exam?"]
    requires k == "this week"
    ensures KeywordPoints(lq, words, k) == WordPoints
  {
    MissingCharNotContained(lq, k, 'k');
    assert OccursAt(k, words[1], 2);
    forall i | 0 <= i < |k| - 1
      ensures !(k[i] == 'h' && k[i + 1] == 'e')
    {
    }
    MissingPairNotContained(k, "the", 1);
    MissingCharNotContained(k, "when", 'n');
    MissingCharNotContained(k, "next", 'x');
    MissingCharNotContained(k, "exam?", 'x');
    forall i | 0 <= i < |words|
      ensures !Contains(words[i], k)
    {
      MissingCharNotContained(words[i], k, 'k');
    }
    OneRelatedWord(words, k, 1);
  }

  /** The events row scores 3 from its keywords. */
  lemma EventsRow(question: string, keywords: string)
    requires question == "When is the next exam?"
    requires keywords == "event, fest, cultural, technical, this week"
    ensures MatchScore(question, keywords) == WordPoints
  {
    NextExamWords(question);
    EventsTerms(keywords);
    var lq, words := Lower(question), QuestionWords(question);
    NothingForEvent(lq, words);
    NothingForFest(lq, words);
    NothingForCultural(lq, words);
    NothingForTechnical(lq, words);
    ThisWeekPoints(lq, words, "this week");
    Total5(lq, words, "event", "fest", "cultural", "technical", "this week");
  }

  // ----------------------------------------------------- the timetable row

  lemma TimetableCell(k: string)
    requires k == "class, schedule, timetable, today, lecture"
    ensures k == "class" + [','] + ([' '] + "schedule" + [','] + ([' '] + "timetable" + [','] + ([' '] + "today" + [','] + ([' '] + "lecture"))))
  {}

  lemma TimetableTermsAreTerms()
    ensures Term("class") && Term("schedule") && Term("timetable") && Term("today") && Term("lecture")
  {}

  lemma TimetableTerms(k: string)
    requires k == "class, schedule, timetable, today, lecture"
    ensures KeywordList(k) == ["class", "schedule", "timetable", "today", "lecture"]
  {
    TimetableCell(k);
    TimetableTermsAreTerms();
    Terms5(k, "class", "schedule", "timetable", "today", "lecture");
  }

  /** The timetable row scores nothing from its keywords. */
  lemma TimetableRow(question: string, keywords: string)
    requires question == "When is the next exam?"
    requires keywords == "class, schedule, timetable, today, lecture"
    ensures MatchScore(question, keywords) == 0
  {
    NextExamWords(question);
    TimetableTerms(keywords);
    var lq, words := Lower(question), QuestionWords(question);
    NothingForClass(lq, words);
    NothingForSchedule(lq, words);
    NothingForTimetable(lq, words);
    NothingForToday(lq, words);
    NothingForLecture(lq, words);
    Total5(lq, words, "class", "schedule", "timetable", "today", "lecture");
  }

  // ------------------------------------------------------ the holidays row

  lemma HolidaysCell(k: string)
    requires k == "holiday, vacation, break, upcoming"
    ensures k == "holiday" + [','] + ([' '] + "vacation" + [','] + ([' '] + "break" + [','] + ([' '] + "upcoming")))
  {}

  lemma HolidaysTermsAreTerms()
    ensures Term("holiday") && Term("vacation") && Term("break") && Term("upcoming")
  {}

  lemma HolidaysTerms(k: string)
    requires k == "holiday, vacation, break, upcoming"
    ensures KeywordList(k) == ["holiday", "vacation", "break", "upcoming"]
  {
    HolidaysCell(k);
    HolidaysTermsAreTerms();
    Terms4(k, "holiday", "vacation", "break", "upcoming");
  }

  /** The holidays row scores nothing from its keywords. */
  lemma HolidaysRow(question: string, keywords: string)
    requires question == "When is the next exam?"
    requires keywords == "holiday, vacation, break, upcoming"
    ensures MatchScore(question, keywords) == 0
  {
    NextExamWords(question);
    HolidaysTerms(keywords);
    var lq, words := Lower(question), QuestionWords(question);
    NothingForHoliday(lq, words);
    NothingForVacation(lq, words);
    NothingForBreak(lq, words);
    NothingForUpcoming(lq, words);
    Total4(lq, words, "holiday", "vacation", "break", "upcoming");
  }

  // ------------------------------------------------------- the general row

  lemma GeneralCell(k: string)
    requires k == "help, info, about, hi, hello"
    ensures k == "help" + [','] + ([' '] + "info" + [','] + ([' '] + "about" + [','] + ([' '] + "hi" + [','] + ([' '] + "hello"))))
  {}

  lemma GeneralTermsAreTerms()
    ensures Term("help") && Term("info") && Term("about") && Term("hi") && Term("hello")
  {}

  lemma GeneralTerms(k: string)
    requires k == "help, info, about, hi, hello"
    ensures KeywordList(k) == ["help", "info", "about", "hi", "hello"]
  {
    GeneralCell(k);
    GeneralTermsAreTerms();
    Terms5(k, "help", "info", "about", "hi", "hello");
  }

  /** The general row scores nothing from its keywords. */
  lemma GeneralRow(question: string, keywords: string)
    requires question == "When is the next exam?"
    requires keywords == "help, info, about, hi, hello"
    ensures MatchScore(question, keywords) == 0
  {
    NextExamWords(question);
    GeneralTerms(keywords);
    var lq, words := Lower(question), QuestionWords(question);
    NothingForHelp(lq, words);
    NothingForInfo(lq, words);
    NothingForAbout(lq, words);
    NothingForHi(lq, words);
    NothingForHello(lq, words);
    Total5(lq, words, "help", "info", "about", "hi", "hello");
  }

  // ------------------------------------------ one lemma per unrelated term

  lemma NothingForTest(lq: string, words: seq<string>)
    requires lq == "when is the next exam?"
    requires words == ["when", "is", "the", "next", "exam?"]
    ensures KeywordPoints(lq, words, "test") == 0
  {
    forall i | 0 <= i < |lq| - 1
      ensures !(lq[i] == 't' && lq[i + 1] == 'e')
    {
    }
    MissingPairNotContained(lq, "test", 0);
    MissingCharNotContained("test", "the", 'h');
    NothingFor(lq, words, "test");
  }

  lemma NothingForMidterm(lq: string, words: seq<string>)
    requires lq == "when is the next exam?"
    requires words == ["when", "is", "the", "next", "exam?"]
    ensures KeywordPoints(lq, words, "midterm") == 0
  {
    Unrelated(lq, words, "midterm", 'd', 'h');
  }

  lemma NothingForFinal(lq: string, words: seq<string>)
    requires lq == "when is the next exam?"
    requires words == ["when", "is", "the", "next", "exam?"]
    ensures KeywordPoints(lq, words, "final") == 0
  {
    Unrelated(lq, words, "final", 'f', 't');
  }

  lemma NothingForEvent(lq: string, words: seq<string>)
    requires lq == "when is the next exam?"
    requires words == ["when", "is", "the", "next", "exam?"]
    ensures KeywordPoints(lq, words, "event") == 0
  {
    Unrelated(lq, words, "event", 'v', 'h');
  }

  lemma NothingForFest(lq: string, words: seq<string>)
    requires lq == "when is the next exam?"
    requires words == ["when", "is", "the", "next", "exam?"]
    ensures KeywordPoints(lq, words, "fest") == 0
  {
    Unrelated(lq, words, "fest", 'f', 'h');
  }

  lemma NothingForCultural(lq: string, words: seq<string>)
    requires lq == "when is the next exam?"
    requires words == ["when", "is", "the", "next", "exam?"]
    ensures KeywordPoints(lq, words, "cultural") == 0
  {
    Unrelated(lq, words, "cultural", 'c', 'h');
  }

  lemma NothingForTechnical(lq: string, words: seq<string>)
    requires lq == "when is the next exam?"
    requires words == ["when", "is", "the", "next", "exam?"]
    ensures KeywordPoints(lq, words, "technical") == 0
  {
    var t := "technical";
    forall i | 0 <= i < |t| - 1
      ensures !(t[i] == 'h' && t[i + 1] == 'e')
    {
    }
    MissingPairNotContained(t, "the", 1);
    MissingCharNotContained(lq, t, 'c');
    NothingFor(lq, words, t);
  }

  lemma NothingForClass(lq: string, words: seq<string>)
    requires lq == "when is the next exam?"
    requires words == ["when", "is", "the", "next", "exam?"]
    ensures KeywordPoints(lq, words, "class") == 0
  {
    Unrelated(lq, words, "class", 'c', 't');
  }

  lemma NothingForSchedule(lq: string, words: seq<string>)
    requires lq == "when is the next exam?"
    requires words == ["when", "is", "the", "next", "exam?"]
    ensures KeywordPoints(lq, words, "schedule") == 0
  {
    Unrelated(lq, words, "schedule", 'c', 't');
  }

  lemma NothingForTimetable(lq: string, words: seq<string>)
    requires lq == "when is the next exam?"
    requires words == ["when", "is", "the", "next", "exam?"]
    ensures KeywordPoints(lq, words, "timetable") == 0
  {
    Unrelated(lq, words, "timetable", 'b', 'h');
  }

  lemma NothingForToday(lq: string, words: seq<string>)
    requires lq == "when is the next exam?"
    requires words == ["when", "is", "the", "next", "exam?"]
    ensures KeywordPoints(lq, words, "today") == 0
  {
    Unrelated(lq, words, "today", 'o', 'h');
  }

  lemma NothingForLecture(lq: string, words: seq<string>)
    requires lq == "when is the next exam?"
    requires words == ["when", "is", "the", "next", "exam?"]
    ensures KeywordPoints(lq, words, "lecture") == 0
  {
    Unrelated(lq, words, "lecture", 'c', 'h');
  }

  lemma NothingForHoliday(lq: string, words: seq<string>)
    requires lq == "when is the next exam?"
    requires words == ["when", "is", "the", "next", "exam?"]
    ensures KeywordPoints(lq, words, "holiday") == 0
  {
    Unrelated(lq, words, "holiday", 'o', 'e');
  }

  lemma NothingForVacation(lq: string, words: seq<string>)
    requires lq == "when is the next exam?"
    requires words == ["when", "is", "the", "next", "exam?"]
    ensures KeywordPoints(lq, words, "vacation") == 0
  {
    Unrelated(lq, words, "vacation", 'v', 'h');
  }

  lemma NothingForBreak(lq: string, words: seq<string>)
    requires lq == "when is the next exam?"
    requires words == ["when", "is", "the", "next", "exam?"]
    ensures KeywordPoints(lq, words, "break") == 0
  {
    Unrelated(lq, words, "break", 'b', 't');
  }

  lemma NothingForUpcoming(lq: string, words: seq<string>)
    requires lq == "when is the next exam?"
    requires words == ["when", "is", "the", "next", "exam?"]
    ensures KeywordPoints(lq, words, "upcoming") == 0
  {
    Unrelated(lq, words, "upcoming", 'u', 't');
  }

  lemma NothingForHelp(lq: string, words: seq<string>)
    requires lq == "when is the next exam?"
    requires words == ["when", "is", "the", "next", "exam?"]
    ensures KeywordPoints(lq, words, "help") == 0
  {
    Unrelated(lq, words, "help", 'l', 't');
  }

  lemma NothingForInfo(lq: string, words: seq<string>)
    requires lq == "when is the next exam?"
    requires words == ["when", "is", "the", "next", "exam?"]
    ensures KeywordPoints(lq, words, "info") == 0
  {
    Unrelated(lq, words, "info", 'f', 't');
  }

  lemma NothingForAbout(lq: string, words: seq<string>)
    requires lq == "when is the next exam?"
    requires words == ["when", "is", "the", "next", "exam?"]
    ensures KeywordPoints(lq, words, "about") == 0
  {
    Unrelated(lq, words, "about", 'b', 'h');
  }

  lemma NothingForHi(lq: string, words: seq<string>)
    requires lq == "when is the next exam?"
    requires words == ["when", "is", "the", "next", "exam?"]
    ensures KeywordPoints(lq, words, "hi") == 0
  {
    forall i | 0 <= i < |lq| - 1
      ensures !(lq[i] == 'h' && lq[i + 1] == 'i')
    {
    }
    MissingPairNotContained(lq, "hi", 0);
    MissingCharNotContained("hi", "the", 't');
    NothingFor(lq, words, "hi");
  }

  lemma NothingForHello(lq: string, words: seq<string>)
    requires lq == "when is the next exam?"
    requires words == ["when", "is", "the", "next", "exam?"]
    ensures KeywordPoints(lq, words, "hello") == 0
  {
    Unrelated(lq, words, "hello", 'l', 't');
  }
}
