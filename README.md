# Academic-info matcher in Dafny

A model of the answer engine in `backend/server.js` of the academic
information assistant. Given a student's question and the rows of the
academic sheet (category, keywords, answer, last updated, date), it picks
one answer:

- `calculateMatchScore` scores a row's keyword cell against the question.
  Each comma-separated keyword earns 10 when it occurs in the lowercased
  question. Otherwise it earns 3 for every question word that it includes
  or that includes it.
- `isDateRelevant` decides whether a row's date suits the question's time
  word ("today", "tomorrow", "week", "next", or none).
- `searchAnswer` scans the rows. It skips rows without keywords or answer
  and adds 15 for a relevant date. It keeps the first row with the highest
  positive score, reports it when the score exceeds 5, and gives high
  confidence above 15.
- The category route keeps the rows whose category matches the requested
  one, ignoring case.
- `MOCK_DATA` is the five-row fallback table.

Modules:

| file | module | models |
|---|---|---|
| `wrappers.dfy` | `Wrappers` | `Option` |
| `text.dfy` | `Text` | `toLowerCase` (ASCII letters), `trim`, `split(',')`, `split(/\s+/)`, `includes` |
| `scoring.dfy` | `Scoring` | `calculateMatchScore`: the specification function `MatchScore` and the nested-loop method `CalculateMatchScore` proved equal to it |
| `dates.dfy` | `DateRelevance` | `isDateRelevant`, with the clock and the date parser as parameters |
| `selection.dfy` | `Selection` | the running-maximum scan over a sequence of scores |
| `search.dfy` | `Search` | `searchAnswer`: the specification function `Search` and the scanning method `SearchAnswer` proved equal to it |
| `category.dfy` | `Category` | the filter of the category route |
| `mock_data.dfy` | `MockTable` | `MOCK_DATA`, and questions answered from it |
| `mock_keywords.dfy` | `MockKeywords` | the keyword scores of the `MOCK_DATA` rows for "When is the next exam?" |
| `next_exam.dfy` | `NextExam` | the answer `searchAnswer` gives to "When is the next exam?" over `MOCK_DATA` |

How the JavaScript is represented:

- Strings are `seq<char>`.
- A missing cell is the empty string. JavaScript's falsy checks (`!keywords`,
  `date && …`, `row[0] && …`, `category || 'General'`) are tests for the
  empty string.
- `null` for the result's date is `None`.
- Instants are integers: JavaScript time values in milliseconds, read on
  the local clock. An instant is the local wall-clock time counted in
  milliseconds from the local midnight of 1 January 1970, so the UTC
  offset of the server's time zone is already added in.
- `Calendar` carries `now` and the parse of a date cell. The parse gives
  `None` for a cell that makes an Invalid Date. An Invalid Date compares
  false with every instant, and its `toDateString()` is "Invalid Date", so
  only the final fall-through of `isDateRelevant` accepts it.
- A calendar day is the instant divided by the length of a day, floored.
  With instants on the local clock this is the local day that
  `toDateString()` compares.

## Model

| member | source | states |
|---|---|---|
| Text.LowerIdempotent | backend/server.js:59 | lowercasing twice is lowercasing once |
| Text.LowerAppend | backend/server.js:59 | lowercasing works character by character, so it distributes over concatenation |
| Text.LowerOfLowercase | backend/server.js:59 | a string without capital letters is unchanged by lowercasing |
| Text.LowerKeepsSpace | backend/server.js:59-60 | lowercasing keeps white space where it was, so it cannot change where the question splits |
| Text.ContainsEmpty | backend/server.js:72 | the empty string is included in every string |
| Text.MissingCharNotContained | backend/server.js:67 | a string lacking one character of `t` does not include `t` |
| Text.MissingPairNotContained | backend/server.js:67 | a string lacking one pair of adjacent characters of `t` does not include `t` |
| Text.ContainsTransitive | backend/server.js:72 | inclusion is transitive |
| Text.TrimStart | backend/server.js:61 | the result is a suffix of the input, everything removed is white space, and the result does not start with white space |
| Text.TrimEnd | backend/server.js:61 | the result is a prefix of the input, everything removed is white space, and the result does not end with white space |
| Text.Trim | backend/server.js:61 | the trimmed term neither starts nor ends with white space |
| Text.TrimStrips | backend/server.js:61 | the trimmed term occurs in the input with only white space before and after it |
| Text.TrimPadded | backend/server.js:61 | a term without surrounding white space trims to itself, also after a leading blank |
| Text.TrimAllSpace | backend/server.js:61 | an all-white-space piece trims to the empty term |
| Text.Split | backend/server.js:61 | a split on a comma has at least one piece |
| Text.SplitPiecesFree | backend/server.js:61 | no piece of a split holds the separator |
| Text.JoinSplit | backend/server.js:61 | joining the pieces of a split with the separator gives back the string |
| Text.SplitJoin | backend/server.js:61 | splitting a join of separator-free pieces gives back the pieces |
| Text.SplitAfterPiece | backend/server.js:61 | a separator-free piece followed by the separator splits off as the first piece |
| Text.SplitWithoutSeparator | backend/server.js:61 | a string without the separator is one piece |
| Text.SplitSpaces | backend/server.js:60 | there is at least one word, and the first word is empty exactly when the question is empty or starts with white space |
| Text.SplitSpacesWordsFree | backend/server.js:60 | no word of a split on white space holds white space |
| Text.Collapse | backend/server.js:60 | collapsing white-space runs never lengthens the string |
| Text.JoinSplitSpaces | backend/server.js:60 | joining the words with blanks gives the question with every white-space run collapsed to one blank |
| Text.SplitSpacesIsSplitOfCollapse | backend/server.js:60 | splitting on white-space runs is splitting the collapsed question on single blanks |
| Text.SplitSpacesOfWord | backend/server.js:60 | a string without white space is a single word |
| Text.SplitSpacesAfterWord | backend/server.js:60 | a word followed by a blank splits off as the first word |
| Text.SplitSpacesJoin | backend/server.js:60 | splitting non-empty blank-free words joined by blanks gives back the words |
| Scoring.CountRelated | backend/server.js:71-75 | the related-word count is at most the number of words, and is zero exactly when no word is related |
| Scoring.CalculateMatchScore | backend/server.js:58-80 | the nested loops return exactly `MatchScore`: the sum over the keyword terms of 10 for a phrase hit, else 3 per related word |
| Scoring.TotalAppend | backend/server.js:65-77 | the score of a keyword list is the sum of the scores of its parts |
| Scoring.TotalIsSum | backend/server.js:63-79 | the score is the plain sum of what each keyword term adds |
| Scoring.CountRelatedAppend | backend/server.js:71-75 | related words of a concatenation add up |
| Scoring.OneRelatedWord | backend/server.js:71-75 | exactly one related word earns a keyword 3 |
| Scoring.MatchScoreIgnoresCase | backend/server.js:59-61 | lowercasing the question or the keyword cell beforehand does not change the score |
| Scoring.UnrelatedKeywordEarnsNothing | backend/server.js:65-76 | a keyword that is not in the question and includes none of its words earns 0 |
| Scoring.CountPhrases | backend/server.js:67 | at most one phrase hit per keyword term |
| Scoring.PhrasesEarnTen | backend/server.js:65-68 | a keyword list earns at least 10 per term found in the question |
| Scoring.MatchScoreCountsPhrases | backend/server.js:58-80 | a row's score is at least 10 per keyword term that occurs in the lowercased question |
| Scoring.EmptyTermInTotal | backend/server.js:65-68 | a list holding the empty term earns at least 10 |
| Scoring.EmptyTermEarnsTen | backend/server.js:61 | an empty keyword term, as `"a, ,b"` produces, earns 10 whatever the question |
| Scoring.LeadingEmptyWordEarnsThree | backend/server.js:60 | an empty question, or one starting with white space, has an empty first word, and every keyword term then earns at least 3 |
| Scoring.EveryTermEarnsThree | backend/server.js:71-74 | when the first word is empty, every keyword term earns at least 3 |
| DateRelevance.SameDay | backend/server.js:97 | two instants share a calendar day exactly when the first lies in the second's day interval |
| DateRelevance.NextDay | backend/server.js:89-90 | one day after an instant falls on the following calendar day |
| DateRelevance.ThisWeekMeansWeek | backend/server.js:106 | the "this week" test adds nothing to the "week" test |
| DateRelevance.RelevantIffInWindow | backend/server.js:85-118 | a date is relevant exactly when the cell is non-empty and its instant lies in the window of the first time word the question names: today's day, tomorrow's day, now to now plus 7 days, from now on, or anything for no time word |
| DateRelevance.UnparsableDate | backend/server.js:93-117 | an unparsable date is relevant exactly when the cell is non-empty and the question names no time |
| DateRelevance.RelevanceIgnoresCase | backend/server.js:92 | the question's letter case plays no part |
| Selection.Max | backend/server.js:141-142 | the running maximum starting at 0 bounds every score and is 0 or one of them |
| Selection.FirstWith | backend/server.js:141 | the first index holding a value, with no earlier index holding it |
| Selection.ArgMax | backend/server.js:141-149 | the index kept is the first holding the highest positive score, and none is kept exactly when every score is 0 |
| Selection.FirstMaxUnique | backend/server.js:141-149 | only one index is the first maximum |
| Selection.ArgMaxIff | backend/server.js:141-149 | `ArgMax` gives `k` exactly when `k` is the first maximum |
| Selection.MaxAtArgMax | backend/server.js:141-149 | the highest score is the score at the kept index, or 0 |
| Selection.ScanStep | backend/server.js:141-150 | one step of the scan replaces the maximum and the kept index exactly when the new score is strictly higher |
| Selection.InsertZeroKeepsFirstMax | backend/server.js:131 | inserting a 0 score moves the first maximum past it and changes nothing else |
| Selection.InsertZeroKeepsZeros | backend/server.js:131 | inserting a 0 into all-zero scores keeps them all zero |
| Selection.ZeroIgnoredSome | backend/server.js:131 | with a kept index, an inserted 0 keeps the maximum and shifts the index past it |
| Selection.ZeroIgnoredNone | backend/server.js:131 | with no kept index, an inserted 0 keeps none |
| Selection.ZeroIgnored | backend/server.js:131 | a 0 score anywhere changes neither the maximum nor, after shifting, the kept index |
| Search.Scores | backend/server.js:127-139 | one competing score per row |
| Search.SearchAnswer | backend/server.js:123-172 | the scan returns exactly `Search`: the first row with the highest positive score among rows with keywords and answer, answered when that score exceeds 5 |
| Search.BestIffFirstBest | backend/server.js:124-150 | the row kept is the first best row, and the first best row is kept |
| Search.FirstMaxIsFirstBest | backend/server.js:141-150 | the first maximum of the scores is the first best row |
| Search.FirstBestIsFirstMax | backend/server.js:141-150 | the first best row is the first maximum of the scores |
| Search.FoundIff | backend/server.js:154 | an answer is found exactly when some row with keywords and answer scores above 5 |
| Search.FoundIffMax | backend/server.js:154 | an answer is found exactly when the highest score exceeds 5 |
| Search.ResultOfSearch | backend/server.js:154-170 | a found answer is that of the first best row (answer, category or "General", date or none, score), with high confidence exactly above 15 and medium otherwise; anything else is the fixed apology |
| Search.NoCandidatesNotFound | backend/server.js:131 | with no row having keywords and answer (in particular no rows) the result is the apology |
| Search.EarlierRowWinsTies | backend/server.js:141 | a later row that does not score more than an earlier eligible row is never kept |
| Search.ScoresAppend | backend/server.js:127 | the scores of a concatenation are the concatenated scores |
| Search.ScoresWithIneligible | backend/server.js:131 | a skipped row contributes a 0 score |
| Search.RowAtShift | backend/server.js:131 | an index shifted past an inserted row names the same row |
| Search.IneligibleRowIgnored | backend/server.js:131 | inserting a row without keywords or answer anywhere leaves the result unchanged |
| Search.UntimedQuestionFindsDatedRow | backend/server.js:137-139 | a question naming no time finds an answer scoring at least 15 whenever some eligible row has a date |
| Search.KeywordLeadWins | backend/server.js:134-154 | a row whose keyword score exceeds 5 and beats every other eligible row's by more than 15 is the answer, whatever the dates |
| Search.DateBoostAdds | backend/server.js:137-139 | a relevant date adds exactly 15 to a row's score |
| Search.TodayBoost | backend/server.js:96-97 | a row dated today gets the boost when the question says "today" |
| Category.FilterByCategory | backend/server.js:251-253 | the kept rows number at most the input's and are exactly the input rows whose category cell is non-empty and equal to the requested one ignoring case |
| Category.FilterAppend | backend/server.js:251-253 | filtering works row by row, so kept rows stay in input order |
| Category.FilterCounts | backend/server.js:251-253 | each row in the category is kept as often as it occurs, and no other row is kept |
| Category.FilterKeepsAll | backend/server.js:251-253 | rows all in the category are kept unchanged |
| Category.FilterIdempotent | backend/server.js:251-253 | filtering twice is filtering once |
| Category.CategoryIgnoresCase | backend/server.js:252 | the requested name's letter case plays no part |
| Category.FilterSameCategories | backend/server.js:252 | two names that select the same rows filter alike |
| Category.UncategorisedNeverKept | backend/server.js:252 | a row with an empty category cell is never kept |
| MockTable.NoTimeWordWithoutTW | backend/server.js:96-117 | a lowercase question without the letters t and w names no time word |
| MockTable.GibberishNamesNoTime | backend/server.js:96-117 | "asdkjasdk random gibberish" names no time word |
| MockTable.GibberishIsAnswered | backend/server.js:27-33 | over the fallback rows, "asdkjasdk random gibberish" is answered with a score of at least 15, whatever the date |
| MockTable.EmptyQuestionIsAnswered | backend/server.js:27-33 | over the fallback rows, the empty question is answered |
| MockKeywords.KeywordListCons | backend/server.js:61 | a cell's first comma-separated piece gives its first term, and the rest give the rest |
| MockKeywords.Terms5 | backend/server.js:61 | a cell of five terms separated by ", " yields exactly those five terms |
| MockKeywords.Terms4 | backend/server.js:61 | a cell of four terms separated by ", " yields exactly those four terms |
| MockKeywords.Split5 | backend/server.js:60 | five blank-separated words split into exactly those words |
| MockKeywords.NextExamWords | backend/server.js:59-60 | "When is the next exam?" lowercases to "when is the next exam?" and splits into when, is, the, next, exam? |
| MockKeywords.NothingFor | backend/server.js:65-76 | a keyword absent from the question that includes none of its words earns 0 |
| MockKeywords.ExamTerms | backend/server.js:28 | the exam row's cell yields exam, test, midterm, final, next exam |
| MockKeywords.ExamRow | backend/server.js:28 | the exam row's keywords score 20 for the question |
| MockKeywords.EventsTerms | backend/server.js:29 | the events row's cell yields event, fest, cultural, technical, this week |
| MockKeywords.ThisWeekPoints | backend/server.js:29 | "this week" earns 3 for the question, through its word "is" |
| MockKeywords.EventsRow | backend/server.js:29 | the events row's keywords score 3 for the question |
| MockKeywords.TimetableTerms | backend/server.js:30 | the timetable row's cell yields class, schedule, timetable, today, lecture |
| MockKeywords.TimetableRow | backend/server.js:30 | the timetable row's keywords score 0 for the question |
| MockKeywords.HolidaysTerms | backend/server.js:31 | the holidays row's cell yields holiday, vacation, break, upcoming |
| MockKeywords.HolidaysRow | backend/server.js:31 | the holidays row's keywords score 0 for the question |
| MockKeywords.GeneralTerms | backend/server.js:32 | the general row's cell yields help, info, about, hi, hello |
| MockKeywords.GeneralRow | backend/server.js:32 | the general row's keywords score 0 for the question |
| NextExam.KeywordScores | backend/server.js:27-33 | the five keyword cells score 20, 3, 0, 0 and 0 for "When is the next exam?" |
| NextExam.NamesNext | backend/server.js:112-115 | the question's deciding time word is "next" |
| NextExam.RowScoreUnderNext | backend/server.js:113-115 | under "next", a dated row earns the boost exactly when its date parses and is not past |
| NextExam.ExamRowLeads | backend/server.js:27-33 | the exam row's keywords score 20 and every other row's at most 3 |
| NextExam.NextExamAnswered | backend/server.js:123-172 | over the fallback rows "When is the next exam?" is answered from the exam row (its answer, "Exam Schedule", its date) with high confidence, scoring 35 when the exam date parses and is not past and 20 otherwise |

## Behaviour of the code as written

These follow from the code and are proved above. The comments on
`isDateRelevant` and `searchAnswer` (backend/server.js:81-83 and
120-122) do not mention them.

- A question that names no time word makes every dated row's date
  relevant, and so adds 15 to it. Over `MOCK_DATA`, any such question is
  answered, including nonsense words: `MockTable.GibberishIsAnswered`,
  `Search.UntimedQuestionFindsDatedRow`.
- The empty question is answered at the level of `searchAnswer` too
  (`MockTable.EmptyQuestionIsAnswered`). Its only word is empty and is
  included in every keyword (`Scoring.LeadingEmptyWordEarnsThree`). The
  `/api/ask` route rejects a blank question before the matcher runs
  (backend/server.js:213).
- "When is the next exam?" always gets high confidence. The exam row's
  keywords alone score 20, which is above 15, whether or not the date
  boost applies (`NextExam.NextExamAnswered`).

## Left out

- The Express app, its middleware, routes, JSON responses and `app.listen`: HTTP plumbing with no matching logic.
- The blank-question check of `/api/ask` (backend/server.js:213): route validation, outside the matcher.
- The mapping of filtered rows to objects in the category route: only the filter predicate is modelled.
- The Google Sheets client and `getSheetData`'s fallback to `MOCK_DATA`: a foreign API call. The row table is a parameter, and `MOCK_DATA` is a constant.
- The n8n webhook forwarding and the frontend (`frontend/api/n8n.js`, `frontend/src/App.jsx`): network relays and UI with no matching logic.
- JavaScript `Date` parsing, time zones and `toDateString`: the parse of a date cell and the current instant are parameters (`Calendar`).
- DateRelevance.DayOf: assumes one UTC offset for every instant (the local clock runs a fixed distance from UTC), so local days that daylight saving lengthens or shortens to 23 or 25 hours are not modelled.
- Search.SearchAnswer: reads one `now` for the whole scan, where the source reads the clock anew in every `isDateRelevant` call.
- The `lastUpdated` default (`new Date().toISOString()`): wall-clock derived, and never part of the returned result.
- Search.Answered: the not-found result has no `date` key in the source, and the model reports `None` for it as for `null`.
- Text.LowerChar: lowercases only the ASCII letters `A`-`Z`, not the full Unicode case mapping of `toLowerCase`.
- Text.IsSpace: `\s` and `trim` are modelled as the same set of WhiteSpace and LineTerminator code points, and strings are sequences of code points rather than UTF-16 units.
