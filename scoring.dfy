/**
 * How well one row's keywords match a question (`calculateMatchScore`):
 * every keyword that occurs in the question as a phrase earns 10 points;
 * every other keyword earns 3 points per question word that it contains or
 * that contains it.
 */
module Scoring {
  import opened Text

  /** Points for a keyword that occurs in the lowercased question. */
  const PhrasePoints: nat := 10

  /** Points for each question word related to a keyword that does not. */
  const WordPoints: nat := 3

  /** The keyword terms of a row: the cell lowercased, split on commas and
      each piece trimmed. */
  function KeywordList(keywords: string): seq<string> {
    var pieces := Split(Lower(keywords), ',');
    seq(|pieces|, i requires 0 <= i < |pieces| => Trim(pieces[i]))
  }

  /** The words of the lowercased question, split on runs of white space. */
  function QuestionWords(question: string): seq<string> {
    SplitSpaces(Lower(question))
  }

  /** A question word counts for a keyword when either includes the other. */
  predicate Related(word: string, keyword: string) {
    Contains(keyword, word) || Contains(word, keyword)
  }

  /** The number of words related to the keyword: at most the number of
      words, and zero exactly when no word is related. */
  function CountRelated(words: seq<string>, keyword: string): (n: nat)
    ensures n <= |words|
    ensures n == 0 <==> forall i :: 0 <= i < |words| ==> !Related(words[i], keyword)
  {
    if words == [] then 0
    else
      CountRelated(words[..|words| - 1], keyword)
      + (if Related(words[|words| - 1], keyword) then 1 else 0)
  }

  /** What one keyword adds, given the lowercased question and its words. */
  function KeywordPoints(questionLower: string, words: seq<string>, keyword: string): nat {
    if Contains(questionLower, keyword) then PhrasePoints else WordPoints * CountRelated(words, keyword)
  }

  /** The points of a list of keywords, summed left to right. */
  function Total(questionLower: string, words: seq<string>, ks: seq<string>): nat {
    if ks == [] then 0
    else Total(questionLower, words, ks[..|ks| - 1]) + KeywordPoints(questionLower, words, ks[|ks| - 1])
  }

  /** The keyword score of a row with keyword cell `keywords`. */
  function MatchScore(question: string, keywords: string): nat {
    Total(Lower(question), QuestionWords(question), KeywordList(keywords))
  }

  /** `calculateMatchScore(question, keywords)`: the nested loops over the
      keyword terms and the question words add up exactly `MatchScore`. */
  method CalculateMatchScore(question: string, keywords: string) returns (score: nat)
    ensures score == MatchScore(question, keywords)
  {
    var questionLower := Lower(question);
    var questionWords := SplitSpaces(questionLower);
    var keywordList := KeywordList(keywords);
    score := 0;
    for i := 0 to |keywordList|
      invariant score == Total(questionLower, questionWords, keywordList[..i])
    {
      var keyword := keywordList[i];
      ghost var before := score;
      if Contains(questionLower, keyword) {
        score := score + PhrasePoints;
      } else {
        for j := 0 to |questionWords|
          invariant score == before + WordPoints * CountRelated(questionWords[..j], keyword)
        {
          CountRelatedStep(questionWords, keyword, j);
          var word := questionWords[j];
          if Contains(keyword, word) || Contains(word, keyword) {
            score := score + WordPoints;
          }
        }
        assert questionWords[..|questionWords|] == questionWords;
      }
      TotalStep(questionLower, questionWords, keywordList, i);
    }
    assert keywordList[..|keywordList|] == keywordList;
  }

  // ------------------------------------------------------------------ lemmas

  lemma CountRelatedStep(words: seq<string>, keyword: string, j: nat)
    requires j < |words|
    ensures CountRelated(words[..j + 1], keyword)
         == CountRelated(words[..j], keyword) + if Related(words[j], keyword) then 1 else 0
  {
    assert words[..j + 1][..j] == words[..j];
  }

  lemma TotalStep(q: string, words: seq<string>, ks: seq<string>, i: nat)
    requires i < |ks|
    ensures Total(q, words, ks[..i + 1]) == Total(q, words, ks[..i]) + KeywordPoints(q, words, ks[i])
  {
    assert ks[..i + 1][..i] == ks[..i];
  }

  /** The score of a list of keywords is the sum of the scores of its parts. */
  lemma {:induction false} TotalAppend(q: string, words: seq<string>, a: seq<string>, b: seq<string>)
    ensures Total(q, words, a + b) == Total(q, words, a) + Total(q, words, b)
    decreases |b|
  {
    if b == [] {
      assert a + b == a;
    } else {
      var b' := b[..|b| - 1];
      TotalAppend(q, words, a, b');
      assert (a + b)[..|a + b| - 1] == a + b';
    }
  }

  /** Letter case plays no part: lowercasing the question or the keyword
      cell beforehand does not change the score. */
  lemma MatchScoreIgnoresCase(question: string, keywords: string)
    ensures MatchScore(Lower(question), keywords) == MatchScore(question, keywords)
    ensures MatchScore(question, Lower(keywords)) == MatchScore(question, keywords)
  {
    LowerIdempotent(question);
    LowerIdempotent(keywords);
  }

  /** A keyword that does not occur in the question, and includes none of
      its words, earns nothing (when the words occur in the question, as the
      words of a split do). */
  lemma UnrelatedKeywordEarnsNothing(q: string, words: seq<string>, keyword: string)
    requires forall i :: 0 <= i < |words| ==> Contains(q, words[i])
    requires !Contains(q, keyword)
    requires forall i :: 0 <= i < |words| ==> !Contains(keyword, words[i])
    ensures KeywordPoints(q, words, keyword) == 0
  {
    forall i | 0 <= i < |words|
      ensures !Related(words[i], keyword)
    {
      if Contains(words[i], keyword) {
        ContainsTransitive(q, words[i], keyword);
      }
    }
  }

  /** The number of keywords that occur in the question as a phrase. */
  function CountPhrases(q: string, ks: seq<string>): (n: nat)
    ensures n <= |ks|
  {
    if ks == [] then 0
    else CountPhrases(q, ks[..|ks| - 1]) + (if Contains(q, ks[|ks| - 1]) then 1 else 0)
  }

  /** Every keyword found in the question as a phrase earns at least 10. */
  lemma {:induction false} PhrasesEarnTen(q: string, words: seq<string>, ks: seq<string>)
    ensures Total(q, words, ks) >= PhrasePoints * CountPhrases(q, ks)
    decreases |ks|
  {
    if ks != [] {
      PhrasesEarnTen(q, words, ks[..|ks| - 1]);
    }
  }

  /** A score is at least 10 per keyword term found in the lowercased question. */
  lemma MatchScoreCountsPhrases(question: string, keywords: string)
    ensures MatchScore(question, keywords) >= PhrasePoints * CountPhrases(Lower(question), KeywordList(keywords))
  {
    PhrasesEarnTen(Lower(question), QuestionWords(question), KeywordList(keywords));
  }

  /** An empty keyword term (as `"a, ,b"` produces) occurs in every question,
      so it earns 10 whatever the question. */
  lemma EmptyTermEarnsTen(question: string, keywords: string)
    requires [] in KeywordList(keywords)
    ensures MatchScore(question, keywords) >= PhrasePoints
  {
    EmptyTermInTotal(Lower(question), QuestionWords(question), KeywordList(keywords));
  }

  lemma EmptyTermInTotal(q: string, words: seq<string>, ks: seq<string>)
    requires [] in ks
    ensures Total(q, words, ks) >= PhrasePoints
  {
    var i :| 0 <= i < |ks| && ks[i] == [];
    ContainsEmpty(q);
    assert ks == ks[..i] + [ks[i]] + ks[i + 1..];
    TotalAppend(q, words, ks[..i] + [ks[i]], ks[i + 1..]);
    TotalAppend(q, words, ks[..i], [ks[i]]);
    assert Total(q, words, [ks[i]]) == KeywordPoints(q, words, []);
  }

  /** An empty question, or one that starts with white space, yields an empty
      first word; the empty word is included in every keyword, so every term
      earns at least 3 and the score is at least 3 per term. */
  lemma LeadingEmptyWordEarnsThree(question: string, keywords: string)
    requires question == [] || IsSpace(question[0])
    ensures QuestionWords(question)[0] == []
    ensures MatchScore(question, keywords) >= WordPoints * |KeywordList(keywords)|
  {
    LowerKeepsSpace(question);
    var q, words, ks := Lower(question), QuestionWords(question), KeywordList(keywords);
    EveryTermEarnsThree(q, words, ks);
  }

  lemma {:induction false} EveryTermEarnsThree(q: string, words: seq<string>, ks: seq<string>)
    requires |words| > 0 && words[0] == []
    ensures Total(q, words, ks) >= WordPoints * |ks|
    decreases |ks|
  {
    if ks != [] {
      EveryTermEarnsThree(q, words, ks[..|ks| - 1]);
      ContainsEmpty(ks[|ks| - 1]);
      assert Related(words[0], ks[|ks| - 1]);
    }
  }

  /** The sum of a list of points. */
  function Sum(points: seq<nat>): nat {
    if points == [] then 0 else Sum(points[..|points| - 1]) + points[|points| - 1]
  }

  /** The score of a list of keywords is the sum of what each one adds. */
  lemma {:induction false} TotalIsSum(q: string, words: seq<string>, ks: seq<string>, points: seq<nat>)
    requires |points| == |ks|
    requires forall i :: 0 <= i < |ks| ==> KeywordPoints(q, words, ks[i]) == points[i]
    ensures Total(q, words, ks) == Sum(points)
    decreases |ks|
  {
    if ks != [] {
      TotalIsSum(q, words, ks[..|ks| - 1], points[..|points| - 1]);
    }
  }

  /** Counting related words over a concatenation adds up the counts. */
  lemma {:induction false} CountRelatedAppend(a: seq<string>, b: seq<string>, keyword: string)
    ensures CountRelated(a + b, keyword) == CountRelated(a, keyword) + CountRelated(b, keyword)
    decreases |b|
  {
    if b == [] {
      assert a + b == a;
    } else {
      CountRelatedAppend(a, b[..|b| - 1], keyword);
      assert (a + b)[..|a + b| - 1] == a + b[..|b| - 1];
    }
  }

  /** Exactly one related word earns a keyword 3 points. */
  lemma OneRelatedWord(words: seq<string>, keyword: string, j: nat)
    requires j < |words| && Related(words[j], keyword)
    requires forall i :: 0 <= i < |words| && i != j ==> !Related(words[i], keyword)
    ensures CountRelated(words, keyword) == 1
  {
    var before, after := words[..j], words[j + 1..];
    forall i | 0 <= i < |before|
      ensures !Related(before[i], keyword)
    {
      assert before[i] == words[i];
    }
    forall i | 0 <= i < |after|
      ensures !Related(after[i], keyword)
    {
      assert after[i] == words[j + 1 + i];
    }
    assert CountRelated(before, keyword) == 0 == CountRelated(after, keyword);
    assert CountRelated([words[j]], keyword) == 1 by {
      assert [words[j]][..0] == [];
    }
    CountRelatedAppend(before, [words[j]], keyword);
    CountRelatedAppend(before + [words[j]], after, keyword);
    assert words == before + [words[j]] + after;
  }
}
