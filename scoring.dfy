/**
 * The score `findBestFAQAnswer` gives one stored question for one user question: keyword
 * overlap, the whole-phrase bonus and the per-keyword bonus, summed.
 */
module Scoring {
  import opened Text

  /** The test of the keyword-overlap loop: one keyword contains the other. */
  predicate Overlaps(keyword: string, faqKeyword: string) {
    Contains(faqKeyword, keyword) || Contains(keyword, faqKeyword)
  }

  /** How many stored-question keywords overlap the query keyword `keyword`. */
  function Hits(keyword: string, faqKeywords: seq<string>): nat
  {
    if faqKeywords == [] then 0
    else
      var last := faqKeywords[|faqKeywords| - 1];
      Hits(keyword, faqKeywords[..|faqKeywords| - 1]) + (if Overlaps(keyword, last) then 1 else 0)
  }

  /** How many (query keyword, stored-question keyword) pairs overlap. */
  function PairCount(keywords: seq<string>, faqKeywords: seq<string>): nat
  {
    if keywords == [] then 0
    else PairCount(keywords[..|keywords| - 1], faqKeywords) + Hits(keywords[|keywords| - 1], faqKeywords)
  }

  /** The whole-phrase test: either normalised text contains the other. */
  predicate PhraseMatch(question: string, faqQuestion: string) {
    Contains(faqQuestion, question) || Contains(question, faqQuestion)
  }

  function PhraseBonus(question: string, faqQuestion: string): nat {
    if PhraseMatch(question, faqQuestion) then 10 else 0
  }

  /** How many query keywords occur inside the stored question. */
  function WordHits(keywords: seq<string>, faqQuestion: string): nat
  {
    if keywords == [] then 0
    else WordHits(keywords[..|keywords| - 1], faqQuestion) + (if Contains(faqQuestion, keywords[|keywords| - 1]) then 1 else 0)
  }

  /** The score of one stored (already lower-cased) question against the lower-cased user
      question and its keywords: one point per overlapping keyword pair, ten for a phrase
      match (once, however many directions hold), two per query keyword inside the question. */
  function Score(keywords: seq<string>, question: string, faqQuestion: string): nat
  {
    PairCount(keywords, Keywords(faqQuestion)) + PhraseBonus(question, faqQuestion) + 2 * WordHits(keywords, faqQuestion)
  }

  /** The three accumulation steps of the scoring pass, in the source's order. */
  method ComputeScore(keywords: seq<string>, question: string, faqQuestion: string) returns (score: nat)
    ensures score == Score(keywords, question, faqQuestion)
  {
    score := 0;
    var faqKeywords := Keywords(faqQuestion);

    // keyword overlap
    var i := 0;
    while i < |keywords|
      invariant 0 <= i <= |keywords|
      invariant score == PairCount(keywords[..i], faqKeywords)
    {
      var j := 0;
      while j < |faqKeywords|
        invariant 0 <= j <= |faqKeywords|
        invariant score == PairCount(keywords[..i], faqKeywords) + Hits(keywords[i], faqKeywords[..j])
      {
        if Contains(faqKeywords[j], keywords[i]) || Contains(keywords[i], faqKeywords[j]) {
          score := score + 1;
        }
        assert faqKeywords[..j + 1][..j] == faqKeywords[..j];
        j := j + 1;
      }
      assert faqKeywords[..j] == faqKeywords;
      assert keywords[..i + 1][..i] == keywords[..i];
      i := i + 1;
    }
    assert keywords[..i] == keywords;

    // exact phrase
    if Contains(faqQuestion, question) || Contains(question, faqQuestion) {
      score := score + 10;
    }

    // individual words
    i := 0;
    while i < |keywords|
      invariant 0 <= i <= |keywords|
      invariant score == PairCount(keywords, faqKeywords) + PhraseBonus(question, faqQuestion)
                         + 2 * WordHits(keywords[..i], faqQuestion)
    {
      if Contains(faqQuestion, keywords[i]) {
        score := score + 2;
      }
      assert keywords[..i + 1][..i] == keywords[..i];
      i := i + 1;
    }
    assert keywords[..i] == keywords;
  }

  // ---------------------------------------------------------------------------
  // What the parts count
  // ---------------------------------------------------------------------------

  /** A query keyword scores overlap points exactly when some stored keyword overlaps it,
      and at most one point per stored keyword. */
  lemma {:induction false} HitsMeaning(keyword: string, faqKeywords: seq<string>)
    ensures Hits(keyword, faqKeywords) <= |faqKeywords|
    ensures Hits(keyword, faqKeywords) > 0 <==> exists j :: 0 <= j < |faqKeywords| && Overlaps(keyword, faqKeywords[j])
  {
    if faqKeywords != [] {
      var init := faqKeywords[..|faqKeywords| - 1];
      HitsMeaning(keyword, init);
      if exists j :: 0 <= j < |faqKeywords| && Overlaps(keyword, faqKeywords[j]) {
        var j :| 0 <= j < |faqKeywords| && Overlaps(keyword, faqKeywords[j]);
        if j < |init| {
          assert init[j] == faqKeywords[j];
        }
      }
      if exists j :: 0 <= j < |init| && Overlaps(keyword, init[j]) {
        var j :| 0 <= j < |init| && Overlaps(keyword, init[j]);
        assert faqKeywords[j] == init[j];
      }
    }
  }

  /** The overlap part is positive exactly when some pair overlaps, and counts each pair once. */
  lemma {:induction false} PairCountMeaning(keywords: seq<string>, faqKeywords: seq<string>)
    ensures PairCount(keywords, faqKeywords) <= |keywords| * |faqKeywords|
    ensures PairCount(keywords, faqKeywords) > 0 <==>
            exists i, j :: 0 <= i < |keywords| && 0 <= j < |faqKeywords| && Overlaps(keywords[i], faqKeywords[j])
  {
    if keywords != [] {
      var n := |keywords| - 1;
      var init := keywords[..n];
      PairCountMeaning(init, faqKeywords);
      HitsMeaning(keywords[n], faqKeywords);
      assert (|keywords| - 1) * |faqKeywords| + |faqKeywords| == |keywords| * |faqKeywords|;
      if exists i, j :: 0 <= i < |keywords| && 0 <= j < |faqKeywords| && Overlaps(keywords[i], faqKeywords[j]) {
        var i, j :| 0 <= i < |keywords| && 0 <= j < |faqKeywords| && Overlaps(keywords[i], faqKeywords[j]);
        if i < n {
          assert init[i] == keywords[i];
        }
      }
      if exists i, j :: 0 <= i < |init| && 0 <= j < |faqKeywords| && Overlaps(init[i], faqKeywords[j]) {
        var i, j :| 0 <= i < |init| && 0 <= j < |faqKeywords| && Overlaps(init[i], faqKeywords[j]);
        assert keywords[i] == init[i];
      }
    }
  }

  /** The per-word part is positive exactly when some query keyword occurs in the stored
      question, and counts each query keyword at most once. */
  lemma {:induction false} WordHitsMeaning(keywords: seq<string>, faqQuestion: string)
    ensures WordHits(keywords, faqQuestion) <= |keywords|
    ensures WordHits(keywords, faqQuestion) == |keywords| <==>
            forall i :: 0 <= i < |keywords| ==> Contains(faqQuestion, keywords[i])
    ensures WordHits(keywords, faqQuestion) > 0 <==>
            exists i :: 0 <= i < |keywords| && Contains(faqQuestion, keywords[i])
  {
    if keywords != [] {
      var n := |keywords| - 1;
      var init := keywords[..n];
      WordHitsMeaning(init, faqQuestion);
      assert forall i :: 0 <= i < n ==> init[i] == keywords[i];
    }
  }

  /** A stored question scores at all exactly when the phrases match, some query keyword
      occurs in it, or some keyword pair overlaps; and the score is bounded by the sizes. */
  lemma ScoreMeaning(keywords: seq<string>, question: string, faqQuestion: string)
    ensures var faqKeywords := Keywords(faqQuestion);
            Score(keywords, question, faqQuestion) <= |keywords| * |faqKeywords| + 10 + 2 * |keywords|
    ensures var faqKeywords := Keywords(faqQuestion);
            Score(keywords, question, faqQuestion) > 0 <==>
              || PhraseMatch(question, faqQuestion)
              || (exists i :: 0 <= i < |keywords| && Contains(faqQuestion, keywords[i]))
              || (exists i, j :: 0 <= i < |keywords| && 0 <= j < |faqKeywords| && Overlaps(keywords[i], faqKeywords[j]))
  {
    PairCountMeaning(keywords, Keywords(faqQuestion));
    WordHitsMeaning(keywords, faqQuestion);
  }

  /** When the whole user question occurs inside the stored question, the phrase bonus applies
      and every query keyword earns its two points as well. */
  lemma QueryInsideQuestion(question: string, faqQuestion: string)
    requires Contains(faqQuestion, question)
    ensures PhraseBonus(question, faqQuestion) == 10
    ensures WordHits(Keywords(question), faqQuestion) == |Keywords(question)|
    ensures Score(Keywords(question), question, faqQuestion) >= 10 + 2 * |Keywords(question)|
  {
    var keywords := Keywords(question);
    KeywordsOccurInText(question);
    forall i | 0 <= i < |keywords| ensures Contains(faqQuestion, keywords[i]) {
      ContainsTransitive(faqQuestion, question, keywords[i]);
    }
    WordHitsMeaning(keywords, faqQuestion);
  }
}
