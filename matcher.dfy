/**
 * `findBestFAQAnswer`: scores every candidate against the user question, keeps the ones
 * that scored, remembers the first candidate with the highest score, and reports the three
 * best matches with a confidence derived from the best score.
 *
 * The list reasoning holds for any scoring rule, so the specification takes the rule as a
 * function `score` and the scores of a candidate list as the sequence `Scores(score, cs)`.
 */
module Matcher {
  import opened Wrappers
  import opened Text
  import opened Scoring
  import opened Ranking

  /** One entry of the candidate list: the lower-cased question, the answer, and the
      question as it was written. */
  datatype Candidate = Candidate(question: string, answer: string, originalQuestion: string)

  /** What the matcher returns: the best match (absent when nothing scored), the top three
      matches, and the confidence. */
  datatype MatchResult = MatchResult(bestMatch: Option<Match>, allMatches: seq<Match>, confidence: real)

  /** The scoring rule for one user question: the score of a candidate's lower-cased question. */
  function ScoreFor(keywords: seq<string>, question: string): Candidate -> nat {
    (c: Candidate) => Score(keywords, question, c.question)
  }

  /** The scores of the candidates, in candidate order. */
  function Scores(score: Candidate -> nat, cs: seq<Candidate>): (r: seq<nat>)
    ensures |r| == |cs|
  {
    if cs == [] then [] else Scores(score, cs[..|cs| - 1]) + [score(cs[|cs| - 1])]
  }

  /** The record the matcher keeps for a candidate: its question as written, answer and score. */
  function MatchOf(c: Candidate, score: nat): Match {
    Match(c.originalQuestion, c.answer, score)
  }

  /** The records of the candidates that scored, in candidate order: the list before sorting. */
  function Matched(cs: seq<Candidate>, scores: seq<nat>): seq<Match>
    requires |scores| == |cs|
  {
    if cs == [] then []
    else
      var n := |cs| - 1;
      Matched(cs[..n], scores[..n]) + (if scores[n] > 0 then [MatchOf(cs[n], scores[n])] else [])
  }

  /** `bestScore > 0 ? Math.min(bestScore / 10, 1) : 0`, computed exactly. */
  function Confidence(bestScore: nat): (c: real)
    ensures 0.0 <= c <= 1.0
    ensures bestScore >= 10 ==> c == 1.0
    ensures c < 0.1 <==> bestScore == 0
  {
    if bestScore > 0 then
      var ratio := bestScore as real / 10.0;
      if ratio < 1.0 then ratio else 1.0
    else 0.0
  }

  /** Position `k` holds the score the matcher reports: it is positive, nothing scored higher,
      and every earlier candidate scored strictly less (the first of equal best scores wins). */
  ghost predicate IsBestAt(scores: seq<nat>, k: int) {
    && 0 <= k < |scores|
    && scores[k] > 0
    && (forall j :: 0 <= j < |scores| ==> scores[j] <= scores[k])
    && (forall j :: 0 <= j < k ==> scores[j] < scores[k])
  }

  /** What the matcher promises for a candidate list under a scoring rule: the top three of
      the sorted matched list; no best match exactly when nothing scored; otherwise the record
      of the first candidate with the highest score, which also heads the top three; and the
      confidence of the best score. */
  ghost predicate Reports(score: Candidate -> nat, cs: seq<Candidate>, result: MatchResult) {
    var scores := Scores(score, cs);
    && result.allMatches == TopMatches(SortByScore(Matched(cs, scores)))
    && (result.bestMatch.None? <==> forall i :: 0 <= i < |cs| ==> score(cs[i]) == 0)
    && (result.bestMatch.Some? ==>
          exists k :: IsBestAt(scores, k) && result.bestMatch.value == MatchOf(cs[k], score(cs[k])))
    && (result.bestMatch.Some? ==> result.allMatches != [] && result.allMatches[0] == result.bestMatch.value)
    && result.confidence == Confidence(if result.bestMatch.Some? then result.bestMatch.value.score else 0)
  }

  method FindBestFAQAnswer(userQuestion: string, faqData: seq<Candidate>) returns (result: MatchResult)
    ensures Reports(ScoreFor(Keywords(Lower(userQuestion)), Lower(userQuestion)), faqData, result)
  {
    var question := Lower(userQuestion);
    var keywords := Keywords(question);
    ghost var score := ScoreFor(keywords, question);

    var bestMatch: Option<Match> := None;
    var bestScore: nat := 0;
    var matchedFAQs: seq<Match> := [];
    ghost var scores: seq<nat> := [];
    ghost var bestIndex := 0;

    var i := 0;
    while i < |faqData|
      invariant i <= |faqData|
      invariant Scanned(score, faqData, i, ScanState(scores, matchedFAQs, bestMatch, bestScore, bestIndex))
    {
      var faq := faqData[i];
      var faqScore := ComputeScore(keywords, question, faq.question);
      ghost var before := ScanState(scores, matchedFAQs, bestMatch, bestScore, bestIndex);
      scores := scores + [faqScore];
      if faqScore > 0 {
        matchedFAQs := matchedFAQs + [Match(faq.originalQuestion, faq.answer, faqScore)];
      }
      if faqScore > bestScore {
        bestScore := faqScore;
        bestMatch := Some(Match(faq.originalQuestion, faq.answer, faqScore));
        bestIndex := i;
      }
      ScanStep(score, faqData, i, before, faqScore, ScanState(scores, matchedFAQs, bestMatch, bestScore, bestIndex));
      i := i + 1;
    }

    ghost var unsorted := matchedFAQs;
    matchedFAQs := SortByScore(matchedFAQs);
    result := MatchResult(bestMatch, TopMatches(matchedFAQs), Confidence(bestScore));
    ScanReports(score, faqData, scores, unsorted, result, bestScore, bestIndex);
  }

  // ---------------------------------------------------------------------------
  // The scan, one candidate at a time
  // ---------------------------------------------------------------------------

  /** The variables of the scan, bundled so that one step can be stated as a pair of states. */
  datatype ScanState = ScanState(scores: seq<nat>, matched: seq<Match>, bestMatch: Option<Match>, bestScore: nat, bestIndex: int)

  /** The state of the scan after the first `i` candidates: their scores, the records of those
      that scored, and the first of the highest-scoring ones (none while nothing scored). */
  ghost predicate Scanned(score: Candidate -> nat, cs: seq<Candidate>, i: int, st: ScanState) {
    && 0 <= i <= |cs|
    && st.scores == Scores(score, cs[..i])
    && st.matched == Matched(cs[..i], st.scores)
    && (forall j :: 0 <= j < i ==> st.scores[j] <= st.bestScore)
    && (st.bestMatch.None? ==> st.bestScore == 0)
    && (st.bestMatch.Some? ==>
          && 0 <= st.bestIndex < i
          && st.bestScore == st.scores[st.bestIndex] > 0
          && st.bestMatch.value == MatchOf(cs[st.bestIndex], st.bestScore)
          && forall j :: 0 <= j < st.bestIndex ==> st.scores[j] < st.bestScore)
  }

  lemma {:induction false} ScoresAt(score: Candidate -> nat, cs: seq<Candidate>)
    ensures forall i :: 0 <= i < |cs| ==> Scores(score, cs)[i] == score(cs[i])
  {
    if cs != [] {
      ScoresAt(score, cs[..|cs| - 1]);
    }
  }

  /** Scoring candidate `i` extends the scores by its score and the matched list by its record
      when that score is positive, and makes it the best match when it beats the best so far. */
  lemma ScanStep(score: Candidate -> nat, cs: seq<Candidate>, i: int, before: ScanState, s: nat, after: ScanState)
    requires Scanned(score, cs, i, before)
    requires i < |cs| && s == score(cs[i])
    requires after.scores == before.scores + [s]
    requires after.matched == if s > 0 then before.matched + [MatchOf(cs[i], s)] else before.matched
    requires s > before.bestScore ==> after.bestMatch == Some(MatchOf(cs[i], s)) && after.bestScore == s && after.bestIndex == i
    requires s <= before.bestScore ==>
               after.bestMatch == before.bestMatch && after.bestScore == before.bestScore && after.bestIndex == before.bestIndex
    ensures Scanned(score, cs, i + 1, after)
  {
    assert cs[..i + 1][..i] == cs[..i];
    assert after.scores[..i] == before.scores;
  }

  /** The state the scan of all the candidates ends in gives a result the matcher promises. */
  lemma ScanReports(score: Candidate -> nat, cs: seq<Candidate>, scores: seq<nat>, matched: seq<Match>,
                     result: MatchResult, bestScore: nat, bestIndex: int)
    requires Scanned(score, cs, |cs|, ScanState(scores, matched, result.bestMatch, bestScore, bestIndex))
    requires result.allMatches == TopMatches(SortByScore(matched))
    requires result.confidence == Confidence(bestScore)
    ensures Reports(score, cs, result)
  {
    assert cs[..|cs|] == cs;
    ScoresAt(score, cs);
    if result.bestMatch.Some? {
      assert IsBestAt(scores, bestIndex);
      BestHeadsShortlist(cs, scores, bestIndex);
    } else {
      assert forall i :: 0 <= i < |cs| ==> scores[i] == 0;
    }
  }

  // ---------------------------------------------------------------------------
  // What a reported result is
  // ---------------------------------------------------------------------------

  /** The confidence test of the caller agrees with the null test: scores are whole numbers, so
      a positive best score gives a confidence of at least 0.1. */
  lemma ConfidenceTestIsNullTest(score: Candidate -> nat, cs: seq<Candidate>, result: MatchResult)
    requires Reports(score, cs, result)
    ensures result.confidence < 0.1 <==> result.bestMatch.None?
    ensures 0.0 <= result.confidence <= 1.0
  {
    if result.bestMatch.Some? {
      var k :| IsBestAt(Scores(score, cs), k) && result.bestMatch.value == MatchOf(cs[k], score(cs[k]));
      ScoresAt(score, cs);
    }
  }

  /** An empty candidate list gives no best match, no matches and confidence 0. */
  lemma NoCandidatesNoMatch(score: Candidate -> nat, result: MatchResult)
    requires Reports(score, [], result)
    ensures result == MatchResult(None, [], 0.0)
  {
  }

  /** The promise pins the result down: two results that keep it are the same result. */
  lemma ReportsIsDeterministic(score: Candidate -> nat, cs: seq<Candidate>, r1: MatchResult, r2: MatchResult)
    requires Reports(score, cs, r1) && Reports(score, cs, r2)
    ensures r1 == r2
  {
    if r1.bestMatch.Some? {
      var k1 :| IsBestAt(Scores(score, cs), k1) && r1.bestMatch.value == MatchOf(cs[k1], score(cs[k1]));
      var k2 :| IsBestAt(Scores(score, cs), k2) && r2.bestMatch.value == MatchOf(cs[k2], score(cs[k2]));
      BestIsUnique(Scores(score, cs), k1, k2);
    }
  }

  // ---------------------------------------------------------------------------
  // The matched list
  // ---------------------------------------------------------------------------

  /** The matched list of a concatenation is the concatenation of the matched lists: the list
      keeps candidate order. */
  lemma {:induction false} MatchedAppend(a: seq<Candidate>, sa: seq<nat>, b: seq<Candidate>, sb: seq<nat>)
    requires |sa| == |a| && |sb| == |b|
    ensures Matched(a + b, sa + sb) == Matched(a, sa) + Matched(b, sb)
  {
    if b == [] {
      assert a + b == a;
      assert sa + sb == sa;
    } else {
      var n := |b| - 1;
      MatchedAppend(a, sa, b[..n], sb[..n]);
      assert (a + b)[..|a| + n] == a + b[..n];
      assert (sa + sb)[..|a| + n] == sa + sb[..n];
    }
  }

  /** The matched list holds exactly the records of the candidates whose score is positive,
      each with its question as written, its answer and its score. */
  lemma {:induction false} MatchedMembers(cs: seq<Candidate>, scores: seq<nat>)
    requires |scores| == |cs|
    ensures forall m :: m in Matched(cs, scores) <==>
              exists i :: 0 <= i < |cs| && scores[i] > 0 && m == MatchOf(cs[i], scores[i])
  {
    if cs != [] {
      var n := |cs| - 1;
      MatchedMembers(cs[..n], scores[..n]);
      assert forall i :: 0 <= i < n ==> cs[..n][i] == cs[i] && scores[..n][i] == scores[i];
    }
  }

  /** At most one position holds the reported best score. */
  lemma BestIsUnique(scores: seq<nat>, k1: int, k2: int)
    requires IsBestAt(scores, k1) && IsBestAt(scores, k2)
    ensures k1 == k2
  {
  }

  lemma NoMemberMeansEmpty(ms: seq<Match>, v: nat)
    requires forall m :: m in ms ==> m.score != v
    ensures WithScore(ms, v) == []
  {
    WithScoreMembers(ms, v);
    if WithScore(ms, v) != [] {
      assert WithScore(ms, v)[0] in WithScore(ms, v);
    }
  }

  /** The best match is also the first entry of the sorted list: the stable sort puts the
      earliest of the highest-scoring records first. */
  lemma BestHeadsShortlist(cs: seq<Candidate>, scores: seq<nat>, k: int)
    requires |scores| == |cs| && IsBestAt(scores, k)
    ensures var sorted := SortByScore(Matched(cs, scores));
            sorted != [] && sorted[0] == MatchOf(cs[k], scores[k])
  {
    var all := Matched(cs, scores);
    BestHeadsItsGroup(cs, scores, k);
    MatchedMembers(cs, scores);
    assert MatchOf(cs[k], scores[k]) in all;
    SortedHeadLeadsTopGroup(all, scores[k]);
  }

  /** Among the matched records of the best score, the best candidate's record comes first. */
  lemma BestHeadsItsGroup(cs: seq<Candidate>, scores: seq<nat>, k: int)
    requires |scores| == |cs| && IsBestAt(scores, k)
    ensures var group := WithScore(Matched(cs, scores), scores[k]);
            group != [] && group[0] == MatchOf(cs[k], scores[k])
  {
    var v := scores[k];
    var best := MatchOf(cs[k], v);
    var before, sBefore := cs[..k], scores[..k];
    var after, sAfter := cs[k + 1..], scores[k + 1..];

    // the matched list is: records before k, then the best record, then the rest
    assert cs == before + [cs[k]] + after;
    assert scores == sBefore + [v] + sAfter;
    MatchedAppend(before + [cs[k]], sBefore + [v], after, sAfter);
    MatchedAppend(before, sBefore, [cs[k]], [v]);
    assert Matched([cs[k]], [v]) == [best];
    var head := Matched(before, sBefore);

    // no record before k has the best score
    MatchedMembers(before, sBefore);
    forall m | m in head ensures m.score != v {
      var i :| 0 <= i < |before| && sBefore[i] > 0 && m == MatchOf(before[i], sBefore[i]);
      assert sBefore[i] == scores[i];
    }
    NoMemberMeansEmpty(head, v);
    WithScoreAppend(head + [best], Matched(after, sAfter), v);
    WithScoreAppend(head, [best], v);
  }

  /** When no entry scores above `v` and some entry scores `v`, the sorted list starts with the
      first entry of score `v`. */
  lemma SortedHeadLeadsTopGroup(ms: seq<Match>, v: nat)
    requires forall m :: m in ms ==> m.score <= v
    requires exists m :: m in ms && m.score == v
    ensures var sorted := SortByScore(ms);
            sorted != [] && WithScore(ms, v) != [] && sorted[0] == WithScore(ms, v)[0]
  {
    var sorted := SortByScore(ms);
    SortByScoreCorrect(ms);
    WithScoreMembers(ms, v);
    var m :| m in ms && m.score == v;
    assert m in multiset(sorted);
    assert sorted != [] && sorted[0].score >= v;
    assert sorted[0] in multiset(ms);
    assert WithScore(sorted, v)[0] == sorted[0];
  }
}
