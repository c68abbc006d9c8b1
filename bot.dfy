/**
 * The `/bot` handler: the candidate list built from a user's stored question/answer pairs and
 * the fixed entry every user shares, the call to the matcher, and the choice between the best
 * answer and a generic fallback reply.
 *
 * The fallback text is picked at random from a pool of three; the model takes the index of
 * the pick as a parameter.
 */
module Bot {
  import opened Text
  import opened Ranking
  import opened Matcher

  /** One stored question/answer pair. */
  datatype QA = QA(q: string, a: string)

  /** The entry appended for every user, with its question as written and lower-cased by hand. */
  const CommonQuestion: string := "Ask about my service, order, implementation"
  const CommonQuestionLower: string := "ask about my service, order, implementation"
  const CommonAnswer: string := "You can ask about our services, orders, and implementation details."
  const CommonCandidate: Candidate := Candidate(CommonQuestionLower, CommonAnswer, CommonQuestion)

  /** The replies used when nothing matched well enough. */
  const GenericResponses: seq<string> := [
    "I'm sorry, I couldn't find a specific answer to your question. Could you please rephrase it or ask about our services, hours, or policies?",
    "I don't have information about that specific topic. Please try asking about our business hours, contact information, or general policies.",
    "I'm not sure about that. Could you ask about something else like our services, return policy, or how to contact us?"
  ]

  /** The candidate made from a stored pair: its question lower-cased, its answer, and its
      question as written. */
  function CandidateOf(qa: QA): Candidate {
    Candidate(Lower(qa.q), qa.a, qa.q)
  }

  /** One candidate per stored pair, in order. */
  function StoredCandidates(qAndA: seq<QA>): (r: seq<Candidate>)
    ensures |r| == |qAndA|
    ensures forall i :: 0 <= i < |qAndA| ==> r[i] == CandidateOf(qAndA[i])
  {
    seq(|qAndA|, i requires 0 <= i < |qAndA| => CandidateOf(qAndA[i]))
  }

  /** The candidate list: the stored pairs' candidates, then the common entry; never empty. */
  function CandidateList(qAndA: seq<QA>): seq<Candidate> {
    StoredCandidates(qAndA) + [CommonCandidate]
  }

  /** Builds the candidate list by pushing one candidate per stored pair, then the common entry. */
  method BuildFaqData(qAndA: seq<QA>) returns (faqData: seq<Candidate>)
    ensures faqData == CandidateList(qAndA)
  {
    faqData := [];
    var i := 0;
    while i < |qAndA|
      invariant 0 <= i <= |qAndA|
      invariant |faqData| == i
      invariant forall j :: 0 <= j < i ==> faqData[j] == CandidateOf(qAndA[j])
    {
      var qa := qAndA[i];
      faqData := faqData + [Candidate(Lower(qa.q), qa.a, qa.q)];
      i := i + 1;
    }
    assert faqData == StoredCandidates(qAndA);
    faqData := faqData + [CommonCandidate];
  }

  /** The reply body: the answer, the matches it rests on, and the confidence. */
  datatype Reply = Reply(answer: string, sourceDocuments: seq<Match>, confidence: real)

  /** The outcome of a request: the two error replies, or an answer. */
  datatype BotOutcome = MessageRequired | NotInitialized | Answered(reply: Reply)

  /** Whether the handler falls back to a generic reply. */
  predicate FallsBack(result: MatchResult) {
    result.bestMatch.None? || result.confidence < 0.1
  }

  /** The reply: the fallback text with no sources and confidence 0, or the best answer with
      the top matches (each copied field for field) and the matcher's confidence. */
  function SelectAnswer(result: MatchResult, fallback: string): (r: Reply)
    ensures FallsBack(result) ==> r == Reply(fallback, [], 0.0)
    ensures !FallsBack(result) ==>
              r.answer == result.bestMatch.value.answer && r.sourceDocuments == result.allMatches
              && r.confidence == result.confidence
  {
    if FallsBack(result) then Reply(fallback, [], 0.0)
    else Reply(result.bestMatch.value.answer, result.allMatches, result.confidence)
  }

  /** For a result the matcher reports, the reply falls back exactly when no candidate scored;
      otherwise it carries the answer of the first highest-scoring candidate, a non-empty list of
      sources headed by that candidate's record, and a confidence of at least 0.1. */
  lemma FallbackExactlyWhenNothingScored(score: Candidate -> nat, cs: seq<Candidate>, result: MatchResult, fallback: string)
    requires Reports(score, cs, result)
    ensures var r := SelectAnswer(result, fallback);
            && (FallsBack(result) <==> forall i :: 0 <= i < |cs| ==> score(cs[i]) == 0)
            && (r.sourceDocuments == [] <==> FallsBack(result))
            && (!FallsBack(result) ==>
                  && 0.1 <= r.confidence <= 1.0
                  && exists k :: IsBestAt(Scores(score, cs), k) && r.answer == cs[k].answer
                                 && r.sourceDocuments[0] == MatchOf(cs[k], score(cs[k])))
  {
    ConfidenceTestIsNullTest(score, cs, result);
    var r := SelectAnswer(result, fallback);
    if result.bestMatch.Some? {
      var best := result.bestMatch.value;
      assert result.allMatches != [] && result.allMatches[0] == best;
      assert !FallsBack(result);
      assert r.sourceDocuments == result.allMatches && r.answer == best.answer;
      var k :| IsBestAt(Scores(score, cs), k) && best == MatchOf(cs[k], score(cs[k]));
      assert IsBestAt(Scores(score, cs), k) && r.answer == cs[k].answer
             && r.sourceDocuments[0] == MatchOf(cs[k], score(cs[k]));
    }
  }

  /** Handles one request: an empty message is refused, otherwise the message is matched
      against the user's candidate list and the reply selected. The list always holds the
      common entry, so the "not initialized" reply is never given. */
  method HandleBot(message: string, qAndA: seq<QA>, pick: nat) returns (outcome: BotOutcome)
    requires pick < |GenericResponses|
    ensures message == [] <==> outcome == MessageRequired
    ensures !outcome.NotInitialized?
    ensures message != [] ==>
              var question := Lower(message);
              exists result :: Reports(ScoreFor(Keywords(question), question), CandidateList(qAndA), result)
                               && outcome == Answered(SelectAnswer(result, GenericResponses[pick]))
  {
    if message == [] {
      return MessageRequired;
    }
    var faqData := BuildFaqData(qAndA);
    if |faqData| == 0 {
      return NotInitialized;
    }
    var result := FindBestFAQAnswer(message, faqData);
    outcome := Answered(SelectAnswer(result, GenericResponses[pick]));
  }
}
