/**
 * Worked examples of the scoring rule on concrete questions.
 */
module Scenarios {
  import opened Text
  import opened Scoring

  /** The query "hours" against "what are your opening hours?": the query occurs inside the
      stored question, so the phrase bonus applies on top of the keyword points. */
  lemma OpeningHoursScenario()
    ensures PhraseBonus("hours", "what are your opening hours?") == 10
    ensures Score(Keywords("hours"), "hours", "what are your opening hours?") >= 12
  {
    var faqQuestion := "what are your opening hours?";
    assert faqQuestion[22..27] == "hours";
    ContainsFromOccurrence(faqQuestion, "hours", 22);
    QueryInsideQuestion("hours", faqQuestion);
    SingleKeyword();
  }

  /** Two emoji make a keyword: each is a surrogate pair, so the word is four code units
      long although it holds only two characters. */
  lemma EmojiPairIsKeyword()
    ensures Keywords("\U{1F600}\U{1F600}") == ["\U{1F600}\U{1F600}"]
  {
    var word := "\U{1F600}\U{1F600}";
    assert forall k :: 0 <= k < 2 ==> word[k] != Space;
    SplitJoin([word]);
    assert CodeUnits(word) == 4;
  }

  /** A single word of more than two letters is its own only keyword. */
  lemma SingleKeyword()
    ensures Keywords("hours") == ["hours"]
  {
    assert forall k :: 0 <= k < 5 ==> "hours"[k] != Space;
    SplitJoin(["hours"]);
  }
}
