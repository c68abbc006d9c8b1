# FAQ answer matching, modelled in Dafny

This project models the answer-matching core of a small FAQ chatbot server. A user keeps a list of question/answer pairs. When a message comes in, the server scores every stored question against the message and replies in one of two ways:

- the answer to the best-scoring question, with the three best matches and a confidence;
- a generic fallback reply, when nothing matched.

The project also models the three routes that change the stored list: append, edit at an index, delete at an index.

The files are:

- `text.dfy` (module `Text`): the string primitives the matcher uses.
  - Lower-casing.
  - `split(' ')` on a single space, with its inverse `Join`.
  - The keyword filter that keeps words longer than two UTF-16 code units, the unit JavaScript's `length` counts.
  - Substring search (`includes`), tied to an explicit occurrence predicate.
- `scoring.dfy` (module `Scoring`): the score of one stored question.
  - `Score` is the specification: one point per overlapping keyword pair, ten for a whole-phrase match, two per query keyword found in the question.
  - `ComputeScore` is the nested-loop computation, proved equal to `Score`.
- `ranking.dfy` (module `Ranking`):
  - the stable sort by descending score, proved to return a sorted permutation that keeps the order within each score group, and proved unique;
  - the top-three shortlist.
- `matcher.dfy` (module `Matcher`): `findBestFAQAnswer` as a method with a loop. `Reports` states the whole promise:
  - the shortlist;
  - no best match exactly when nothing scored;
  - otherwise the first candidate with the highest score, which also heads the shortlist;
  - the confidence.
- `bot.dfy` (module `Bot`): the `/bot` handler.
  - Builds the candidate list: each stored pair, then the fixed common entry.
  - Calls the matcher.
  - Chooses between the best answer and a fallback reply.
- `faq_store.dfy` (module `FaqStore`): the stored document as a class whose `qAndA` field the add, edit and delete routes update in place. It includes lemmas on what each update does to the candidates the bot sees.
- `scenarios.dfy` (module `Scenarios`): worked examples of the keyword filter and the scoring rule.

The `Scoring` lemmas are about the one scoring rule the server uses, `Score`. The `Matcher` predicate `Reports` and the lemmas about it instead take the rule as a parameter `score: Candidate -> nat`, since the list reasoning does not depend on it. `FindBestFAQAnswer` instantiates that parameter with `ScoreFor(Keywords(Lower(q)), Lower(q))`, which applies `Score` for the user question `q`.

## Model

| member | source | states |
|---|---|---|
| Text.Lower | server/index.js:121 | lower-casing keeps the length and maps each character on its own: A-Z to a-z, everything else unchanged |
| Text.LowerKeepsSpaces | server/index.js:121-122 | lower-casing puts a space exactly where the text had one, so it does not move word boundaries |
| Text.LowerNormalises | server/index.js:121 | the result has no upper-case letter; lower-case text is left as it is; lower-casing twice equals lower-casing once |
| Text.Split | server/index.js:122 | splitting on a space gives at least one piece, and no piece holds a space |
| Text.JoinSplit | server/index.js:122 | joining the pieces of a text with single spaces gives the text back |
| Text.SplitJoin | server/index.js:122 | splitting space-free pieces joined with single spaces gives the same pieces |
| Text.CodeUnits | server/index.js:122 | a word's length in UTF-16 code units lies between its character count and twice that, and equals the character count exactly when every character lies in the Basic Multilingual Plane |
| Text.CodeUnitsAppend | server/index.js:122 | the code-unit length of a concatenation is the sum of the lengths |
| Text.LongWordsMembers | server/index.js:122 | a word survives the length filter exactly when it is one of the words and is longer than two UTF-16 code units |
| Text.LongWordsAppend | server/index.js:122 | the filter keeps the order of the words |
| Text.Keywords | server/index.js:122 | split on a space, then keep the pieces longer than two code units; its meaning is stated by KeywordsArePieces |
| Text.KeywordsArePieces | server/index.js:122 | the keywords are exactly the pieces of the text longer than two UTF-16 code units; none is empty or holds a space |
| Text.Contains | server/index.js:135 | `includes` as a search from the left; its meaning is stated by ContainsIff |
| Text.ContainsIff | server/index.js:135 | `includes` holds exactly when the pattern occurs at some position of the text |
| Text.ContainsTransitive | server/index.js:142-148 | a text found inside a text found inside `s` is found inside `s` |
| Text.KeywordsOccurInText | server/index.js:122 | every keyword of a text occurs in that text |
| Scoring.Score | server/index.js:129-151 | the score of one stored question: overlapping keyword pairs, plus ten for a phrase match, plus two per query keyword in the question; computed by ComputeScore, characterised by ScoreMeaning |
| Scoring.ComputeScore | server/index.js:129-151 | the three accumulation loops compute exactly the overlap count, plus ten for a phrase match, plus two per contained query keyword |
| Scoring.HitsMeaning | server/index.js:134-138 | one query keyword earns overlap points exactly when some stored keyword contains it or is contained in it, and at most one per stored keyword |
| Scoring.PairCountMeaning | server/index.js:133-139 | the overlap part is positive exactly when some keyword pair overlaps, and is at most the number of pairs |
| Scoring.WordHitsMeaning | server/index.js:147-151 | the per-word part counts each query keyword at most once; it is full exactly when every query keyword is in the question, and positive exactly when one is |
| Scoring.ScoreMeaning | server/index.js:129-151 | a question scores exactly when the phrases match, a query keyword is in it, or a keyword pair overlaps; the score is bounded by the sizes |
| Scoring.QueryInsideQuestion | server/index.js:142-151 | when the user question occurs in the stored question, the phrase bonus applies once and every query keyword earns its two points |
| Ranking.WithScoreMembers | server/index.js:172 | the score group of v holds exactly the entries of score v |
| Ranking.InsertPermutes | server/index.js:172 | insertion adds exactly the one entry |
| Ranking.InsertKeepsSorted | server/index.js:172 | insertion into a list sorted by non-increasing score keeps it sorted |
| Ranking.InsertIsStable | server/index.js:172 | insertion puts the entry in front of the others of its score and changes no other score group |
| Ranking.HeadIsMaximal | server/index.js:172 | the first entry of a list sorted by score scores at least as much as every entry |
| Ranking.SortByScore | server/index.js:172 | `sort` by descending score, as a stable insertion sort; proved right by SortByScoreCorrect and StableSortIsUnique |
| Ranking.TopMatches | server/index.js:176 | `slice(0, 3)`; characterised by ShortlistIsTopThree |
| Ranking.SortByScoreCorrect | server/index.js:172 | the sort returns a permutation, ordered by non-increasing score, in which entries of equal score keep their input order |
| Ranking.StableSortIsUnique | server/index.js:172 | any two lists sorted by score with the same entries in every score group are equal, so every stable descending sort gives this result |
| Ranking.ShortlistIsTopThree | server/index.js:172-176 | the shortlist holds min(3, n) entries, sorted, drawn from the matches, and no match left out scores above any entry on it |
| Matcher.ScoresAt | server/index.js:128-151 | the i-th score is the rule applied to the i-th candidate |
| Matcher.Confidence | server/index.js:177 | the confidence lies in [0, 1], is 1 from a best score of 10 up, and is below 0.1 exactly when the best score is 0 |
| Matcher.FindBestFAQAnswer | server/index.js:120-179 | the result keeps `Reports`: the shortlist of the sorted matches; no best match exactly when no candidate scored; otherwise the first candidate with the highest score, heading the shortlist; its confidence |
| Matcher.ScanStep | server/index.js:153-168 | the scan invariant survives a step that records the score, appends the candidate's record when the score is positive, and replaces the best match only on a strictly higher score |
| Matcher.ScanReports | server/index.js:172-178 | the state after the last candidate gives a result that keeps `Reports` |
| Matcher.Matched | server/index.js:153-159 | the records pushed for the candidates that scored, in candidate order; characterised by MatchedMembers and MatchedAppend |
| Matcher.MatchedMembers | server/index.js:153-159 | the matched list holds exactly the records of the candidates that scored, with the question as written, the answer and the score |
| Matcher.MatchedAppend | server/index.js:153-159 | the matched list keeps candidate order |
| Matcher.BestIsUnique | server/index.js:161-168 | at most one position holds the reported best |
| Matcher.BestHeadsShortlist | server/index.js:161-172 | the record of the first highest-scoring candidate is the first entry of the sorted list |
| Matcher.BestHeadsItsGroup | server/index.js:153-168 | among the matched records with the best score, the best candidate's record comes first |
| Matcher.SortedHeadLeadsTopGroup | server/index.js:172 | when no entry scores above v and one scores v, the sort puts first the earliest entry of score v |
| Matcher.ConfidenceTestIsNullTest | server/index.js:177 | for a reported result, confidence below 0.1 holds exactly when there is no best match |
| Matcher.NoCandidatesNoMatch | server/index.js:124-126 | an empty candidate list gives no best match, no matches and confidence 0 |
| Matcher.ReportsIsDeterministic | server/index.js:120-179 | two results that keep the matcher's promise are equal |
| Bot.StoredCandidates | server/index.js:242-248 | one candidate per stored pair, in order, with the question lower-cased, the answer, and the question as written |
| Bot.CandidateList | server/index.js:242-255 | the stored pairs' candidates followed by the common entry; built by BuildFaqData |
| Bot.BuildFaqData | server/index.js:240-255 | the pushed list is the stored pairs' candidates followed by the common entry |
| Bot.FallsBack | server/index.js:267 | the fallback test: no best match, or confidence below 0.1; FallbackExactlyWhenNothingScored shows it holds exactly when no candidate scored |
| Bot.SelectAnswer | server/index.js:267-292 | in the fallback case the reply is the fallback text with no sources and confidence 0; otherwise it is the best answer, the shortlist copied field for field, and the matcher's confidence |
| Bot.FallbackExactlyWhenNothingScored | server/index.js:267-292 | for a reported result the reply falls back, and has no sources, exactly when no candidate scored; otherwise its confidence is at least 0.1 and its answer and first source are those of the first highest-scoring candidate |
| Bot.HandleBot | server/index.js:225-292 | an empty message gets the "message required" reply; the "not initialized" reply is never given; any other message gets the reply selected from the reported result for the candidate list |
| FaqStore.Removed | server/index.js:402 | removing index i keeps the pairs before i, shifts the later ones down by one, and drops exactly that pair |
| FaqStore.Revised | server/index.js:375-376 | a supplied field replaces the stored one; an empty one leaves it |
| FaqStore.FaqDocument.constructor | server/index.js:341-342 | the document holds the given pairs |
| FaqStore.FaqDocument.Add | server/index.js:336-345 | a missing field gives 400 and no change; otherwise 201 and the pair appended last; complete lists stay complete |
| FaqStore.FaqDocument.Edit | server/index.js:361-376 | a non-number index or no field gives 400; an index with no pair gives 404; otherwise 200 and only that pair's supplied fields change; no change on any error |
| FaqStore.FaqDocument.Delete | server/index.js:392-402 | a non-number index gives 400; an index with no pair gives 404; otherwise 200 and exactly that pair is removed; no change on any error |
| FaqStore.RemoveLastUndoesAppend | server/index.js:344 | deleting the pair just appended gives the list back |
| FaqStore.ReviseProperties | server/index.js:375-376 | revising with the pair's own fields, or with none, changes nothing; revising twice keeps the later supplied fields |
| FaqStore.AppendAddsCandidate | server/index.js:242-248 | after an append the bot sees the new pair's candidate after the existing ones |
| FaqStore.DeleteRemovesCandidate | server/index.js:242-248 | after a delete the bot sees every other candidate, in order, and not the deleted one |
| Scenarios.OpeningHoursScenario | server/index.js:142-151 | the query "hours" against "what are your opening hours?" earns the phrase bonus and scores at least 12 |
| Scenarios.EmojiPairIsKeyword | server/index.js:122 | a word of two emoji is a keyword, since it is four code units long |
| Scenarios.SingleKeyword | server/index.js:122 | "hours" has exactly one keyword, itself |

## Left out

- HTTP plumbing is not modelled: routing, status codes as numbers, JSON bodies, CORS and uploads. The routes return a `Status` or `BotOutcome` value instead.
- The authentication middleware, Google sign-in and the speech endpoint are not modelled. They are crypto and network calls into libraries.
- Database access (`findOne`, `create`, `save`) is not modelled. The stored document is a `FaqDocument` value.
  - A user with no document is treated like an empty list: appending creates a document holding one pair, and edit and delete answer 404.
  - The bot handler's `dbFaqData.length === 0` test reads a length off a document, which has none, so it never returns. The model leaves it out. It assumes the user's document is present; without one the handler fails with a 500 error, which the model does not cover.
- Math.random: the fallback reply is drawn at random. `HandleBot` takes the drawn index as a parameter below 3.
- Text.Lower: models `toLowerCase` on ASCII letters only. Unicode case mapping and length-changing mappings are not modelled.
- Text: texts are sequences of Unicode characters, and lengths are counted in UTF-16 code units as JavaScript does. JavaScript strings holding a lone surrogate cannot be written as such a sequence and are out of scope.
- The route parameter parsing (`parseInt`) is not modelled. `Edit` and `Delete` take its outcome: `None` for not-a-number, otherwise the integer.
- Only strings are modelled for q, a and message. A missing field is the empty string, which is what JavaScript's falsy test sees. Non-string values, which would make `toLowerCase` throw, are out of scope.
- Doubles: confidence is an exact rational. The only values are n/10 for n from 1 to 9, and 1. The comparison with 0.1 agrees with the double comparison for each of these.
- The rest of the server is not modelled: the sign-in, token and speech routes, the listing route, and the commented-out cache refresh and health check. The same goes for the browser front end and the seeding script. None of these take part in matching or in changing the stored pairs.
- `Bot.HandleBot` keeps the source's `faqData.length === 0` test, which answers "not initialized". The common entry makes the list non-empty, so the contract proves this reply is never given.
- Error-catching blocks that answer 500 are not modelled. They cover exceptions from the left-out I/O.
- The common entry's question is written twice in the source: once as written and once lower-cased by hand. The model keeps both literals as given and does not prove that one is the lower-case form of the other.

## The phrase bonus for a one-word query

The phrase bonus applies whenever one normalised text occurs inside the other. That includes a one-word query that is part of a longer stored question. For example, the query "hours" occurs inside the stored question "what are your opening hours?", so the ten-point bonus applies on top of the keyword points. `Scenarios.OpeningHoursScenario` proves that the bonus applies and that the score is at least 12.
