/**
 * Ordering the matched entries: `matchedFAQs.sort((a, b) => b.score - a.score)` followed by
 * `slice(0, 3)`. JavaScript's sort is stable, so entries of equal score keep their order;
 * SortByScore is a stable insertion sort, and StableSortIsUnique shows that every stable
 * sort by descending score gives the same result.
 */
module Ranking {

  /** One scored entry: the stored question as written, its answer and its score. */
  datatype Match = Match(question: string, answer: string, score: nat)

  /** Scores never increase from left to right. */
  ghost predicate SortedByScore(ms: seq<Match>) {
    forall i, j :: 0 <= i < j < |ms| ==> ms[i].score >= ms[j].score
  }

  /** The entries of score `v`, in their order in `ms`. */
  function WithScore(ms: seq<Match>, v: nat): seq<Match> {
    if ms == [] then []
    else (if ms[0].score == v then [ms[0]] else []) + WithScore(ms[1..], v)
  }

  /** Puts `m` in front of the first entry that does not out-score it. */
  function Insert(m: Match, ms: seq<Match>): seq<Match> {
    if ms == [] then [m]
    else if m.score >= ms[0].score then [m] + ms
    else [ms[0]] + Insert(m, ms[1..])
  }

  /** The stable sort by descending score. */
  function SortByScore(ms: seq<Match>): seq<Match> {
    if ms == [] then [] else Insert(ms[0], SortByScore(ms[1..]))
  }

  /** `slice(0, 3)`: the first three entries, or all of them when there are fewer. */
  function TopMatches(ms: seq<Match>): seq<Match> {
    ms[..if |ms| < 3 then |ms| else 3]
  }

  // ---------------------------------------------------------------------------
  // Selecting by score
  // ---------------------------------------------------------------------------

  lemma {:induction false} WithScoreAppend(a: seq<Match>, b: seq<Match>, v: nat)
    ensures WithScore(a + b, v) == WithScore(a, v) + WithScore(b, v)
  {
    if a != [] {
      assert (a + b)[1..] == a[1..] + b;
      WithScoreAppend(a[1..], b, v);
    } else {
      assert a + b == b;
    }
  }

  /** Selecting by score keeps exactly the entries of that score. */
  lemma {:induction false} WithScoreMembers(ms: seq<Match>, v: nat)
    ensures forall m :: m in WithScore(ms, v) <==> m in ms && m.score == v
  {
    if ms != [] {
      WithScoreMembers(ms[1..], v);
      assert ms == [ms[0]] + ms[1..];
    }
  }

  // ---------------------------------------------------------------------------
  // Insertion
  // ---------------------------------------------------------------------------

  lemma {:induction false} InsertPermutes(m: Match, ms: seq<Match>)
    ensures multiset(Insert(m, ms)) == multiset(ms) + multiset{m}
  {
    if ms != [] && m.score < ms[0].score {
      InsertPermutes(m, ms[1..]);
      assert ms == [ms[0]] + ms[1..];
    }
  }

  lemma {:induction false} InsertKeepsSorted(m: Match, ms: seq<Match>)
    requires SortedByScore(ms)
    ensures SortedByScore(Insert(m, ms))
  {
    if ms != [] && m.score < ms[0].score {
      var rest := Insert(m, ms[1..]);
      InsertKeepsSorted(m, ms[1..]);
      InsertPermutes(m, ms[1..]);
      forall j | 0 <= j < |rest| ensures rest[j].score <= ms[0].score {
        assert rest[j] in multiset(rest);
        if rest[j] != m {
          assert rest[j] in multiset(ms[1..]);
          var k :| 0 <= k < |ms[1..]| && ms[1..][k] == rest[j];
          assert ms[k + 1] == rest[j];
        }
      }
    }
  }

  /** Inserting `m` adds it in front of the entries of its own score and changes no other score group. */
  lemma {:induction false} InsertIsStable(m: Match, ms: seq<Match>, v: nat)
    ensures WithScore(Insert(m, ms), v) == (if m.score == v then [m] else []) + WithScore(ms, v)
  {
    if ms == [] {
    } else if m.score >= ms[0].score {
      assert ([m] + ms)[1..] == ms;
    } else {
      var rest := Insert(m, ms[1..]);
      InsertIsStable(m, ms[1..], v);
      assert ([ms[0]] + rest)[1..] == rest;
      // `m` and `ms[0]` have different scores, so at most one of them is selected
      if m.score == v {
        assert WithScore(Insert(m, ms), v) == WithScore(rest, v);
      } else {
        assert WithScore(Insert(m, ms), v) == (if ms[0].score == v then [ms[0]] else []) + WithScore(rest, v);
      }
    }
  }

  // ---------------------------------------------------------------------------
  // The sort
  // ---------------------------------------------------------------------------

  /** The sort returns a permutation of its input, ordered by non-increasing score, in which
      every score group keeps the input order. */
  lemma {:induction false} SortByScoreCorrect(ms: seq<Match>)
    ensures multiset(SortByScore(ms)) == multiset(ms)
    ensures SortedByScore(SortByScore(ms))
    ensures forall v :: WithScore(SortByScore(ms), v) == WithScore(ms, v)
  {
    if ms != [] {
      var rest := SortByScore(ms[1..]);
      SortByScoreCorrect(ms[1..]);
      InsertPermutes(ms[0], rest);
      InsertKeepsSorted(ms[0], rest);
      assert ms == [ms[0]] + ms[1..];
      forall v ensures WithScore(SortByScore(ms), v) == WithScore(ms, v) {
        InsertIsStable(ms[0], rest, v);
      }
    }
  }

  lemma HeadIsMaximal(ms: seq<Match>)
    requires SortedByScore(ms) && ms != []
    ensures forall m :: m in ms ==> m.score <= ms[0].score
  {
  }

  /** Two sequences sorted by non-increasing score with the same entries in every score group
      are equal: the result of a stable sort by descending score is unique. */
  lemma {:induction false} StableSortIsUnique(t: seq<Match>, u: seq<Match>)
    requires SortedByScore(t) && SortedByScore(u)
    requires forall v :: WithScore(t, v) == WithScore(u, v)
    ensures t == u
  {
    if t == [] || u == [] {
      var w := if t == [] then u else t;
      if w != [] {
        var probe := WithScore(w, w[0].score);
        assert false;
      }
    } else {
      var a, b := t[0].score, u[0].score;
      WithScoreMembers(t, b);
      WithScoreMembers(u, a);
      assert t[0] in WithScore(u, a);
      assert u[0] in WithScore(t, b);
      HeadIsMaximal(t);
      HeadIsMaximal(u);
      assert a == b;
      assert WithScore(t, a)[0] == t[0];
      assert WithScore(u, a)[0] == u[0];
      assert t[0] == u[0];
      forall v ensures WithScore(t[1..], v) == WithScore(u[1..], v) {
        var head := if a == v then [t[0]] else [];
        assert WithScore(t, v) == head + WithScore(t[1..], v);
        assert WithScore(u, v) == head + WithScore(u[1..], v);
        assert WithScore(t[1..], v) == WithScore(t, v)[|head|..];
        assert WithScore(u[1..], v) == WithScore(u, v)[|head|..];
      }
      StableSortIsUnique(t[1..], u[1..]);
      assert t == [t[0]] + t[1..];
      assert u == [u[0]] + u[1..];
    }
  }

  /** The shortlist holds min(3, n) of the n entries, best first, and no entry left out of it
      scores higher than any entry on it. */
  lemma ShortlistIsTopThree(ms: seq<Match>)
    ensures var top := TopMatches(SortByScore(ms));
            && |top| == (if |ms| < 3 then |ms| else 3)
            && SortedByScore(top)
            && multiset(top) <= multiset(ms)
            && forall i, m :: 0 <= i < |top| && m in multiset(ms) - multiset(top) ==> m.score <= top[i].score
  {
    var sorted := SortByScore(ms);
    SortByScoreCorrect(ms);
    assert |sorted| == |ms| by {
      assert |multiset(sorted)| == |multiset(ms)|;
    }
    var top := TopMatches(sorted);
    PrefixBeatsRest(sorted, |top|);
  }

  lemma PrefixBeatsRest(sorted: seq<Match>, n: nat)
    requires SortedByScore(sorted) && n <= |sorted|
    ensures SortedByScore(sorted[..n])
    ensures multiset(sorted[..n]) <= multiset(sorted)
    ensures forall i, m :: 0 <= i < n && m in multiset(sorted) - multiset(sorted[..n]) ==> m.score <= sorted[i].score
  {
    var top, rest := sorted[..n], sorted[n..];
    assert sorted == top + rest;
    assert multiset(sorted) == multiset(top) + multiset(rest);
    forall i, m | 0 <= i < n && m in multiset(sorted) - multiset(top) ensures m.score <= sorted[i].score {
      assert m in multiset(rest);
      var k :| 0 <= k < |rest| && rest[k] == m;
      assert sorted[n + k] == m;
    }
  }
}
