/**
 * A user's stored FAQ document and the three routes that change its list of question/answer
 * pairs in place: append a pair, edit the pair at an index, delete the pair at an index.
 *
 * A missing text field (absent or empty) is the empty string. The index parameter is the
 * result of parsing the route parameter as a decimal integer: `None` when it is not a number.
 */
module FaqStore {
  import opened Wrappers
  import opened Bot

  /** How a route answered: 200, 201, 400 or 404. */
  datatype Status = Ok | Created | BadRequest | NotFound

  /** The pairs without the one at `i`: earlier pairs keep their place, later ones move down one. */
  function Removed(pairs: seq<QA>, i: nat): (r: seq<QA>)
    requires i < |pairs|
    ensures |r| == |pairs| - 1
    ensures forall j :: 0 <= j < i ==> r[j] == pairs[j]
    ensures forall j :: i <= j < |r| ==> r[j] == pairs[j + 1]
    ensures multiset(r) + multiset{pairs[i]} == multiset(pairs)
  {
    assert pairs == pairs[..i] + [pairs[i]] + pairs[i + 1..];
    pairs[..i] + pairs[i + 1..]
  }

  /** A pair with the supplied fields replaced: an empty field leaves the stored one in place. */
  function Revised(pair: QA, q: string, a: string): (r: QA)
    ensures r.q == (if q != [] then q else pair.q)
    ensures r.a == (if a != [] then a else pair.a)
  {
    QA(if q != [] then q else pair.q, if a != [] then a else pair.a)
  }

  /** Every stored pair has a question and an answer: what the routes below let in. */
  predicate Complete(pairs: seq<QA>) {
    forall j :: 0 <= j < |pairs| ==> pairs[j].q != [] && pairs[j].a != []
  }

  class FaqDocument {
    var qAndA: seq<QA>

    /** A document holding the given pairs (a document created by the first append holds one). */
    constructor(pairs: seq<QA>)
      ensures qAndA == pairs
    {
      qAndA := pairs;
    }

    /** Appends a pair; both fields are required. */
    method Add(q: string, a: string) returns (status: Status)
      modifies this
      ensures q == [] || a == [] ==> status == BadRequest && qAndA == old(qAndA)
      ensures q != [] && a != [] ==> status == Created && qAndA == old(qAndA) + [QA(q, a)]
      ensures old(Complete(qAndA)) ==> Complete(qAndA)
    {
      if q == [] || a == [] {
        return BadRequest;
      }
      qAndA := qAndA + [QA(q, a)];
      status := Created;
    }

    /** Replaces the supplied fields of the pair at `index`; at least one field is required and
        an index with no pair is not found. */
    method Edit(index: Option<int>, q: string, a: string) returns (status: Status)
      modifies this
      ensures index.None? ==> status == BadRequest && qAndA == old(qAndA)
      ensures index.Some? && q == [] && a == [] ==> status == BadRequest && qAndA == old(qAndA)
      ensures index.Some? && (q != [] || a != []) && !(0 <= index.value < |old(qAndA)|) ==>
                status == NotFound && qAndA == old(qAndA)
      ensures index.Some? && (q != [] || a != []) && 0 <= index.value < |old(qAndA)| ==>
                status == Ok && qAndA == old(qAndA)[index.value := Revised(old(qAndA)[index.value], q, a)]
      ensures old(Complete(qAndA)) ==> Complete(qAndA)
    {
      if index.None? {
        return BadRequest;
      }
      var idx := index.value;
      if q == [] && a == [] {
        return BadRequest;
      }
      if !(0 <= idx < |qAndA|) {
        return NotFound;
      }
      if q != [] {
        qAndA := qAndA[idx := qAndA[idx].(q := q)];
      }
      if a != [] {
        qAndA := qAndA[idx := qAndA[idx].(a := a)];
      }
      status := Ok;
    }

    /** Removes the pair at `index`; an index with no pair is not found. */
    method Delete(index: Option<int>) returns (status: Status)
      modifies this
      ensures index.None? ==> status == BadRequest && qAndA == old(qAndA)
      ensures index.Some? && !(0 <= index.value < |old(qAndA)|) ==> status == NotFound && qAndA == old(qAndA)
      ensures index.Some? && 0 <= index.value < |old(qAndA)| ==>
                status == Ok && qAndA == Removed(old(qAndA), index.value)
      ensures old(Complete(qAndA)) ==> Complete(qAndA)
    {
      if index.None? {
        return BadRequest;
      }
      var idx := index.value;
      if !(0 <= idx < |qAndA|) {
        return NotFound;
      }
      qAndA := qAndA[..idx] + qAndA[idx + 1..];
      status := Ok;
    }
  }

  // ---------------------------------------------------------------------------
  // How the updates relate
  // ---------------------------------------------------------------------------

  /** Deleting the pair just appended gives the list back. */
  lemma RemoveLastUndoesAppend(pairs: seq<QA>, pair: QA)
    ensures Removed(pairs + [pair], |pairs|) == pairs
  {
  }

  /** Revising a pair with its own fields, or with no fields, leaves it unchanged; revising
      twice keeps the later supplied fields. */
  lemma ReviseProperties(pair: QA, q1: string, a1: string, q2: string, a2: string)
    ensures Revised(pair, pair.q, pair.a) == pair
    ensures Revised(pair, [], []) == pair
    ensures Revised(Revised(pair, q1, a1), q2, a2) ==
            Revised(pair, if q2 != [] then q2 else q1, if a2 != [] then a2 else a1)
  {
  }

  /** After an append the bot sees one more candidate, the new pair's, after those of the
      pairs already stored. */
  lemma AppendAddsCandidate(pairs: seq<QA>, pair: QA)
    ensures StoredCandidates(pairs + [pair]) == StoredCandidates(pairs) + [CandidateOf(pair)]
  {
    var after, expected := StoredCandidates(pairs + [pair]), StoredCandidates(pairs) + [CandidateOf(pair)];
    assert forall j :: 0 <= j < |after| ==> after[j] == expected[j];
  }

  /** After a delete the bot no longer sees that pair's candidate and sees all others in order. */
  lemma DeleteRemovesCandidate(pairs: seq<QA>, i: nat)
    requires i < |pairs|
    ensures StoredCandidates(Removed(pairs, i)) == StoredCandidates(pairs)[..i] + StoredCandidates(pairs)[i + 1..]
  {
    var before, after := StoredCandidates(pairs), StoredCandidates(Removed(pairs, i));
    assert forall j :: 0 <= j < |after| ==> after[j] == (before[..i] + before[i + 1..])[j];
  }
}
