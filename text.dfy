/**
 * The string primitives the FAQ matcher is built from, as JavaScript defines them:
 * `toLowerCase` (on ASCII letters only), `split(' ')` on a single space, the keyword
 * filter `word.length > 2`, and `includes` (substring search).
 *
 * A `string` here is a sequence of Unicode characters. JavaScript measures `length` in UTF-16
 * code units, which CodeUnits counts. `split` and `includes` give the same answers on
 * characters as on code units for well-formed text: the space is one code unit, and a
 * surrogate pair cannot match half of another.
 */
module Text {

  const Space: char := ' '

  // ---------------------------------------------------------------------------
  // Lower-casing
  // ---------------------------------------------------------------------------

  function LowerChar(c: char): char {
    if 'A' <= c <= 'Z' then (c as int - 'A' as int + 'a' as int) as char else c
  }

  predicate IsLowerCase(s: string) {
    forall i :: 0 <= i < |s| ==> !('A' <= s[i] <= 'Z')
  }

  /** `s.toLowerCase()`: every character mapped through LowerChar, length kept. */
  function Lower(s: string): (r: string)
    ensures |r| == |s|
    ensures forall i :: 0 <= i < |s| ==> r[i] == LowerChar(s[i])
  {
    if s == [] then [] else [LowerChar(s[0])] + Lower(s[1..])
  }

  /** Lower-casing leaves no upper-case letter behind and fixes every lower-case text,
      so normalising a text twice gives the same text as normalising it once. */
  lemma LowerNormalises(s: string)
    ensures IsLowerCase(Lower(s))
    ensures IsLowerCase(s) ==> Lower(s) == s
    ensures Lower(Lower(s)) == Lower(s)
  {
    assert IsLowerCase(Lower(s));
    forall t: string | IsLowerCase(t) ensures Lower(t) == t {
      assert forall i :: 0 <= i < |t| ==> Lower(t)[i] == t[i];
    }
  }

  /** Lower-casing never creates or removes a space, so it keeps the token boundaries. */
  lemma LowerKeepsSpaces(s: string)
    ensures forall i :: 0 <= i < |s| ==> (Lower(s)[i] == Space <==> s[i] == Space)
  {
  }

  // ---------------------------------------------------------------------------
  // Splitting on a single space
  // ---------------------------------------------------------------------------

  /** `s.split(' ')`: the pieces between single spaces. Two spaces in a row give an empty
      piece, and the empty text gives one empty piece, as in JavaScript. */
  function Split(s: string): (r: seq<string>)
    ensures |r| >= 1
    ensures forall t :: t in r ==> Space !in t
  {
    if s == [] then [[]]
    else
      var rest := Split(s[1..]);
      if s[0] == Space then [[]] + rest
      else [[s[0]] + rest[0]] + rest[1..]
  }

  /** `pieces.join(' ')`, the inverse of Split. */
  function Join(pieces: seq<string>): string
    requires |pieces| >= 1
  {
    if |pieces| == 1 then pieces[0] else pieces[0] + [Space] + Join(pieces[1..])
  }

  /** Joining the pieces of a text with single spaces gives the text back. */
  lemma {:induction false} JoinSplit(s: string)
    ensures Join(Split(s)) == s
  {
    if s != [] {
      var rest := Split(s[1..]);
      JoinSplit(s[1..]);
      if s[0] == Space {
        assert Split(s) == [[]] + rest;
        assert ([[]] + rest)[1..] == rest;
      } else {
        var r := Split(s);
        assert r == [[s[0]] + rest[0]] + rest[1..];
        if |rest| == 1 {
          assert r == [[s[0]] + rest[0]];
        } else {
          assert r[1..] == rest[1..];
          assert Join(r) == [s[0]] + (rest[0] + [Space] + Join(rest[1..]));
        }
      }
    }
  }

  /** Splitting a text that starts with a space-free word peels that word off. */
  lemma {:induction false} SplitWordPrefix(w: string, rest: string)
    requires Space !in w
    ensures Split(w + rest) == [w + Split(rest)[0]] + Split(rest)[1..]
  {
    if w != [] {
      assert (w + rest)[1..] == w[1..] + rest;
      SplitWordPrefix(w[1..], rest);
      assert [w[0]] + (w[1..] + Split(rest)[0]) == w + Split(rest)[0];
    } else {
      var r := Split(rest);
      assert w + rest == rest;
      assert w + r[0] == r[0];
      assert [r[0]] + r[1..] == r;
    }
  }

  /** Splitting space-free pieces joined with single spaces gives the pieces back. */
  lemma {:induction false} SplitJoin(pieces: seq<string>)
    requires |pieces| >= 1
    requires forall t :: t in pieces ==> Space !in t
    ensures Split(Join(pieces)) == pieces
  {
    if |pieces| == 1 {
      SplitWordPrefix(pieces[0], []);
      assert pieces[0] + [] == pieces[0];
    } else {
      var tail := Join(pieces[1..]);
      SplitJoin(pieces[1..]);
      assert pieces[0] + [Space] + tail == pieces[0] + ([Space] + tail);
      SplitWordPrefix(pieces[0], [Space] + tail);
      assert ([Space] + tail)[1..] == tail;
      assert Split([Space] + tail) == [[]] + pieces[1..];
      assert pieces[0] + [] == pieces[0];
      assert [pieces[0]] + pieces[1..] == pieces;
    }
  }

  // ---------------------------------------------------------------------------
  // Keywords
  // ---------------------------------------------------------------------------

  /** How many UTF-16 code units a character takes: two (a surrogate pair) outside the Basic
      Multilingual Plane, one inside it. */
  function CharUnits(c: char): nat {
    if c as int >= 0x1_0000 then 2 else 1
  }

  /** `w.length`: JavaScript counts UTF-16 code units, so a character outside the Basic
      Multilingual Plane counts twice. */
  function CodeUnits(w: string): (n: nat)
    ensures |w| <= n <= 2 * |w|
    ensures n == |w| <==> forall i :: 0 <= i < |w| ==> w[i] as int < 0x1_0000
  {
    if w == [] then 0
    else
      var init := w[..|w| - 1];
      assert forall i :: 0 <= i < |init| ==> init[i] == w[i];
      CodeUnits(init) + CharUnits(w[|w| - 1])
  }

  /** The length of a concatenation is the sum of the lengths. */
  lemma {:induction false} CodeUnitsAppend(a: string, b: string)
    ensures CodeUnits(a + b) == CodeUnits(a) + CodeUnits(b)
  {
    if b != [] {
      var init := b[..|b| - 1];
      CodeUnitsAppend(a, init);
      assert (a + b)[..|a + b| - 1] == a + init;
    } else {
      assert a + b == a;
    }
  }

  /** `.filter(word => word.length > 2)` */
  function LongWords(words: seq<string>): seq<string>
  {
    if words == [] then []
    else LongWords(words[..|words| - 1]) + (if CodeUnits(words[|words| - 1]) > 2 then [words[|words| - 1]] else [])
  }

  /** A word survives the filter exactly when it is longer than two code units. */
  lemma {:induction false} LongWordsMembers(words: seq<string>)
    ensures forall w :: w in LongWords(words) <==> w in words && CodeUnits(w) > 2
  {
    if words != [] {
      var init := words[..|words| - 1];
      LongWordsMembers(init);
      assert words == init + [words[|words| - 1]];
    }
  }

  /** The filter keeps the order of the words: filtering a concatenation filters each part. */
  lemma {:induction false} LongWordsAppend(a: seq<string>, b: seq<string>)
    ensures LongWords(a + b) == LongWords(a) + LongWords(b)
  {
    if b == [] {
      assert a + b == a;
    } else {
      var init := b[..|b| - 1];
      LongWordsAppend(a, init);
      assert (a + b)[..|a + b| - 1] == a + init;
    }
  }

  /** `text.split(' ').filter(word => word.length > 2)` */
  function Keywords(text: string): seq<string>
  {
    LongWords(Split(text))
  }

  /** Every keyword is a space-free piece of the text longer than two code units, and every
      such piece is a keyword; in particular the empty pieces left by repeated spaces never are. */
  lemma KeywordsArePieces(text: string)
    ensures forall k :: k in Keywords(text) <==> k in Split(text) && CodeUnits(k) > 2
    ensures forall k :: k in Keywords(text) ==> Space !in k && k != []
  {
    LongWordsMembers(Split(text));
  }

  // ---------------------------------------------------------------------------
  // Substring search
  // ---------------------------------------------------------------------------

  /** `p` occurs in `s` starting at position `i`. */
  ghost predicate OccursAt(s: string, p: string, i: int) {
    0 <= i && i + |p| <= |s| && s[i..i + |p|] == p
  }

  /** `s.includes(p)`: try every starting position from the left. */
  function Contains(s: string, p: string): bool
    decreases |s|
  {
    if |p| > |s| then false
    else if s[..|p|] == p then true
    else Contains(s[1..], p)
  }

  lemma {:induction false} ContainsFromOccurrence(s: string, p: string, i: int)
    requires OccursAt(s, p, i)
    ensures Contains(s, p)
    decreases |s|
  {
    if s[..|p|] != p {
      assert i > 0;
      assert s[1..][i - 1..i - 1 + |p|] == s[i..i + |p|];
      ContainsFromOccurrence(s[1..], p, i - 1);
    }
  }

  lemma {:induction false} OccurrenceFromContains(s: string, p: string) returns (i: int)
    requires Contains(s, p)
    ensures OccursAt(s, p, i)
    decreases |s|
  {
    if s[..|p|] == p {
      i := 0;
    } else {
      var j := OccurrenceFromContains(s[1..], p);
      assert s[1..][j..j + |p|] == s[j + 1..j + 1 + |p|];
      i := j + 1;
    }
  }

  /** `includes` answers exactly whether the pattern occurs somewhere in the text. */
  lemma ContainsIff(s: string, p: string)
    ensures Contains(s, p) <==> exists i :: OccursAt(s, p, i)
  {
    if Contains(s, p) {
      var i := OccurrenceFromContains(s, p);
    }
    if exists i :: OccursAt(s, p, i) {
      var i :| OccursAt(s, p, i);
      ContainsFromOccurrence(s, p, i);
    }
  }

  /** A text found inside a text found inside `s` is found inside `s`. */
  lemma ContainsTransitive(s: string, p: string, q: string)
    requires Contains(s, p) && Contains(p, q)
    ensures Contains(s, q)
  {
    var i := OccurrenceFromContains(s, p);
    var j := OccurrenceFromContains(p, q);
    assert forall k :: 0 <= k < |q| ==> s[i + j + k] == p[j + k] == q[k];
    assert s[i + j..i + j + |q|] == q;
    ContainsFromOccurrence(s, q, i + j);
  }

  lemma ContainsInLeft(a: string, b: string, p: string)
    requires Contains(a, p)
    ensures Contains(a + b, p)
  {
    var i := OccurrenceFromContains(a, p);
    assert (a + b)[i..i + |p|] == a[i..i + |p|];
    ContainsFromOccurrence(a + b, p, i);
  }

  lemma ContainsInRight(a: string, b: string, p: string)
    requires Contains(b, p)
    ensures Contains(a + b, p)
  {
    var i := OccurrenceFromContains(b, p);
    assert (a + b)[|a| + i..|a| + i + |p|] == b[i..i + |p|];
    ContainsFromOccurrence(a + b, p, |a| + i);
  }

  /** Every piece of a joined text occurs in it. */
  lemma {:induction false} JoinContainsPieces(pieces: seq<string>)
    requires |pieces| >= 1
    ensures forall t :: t in pieces ==> Contains(Join(pieces), t)
  {
    ContainsFromOccurrence(pieces[0], pieces[0], 0);
    if |pieces| > 1 {
      var tail := Join(pieces[1..]);
      JoinContainsPieces(pieces[1..]);
      ContainsInLeft(pieces[0], [Space] + tail, pieces[0]);
      assert Join(pieces) == pieces[0] + ([Space] + tail);
      forall t | t in pieces[1..] ensures Contains(Join(pieces), t) {
        ContainsInRight([Space], tail, t);
        ContainsInRight(pieces[0], [Space] + tail, t);
      }
    }
  }

  /** Every keyword of a text occurs in that text. */
  lemma KeywordsOccurInText(text: string)
    ensures forall k :: k in Keywords(text) ==> Contains(text, k)
  {
    KeywordsArePieces(text);
    JoinContainsPieces(Split(text));
    JoinSplit(text);
  }
}
