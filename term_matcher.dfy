/** The term matcher used throughout the pipeline: the regular expression
    `\b<escaped term>\b` searched with IGNORECASE, and `re.sub` with it.
    `\b` holds at position i when exactly one of s[i-1], s[i] is a word
    character, a position outside the string counting as non-word. */
module TermMatcher {
  import opened Text

  predicate WordAt(s: string, i: int) {
    0 <= i < |s| && IsWordChar(s[i])
  }

  /** `\b` at position i of s. */
  predicate Boundary(s: string, i: int) {
    WordAt(s, i - 1) != WordAt(s, i)
  }

  /** The text at position i spells the term, ignoring case. */
  predicate SpelledAt(s: string, term: string, i: nat) {
    i + |term| <= |s| && SpelledFrom(s, term, i, 0)
  }

  /** term[k..] agrees, ignoring case, with the text from i + k on. */
  predicate SpelledFrom(s: string, term: string, i: nat, k: nat)
    requires i + |term| <= |s| && k <= |term|
    decreases |term| - k
  {
    k == |term| || (Lower(s[i + k]) == Lower(term[k]) && SpelledFrom(s, term, i, k + 1))
  }

  lemma {:induction false} SpelledFromChars(s: string, term: string, i: nat, k: nat)
    requires i + |term| <= |s| && k <= |term|
    ensures SpelledFrom(s, term, i, k) <==>
              forall m :: k <= m < |term| ==> Lower(s[i + m]) == Lower(term[m])
    decreases |term| - k
  {
    if k < |term| {
      SpelledFromChars(s, term, i, k + 1);
    }
  }

  /** Spelling the term at i means agreeing with it character by character, ignoring case. */
  lemma SpelledAtChars(s: string, term: string, i: nat)
    requires i + |term| <= |s|
    ensures SpelledAt(s, term, i) <==> forall m :: 0 <= m < |term| ==> Lower(s[i + m]) == Lower(term[m])
  {
    SpelledFromChars(s, term, i, 0);
  }

  /** The escaped term matches, ignoring case, at position i with `\b` on both sides. */
  predicate MatchAt(s: string, term: string, i: nat) {
    SpelledAt(s, term, i) && Boundary(s, i) && Boundary(s, i + |term|)
  }

  /** `re.search(pattern, s, pos=from)`: the leftmost whole-word match at or after `from`. */
  function Search(s: string, term: string, from: nat): (r: Option<nat>)
    requires from <= |s|
    ensures r.Some? ==> from <= r.value && MatchAt(s, term, r.value)
    ensures r.Some? ==> forall j :: from <= j < r.value ==> !MatchAt(s, term, j)
    ensures r.None? ==> forall j :: from <= j ==> !MatchAt(s, term, j)
    decreases |s| - from
  {
    if MatchAt(s, term, from) then Some(from)
    else if from == |s| then None
    else Search(s, term, from + 1)
  }

  /** Conversely, a match with no match before it is the one `re.search` finds. */
  lemma {:induction false} SearchFindsFirst(s: string, term: string, from: nat, k: nat)
    requires from <= k <= |s| && MatchAt(s, term, k)
    requires forall j :: from <= j < k ==> !MatchAt(s, term, j)
    ensures Search(s, term, from) == Some(k)
    decreases k - from
  {
    if from < k {
      SearchFindsFirst(s, term, from + 1, k);
    }
  }

  /** `bool(re.search(r'\b' + re.escape(term) + r'\b', s, re.IGNORECASE))` */
  function Matches(s: string, term: string): (b: bool)
    ensures b <==> exists i: nat :: MatchAt(s, term, i)
  {
    Search(s, term, 0).Some?
  }

  /** The positions `re.sub` replaces, scanning from `from`: each the leftmost
      match at or after the end of the previous one. */
  function MatchPositions(s: string, term: string, from: nat): seq<nat>
    requires |term| > 0 && from <= |s|
    decreases |s| - from
  {
    match Search(s, term, from)
    case None => []
    case Some(k) => [k] + MatchPositions(s, term, k + |term|)
  }

  /** The replaced positions are whole-word matches, in increasing order and
      never overlapping. */
  lemma {:induction false} MatchPositionsAreMatches(s: string, term: string, from: nat)
    requires |term| > 0 && from <= |s|
    ensures forall k :: 0 <= k < |MatchPositions(s, term, from)| ==>
              from <= MatchPositions(s, term, from)[k] && MatchAt(s, term, MatchPositions(s, term, from)[k])
    ensures forall a, b :: 0 <= a < b < |MatchPositions(s, term, from)| ==>
              MatchPositions(s, term, from)[a] + |term| <= MatchPositions(s, term, from)[b]
    decreases |s| - from
  {
    var r := Search(s, term, from);
    if r.Some? {
      var p := r.value;
      MatchPositionsAreMatches(s, term, p + |term|);
      var rest := MatchPositions(s, term, p + |term|);
      var ps := MatchPositions(s, term, from);
      assert ps == [p] + rest;
      forall k | 0 <= k < |ps| ensures from <= ps[k] && MatchAt(s, term, ps[k]) {
        if k > 0 { assert ps[k] == rest[k - 1]; }
      }
      forall a, b | 0 <= a < b < |ps| ensures ps[a] + |term| <= ps[b] {
        assert ps[b] == rest[b - 1];
        if a > 0 { assert ps[a] == rest[a - 1]; }
      }
    }
  }

  /** Every whole-word match at or after `from` is one of the replaced positions or lies
      inside the span of one: only overlap keeps a match from being replaced. */
  lemma {:induction false} MatchPositionsCover(s: string, term: string, from: nat, j: nat)
    requires |term| > 0 && from <= j && MatchAt(s, term, j)
    ensures j <= |s|
    ensures exists k :: 0 <= k < |MatchPositions(s, term, from)| &&
              MatchPositions(s, term, from)[k] <= j < MatchPositions(s, term, from)[k] + |term|
    decreases |s| - from
  {
    assert SpelledAt(s, term, j);
    var r := Search(s, term, from);
    assert r.Some?;
    var p := r.value;
    assert p <= j;
    var ps := MatchPositions(s, term, from);
    var rest := MatchPositions(s, term, p + |term|);
    assert ps == [p] + rest;
    if j < p + |term| {
      assert ps[0] <= j < ps[0] + |term|;
    } else {
      MatchPositionsCover(s, term, p + |term|, j);
      var k :| 0 <= k < |rest| && rest[k] <= j < rest[k] + |term|;
      assert ps[k + 1] == rest[k];
      assert ps[k + 1] <= j < ps[k + 1] + |term|;
    }
  }

  /** `re.sub(pattern, repl, s[from..], flags=re.IGNORECASE)` with `\b` judged on all of s,
      for a replacement without backslashes (inserted verbatim). */
  function SubFrom(s: string, term: string, repl: string, from: nat): string
    requires |term| > 0 && from <= |s|
    decreases |s| - from
  {
    match Search(s, term, from)
    case None => s[from..]
    case Some(k) => s[from..k] + repl + SubFrom(s, term, repl, k + |term|)
  }

  /** One step of `re.sub`: the text up to the leftmost match, the replacement, and the
      rest substituted. */
  lemma SubFromMatch(s: string, term: string, repl: string, from: nat, k: nat)
    requires |term| > 0 && from <= |s| && Search(s, term, from) == Some(k)
    ensures from <= k && k + |term| <= |s|
    ensures SubFrom(s, term, repl, from) == s[from..k] + repl + SubFrom(s, term, repl, k + |term|)
  {
    var r := Search(s, term, from);
    assert MatchAt(s, term, r.value);
    var t := SubFrom(s, term, repl, from);
    assert t == s[from..r.value] + repl + SubFrom(s, term, repl, r.value + |term|);
  }

  /** The last step of `re.sub`: no match left, the rest is copied. */
  lemma SubFromNoMatch(s: string, term: string, repl: string, from: nat)
    requires |term| > 0 && from <= |s| && Search(s, term, from) == None
    ensures SubFrom(s, term, repl, from) == s[from..]
  {
  }

  function Sub(s: string, term: string, repl: string): string
    requires |term| > 0
  {
    SubFrom(s, term, repl, 0)
  }

  /** Each replacement changes the length by |repl| - |term|, once per match position. */
  lemma {:induction false} SubLength(s: string, term: string, repl: string, from: nat)
    requires |term| > 0 && from <= |s|
    ensures |SubFrom(s, term, repl, from)|
         == |s| - from + |MatchPositions(s, term, from)| * (|repl| - |term|)
    decreases |s| - from
  {
    var r := Search(s, term, from);
    if r.Some? {
      var k := r.value;
      var rest := SubFrom(s, term, repl, k + |term|);
      var n, d := |MatchPositions(s, term, k + |term|)|, |repl| - |term|;
      SubLength(s, term, repl, k + |term|);
      assert |MatchPositions(s, term, from)| == n + 1;
      assert SubFrom(s, term, repl, from) == s[from..k] + repl + rest;
      MulSucc(n, d);
    }
  }

  lemma MulSucc(n: int, d: int)
    ensures (n + 1) * d == n * d + d
  {
  }

  /** No whole-word match: `re.sub` returns its input. */
  lemma SubWithoutMatch(s: string, term: string, repl: string)
    requires |term| > 0
    requires !Matches(s, term)
    ensures Sub(s, term, repl) == s
    ensures MatchPositions(s, term, 0) == []
  {
    assert s[0..] == s;
  }

  /** An occurrence of the term glued to a word character on either side is no match:
      if every case-insensitive occurrence is embedded in a longer word, nothing is replaced. */
  lemma EmbeddedTermUntouched(s: string, term: string, repl: string)
    requires |term| > 0 && IsWordChar(term[0]) && IsWordChar(term[|term| - 1])
    requires forall i: nat :: SpelledAt(s, term, i) ==> WordAt(s, i - 1) || WordAt(s, i + |term|)
    ensures Sub(s, term, repl) == s
  {
    forall i: nat ensures !MatchAt(s, term, i) {
      if SpelledAt(s, term, i) {
        SpelledEdges(s, term, i);
      }
    }
    SubWithoutMatch(s, term, repl);
  }

  /** A spelling of a term starts and ends with characters of the term's word class. */
  lemma SpelledEdges(s: string, term: string, i: nat)
    requires |term| > 0 && SpelledAt(s, term, i)
    ensures IsWordChar(s[i]) == IsWordChar(term[0])
    ensures IsWordChar(s[i + |term| - 1]) == IsWordChar(term[|term| - 1])
  {
    SpelledAtChars(s, term, i);
    assert Lower(s[i + 0]) == Lower(term[0]);
    assert Lower(s[i + (|term| - 1)]) == Lower(term[|term| - 1]);
  }

  /** Two spellings of a term that agree ignoring case match at the same places. */
  lemma {:induction false} SearchIgnoresTermCase(s: string, t1: string, t2: string, from: nat)
    requires EqualIgnoringCase(t1, t2) && from <= |s|
    ensures Search(s, t1, from) == Search(s, t2, from)
    decreases |s| - from
  {
    assert |t1| == |t2|;
    if from + |t1| <= |s| {
      SpelledAtChars(s, t1, from);
      SpelledAtChars(s, t2, from);
    }
    if !MatchAt(s, t1, from) && from < |s| {
      SearchIgnoresTermCase(s, t1, t2, from + 1);
    }
  }

  /** The case of the dictionary key is irrelevant: `re.sub` with either spelling gives the same text. */
  lemma {:induction false} SubIgnoresTermCase(s: string, t1: string, t2: string, repl: string, from: nat)
    requires |t1| > 0 && EqualIgnoringCase(t1, t2) && from <= |s|
    ensures |t2| > 0 && SubFrom(s, t1, repl, from) == SubFrom(s, t2, repl, from)
    decreases |s| - from
  {
    assert |t1| == |t2|;
    SearchIgnoresTermCase(s, t1, t2, from);
    var r := Search(s, t1, from);
    if r.Some? {
      var k := r.value;
      SubFromMatch(s, t1, repl, from, k);
      SubIgnoresTermCase(s, t1, t2, repl, k + |t1|);
      SubSameMatch(s, t1, t2, repl, from, k);
    } else {
      SubFromNoMatch(s, t1, repl, from);
      SubFromNoMatch(s, t2, repl, from);
    }
  }

  /** Two terms of one length found at the same place, with the same rest of the text. */
  lemma SubSameMatch(s: string, t1: string, t2: string, repl: string, from: nat, k: nat)
    requires |t1| > 0 && |t2| == |t1| && from <= |s|
    requires Search(s, t1, from) == Some(k) && Search(s, t2, from) == Some(k)
    requires k + |t1| <= |s| && SubFrom(s, t1, repl, k + |t1|) == SubFrom(s, t2, repl, k + |t1|)
    ensures SubFrom(s, t1, repl, from) == SubFrom(s, t2, repl, from)
  {
    SubFromMatch(s, t1, repl, from, k);
    SubFromMatch(s, t2, repl, from, k);
  }

  /** A text that is exactly one term bounded by word characters is replaced whole. */
  lemma SubWholeTerm(term: string, repl: string)
    requires |term| > 0 && IsWordChar(term[0]) && IsWordChar(term[|term| - 1])
    ensures Sub(term, term, repl) == repl
  {
    SpelledAtChars(term, term, 0);
    assert MatchAt(term, term, 0);
    assert Search(term, term, 0) == Some(0);
    assert Search(term, term, |term|) == None;
    assert SubFrom(term, term, repl, |term|) == [];
    assert SubFrom(term, term, repl, 0) == term[0..0] + repl + [];
  }
}
