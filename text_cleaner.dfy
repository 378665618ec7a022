/** The artifact cleaner applied to the model's output (`final_cleanup` in
    app/utils/text_cleaner.py): a trim of a redundant causal clause at the end of the
    sentence, on `" dan "` and then on `","`, then the removal of whitespace before
    closing punctuation, one pass collapsing a repeated word, capitalisation and a
    final `strip()`.  The encoding repair done first by `ftfy.fix_text` is a foreign
    library and is a parameter here. */
module TextCleaner {
  import opened Text
  import opened TermMatcher

  /** The delimiters tried, in order. */
  const Delimiters: seq<string> := [" dan ", ","]

  // ---------------------------------------------------------------------------
  // The causal-clause trim

  /** Where the causal verb must start: after the optional modal verb and whitespace. */
  function VerbStart(t: string): (v: nat)
    ensures v <= |t|
  {
    var m := if "bisa" <= t then 4 else if "dapat" <= t then 5 else 0;
    m + LeadingSpaces(t[m..])
  }

  /** Where a match of `^(bisa|dapat)?\s*(sebabkan|menyebabkan)\s*` ends in t, if one
      exists.  Once the optional modal verb is taken the rest of the pattern is fixed
      (whitespace runs are greedy and the verbs start with a letter); when the verb is
      missing after the modal, the pattern without the modal cannot match either, as
      t then starts with the modal's first letter. */
  function CausalPrefixEnd(t: string): (e: Option<nat>)
    ensures e.Some? ==> e.value <= |t|
    ensures e.Some? ==> e.value == |t| || !IsSpace(t[e.value])
    ensures e.Some? <==> OccursAt(t, "sebabkan", VerbStart(t)) || OccursAt(t, "menyebabkan", VerbStart(t))
    ensures OccursAt(t, "sebabkan", VerbStart(t)) ==> e == Some(VerbEnd(t, VerbStart(t), "sebabkan"))
    ensures OccursAt(t, "menyebabkan", VerbStart(t)) ==> e == Some(VerbEnd(t, VerbStart(t), "menyebabkan"))
  {
    var v := VerbStart(t);
    VerbsExclusive(t, v);
    if OccursAt(t, "sebabkan", v) then Some(VerbEnd(t, v, "sebabkan"))
    else if OccursAt(t, "menyebabkan", v) then Some(VerbEnd(t, v, "menyebabkan"))
    else None
  }

  /** Where the verb at v and the whitespace run after it end. */
  function VerbEnd(t: string, v: nat, verb: string): (e: nat)
    requires OccursAt(t, verb, v)
    ensures v + |verb| <= e <= |t|
    ensures e == |t| || !IsSpace(t[e])
    ensures forall i :: v + |verb| <= i < e ==> IsSpace(t[i])
  {
    var after := t[v + |verb|..];
    assert forall i :: v + |verb| <= i < |t| ==> t[i] == after[i - v - |verb|];
    v + |verb| + LeadingSpaces(after)
  }

  /** The two verbs start with different letters, so at most one starts at v. */
  lemma VerbsExclusive(t: string, v: nat)
    ensures !OccursAt(t, "sebabkan", v) || !OccursAt(t, "menyebabkan", v)
  {
    if OccursAt(t, "sebabkan", v) {
      assert t[v] == t[v..v + 8][0] == 's';
    }
  }

  /** `re.sub(r'^(bisa|dapat)?\s*(sebabkan|menyebabkan)\s*', '', t)`: a suffix of t.
      With a causal verb where the pattern puts it, everything up to the end of the verb
      and the whitespace after it is removed; otherwise t is kept. */
  function StripCausalPrefix(t: string): (r: string)
    ensures |r| <= |t| && r == t[|t| - |r|..]
    ensures |r| < |t| <==> OccursAt(t, "sebabkan", VerbStart(t)) || OccursAt(t, "menyebabkan", VerbStart(t))
    ensures |r| < |t| ==> r == [] || !IsSpace(r[0])
    ensures OccursAt(t, "sebabkan", VerbStart(t)) ==> |t| - |r| == VerbEnd(t, VerbStart(t), "sebabkan")
    ensures OccursAt(t, "menyebabkan", VerbStart(t)) ==> |t| - |r| == VerbEnd(t, VerbStart(t), "menyebabkan")
  {
    var e := CausalPrefixEnd(t);
    if e.None? then
      assert t[0..] == t;
      t
    else
      t[e.value..]
  }

  /** A causal verb after the modal verb is stripped with the whitespace after it. */
  lemma CausalPrefixStripped()
    ensures StripCausalPrefix("bisa sebabkan diabetes") == "diabetes"
  {
    var t := "bisa sebabkan diabetes";
    ModalThenVerb(t);
    StripAfterVerb(t, 5, 14);
    assert t[14..] == "diabetes";
  }

  lemma ModalThenVerb(t: string)
    requires t == "bisa sebabkan diabetes"
    ensures VerbStart(t) == 5 && OccursAt(t, "sebabkan", 5) && VerbEnd(t, 5, "sebabkan") == 14
  {
    assert VerbStart(t) == 5 by {
      assert "bisa" <= t;
      assert t[4] == ' ' && t[5] == 's';
      LeadingOneSpace(t[4..]);
    }
    assert OccursAt(t, "sebabkan", 5) by { assert t[5..13] == "sebabkan"; }
    LeadingOneSpace(t[13..]);
  }

  lemma StripAfterVerb(t: string, v: nat, e: nat)
    requires VerbStart(t) == v && OccursAt(t, "sebabkan", v) && VerbEnd(t, v, "sebabkan") == e
    ensures StripCausalPrefix(t) == t[e..]
  {
    var r := StripCausalPrefix(t);
    assert |t| - |r| == e;
    assert r == t[|t| - |r|..];
  }

  /** A modal verb without a causal verb after it is kept. */
  lemma ModalAloneKept()
    ensures StripCausalPrefix("bisa diabetes") == "bisa diabetes"
  {
    var t := "bisa diabetes";
    ModalWithoutVerb(t);
    var r := StripCausalPrefix(t);
    assert |r| == |t|;
    assert t[0..] == t;
  }

  lemma ModalWithoutVerb(t: string)
    requires t == "bisa diabetes"
    ensures !OccursAt(t, "sebabkan", VerbStart(t)) && !OccursAt(t, "menyebabkan", VerbStart(t))
  {
    assert VerbStart(t) == 5 by {
      assert "bisa" <= t;
      assert t[4] == ' ' && t[5] == 'd';
      LeadingOneSpace(t[4..]);
    }
    assert t[5..13][0] == 'd';
  }

  lemma LeadingOneSpace(s: string)
    requires |s| >= 2 && s[0] == ' ' && !IsSpace(s[1])
    ensures LeadingSpaces(s) == 1
  {
    assert s[1..][0] == s[1];
  }

  /** The normalised last part: stripped, causal prefix removed, trailing `.,?!` removed. */
  function NormalizeLast(lastPart: string): string {
    RStripClosingPunct(StripCausalPrefix(Strip(lastPart)))
  }

  /** The condition under which a delimiter pass drops the last part: there are at least
      two parts and the normalised, lower-cased last part is non-empty and a plain
      substring of the lower-cased part before it. */
  predicate DropsLast(parts: seq<string>) {
    |parts| > 1 &&
    var normalizedLast := NormalizeLast(LowerStr(parts[|parts| - 1]));
    normalizedLast != [] && Contains(LowerStr(parts[|parts| - 2]), normalizedLast)
  }

  /** One delimiter pass: either the input, or the input without its last part and the
      delimiter before it, so always a prefix of the input in its original casing. */
  function CausalTrimPass(s: string, delimiter: string): (r: string)
    requires |delimiter| > 0
    ensures r <= s
    ensures r != s <==> DropsLast(Split(s, delimiter))
    ensures r != s ==> s == r + delimiter + Split(s, delimiter)[|Split(s, delimiter)| - 1]
  {
    var parts := Split(s, delimiter);
    if DropsLast(parts) then
      DropLastPrefix(s, delimiter, parts);
      var r := Join(parts[..|parts| - 1], delimiter);
      assert r != s by { assert |r| < |s|; }
      r
    else s
  }

  /** Without its last part and the separator before it, a joined text is a proper
      prefix of itself. */
  lemma DropLastPrefix(s: string, sep: string, parts: seq<string>)
    requires |sep| > 0 && |parts| >= 2 && Join(parts, sep) == s
    ensures s == Join(parts[..|parts| - 1], sep) + sep + parts[|parts| - 1]
    ensures Join(parts[..|parts| - 1], sep) <= s && |Join(parts[..|parts| - 1], sep)| < |s|
  {
    JoinDropLast(parts, sep);
  }

  predicate NonEmptyDelimiters(ds: seq<string>) {
    forall i :: 0 <= i < |ds| ==> |ds[i]| > 0
  }

  /** Neither delimiter is empty, so `split` accepts both. */
  lemma DelimitersNonEmpty()
    ensures NonEmptyDelimiters(Delimiters)
  {
  }

  /** The passes over the delimiters, in order, each on the previous one's output. */
  function TrimPasses(ds: seq<string>, s: string): (r: string)
    requires NonEmptyDelimiters(ds)
    ensures r <= s
    decreases |ds|
  {
    if ds == [] then s else TrimPasses(ds[1..], CausalTrimPass(s, ds[0]))
  }

  // ---------------------------------------------------------------------------
  // Punctuation spacing

  /** No whitespace character directly before `.`, `,`, `?` or `!`. */
  predicate NoSpaceBeforePunct(s: string) {
    forall i :: 0 < i < |s| && IsClosingPunct(s[i]) ==> !IsSpace(s[i - 1])
  }

  /** `re.sub(r'\s+([.,?!])', r'\1', s)`: a whitespace run followed by closing
      punctuation is dropped.  A run not followed by punctuation fails at every one of
      its positions, so it is copied one character at a time. */
  function JoinPunct(s: string): (r: string)
    ensures |r| <= |s|
    ensures NoSpaceBeforePunct(r)
    ensures |r| > 0 && IsClosingPunct(r[0]) ==> LeadingSpaces(s) < |s| && IsClosingPunct(s[LeadingSpaces(s)])
    ensures NoSpaceBeforePunct(s) ==> r == s
    decreases |s|
  {
    if s == [] then []
    else
      var n := LeadingSpaces(s);
      if 0 < n < |s| && IsClosingPunct(s[n]) then
        var rest := JoinPunct(s[n + 1..]);
        NoSpaceBeforePunctConcat([s[n]], rest);
        assert IsSpace(s[n - 1]);
        [s[n]] + rest
      else
        var rest := JoinPunct(s[1..]);
        assert IsSpace(s[0]) ==> n == 1 + LeadingSpaces(s[1..]);
        NoSpaceBeforePunctConcat([s[0]], rest);
        NoSpaceBeforePunctTail(s);
        [s[0]] + rest
  }

  /** s starts with a whitespace character whose run is followed by `.`, `,`, `?` or
      `!`. */
  predicate SpaceBeforePunctAt(s: string)
    requires s != []
  {
    IsSpace(s[0]) && LeadingSpaces(s) < |s| && IsClosingPunct(s[LeadingSpaces(s)])
  }

  /** Character by character: every character is kept except a whitespace character
      whose run is followed by closing punctuation. */
  function KeepChars(s: string): string {
    if s == [] then []
    else (if SpaceBeforePunctAt(s) then [] else [s[0]]) + KeepChars(s[1..])
  }

  /** The punctuation step removes exactly the whitespace directly before closing
      punctuation, and keeps every other character in order. */
  lemma {:induction false} JoinPunctKeepsChars(s: string)
    ensures JoinPunct(s) == KeepChars(s)
    decreases |s|
  {
    if s != [] {
      var n := LeadingSpaces(s);
      if 0 < n < |s| && IsClosingPunct(s[n]) {
        JoinPunctKeepsChars(s[n + 1..]);
        DropRun(s, 0);
        assert s[0..] == s;
        var t := s[n..];
        assert t[0] == s[n] && !IsSpace(t[0]);
        assert t[1..] == s[n + 1..];
        assert KeepChars(t) == [s[n]] + KeepChars(s[n + 1..]);
      } else {
        JoinPunctKeepsChars(s[1..]);
        assert !SpaceBeforePunctAt(s);
      }
    }
  }

  /** Every character of a whitespace run followed by punctuation is dropped. */
  lemma {:induction false} DropRun(s: string, k: nat)
    requires k <= LeadingSpaces(s) < |s| && IsClosingPunct(s[LeadingSpaces(s)])
    ensures KeepChars(s[k..]) == KeepChars(s[LeadingSpaces(s)..])
    decreases LeadingSpaces(s) - k
  {
    var n := LeadingSpaces(s);
    if k < n {
      var t := s[k..];
      LeadingSpacesFrom(s, k);
      assert t[LeadingSpaces(t)] == s[n];
      assert SpaceBeforePunctAt(t);
      assert t[1..] == s[k + 1..];
      DropRun(s, k + 1);
    }
  }

  /** Inside the leading whitespace run, the run continues to the same place. */
  lemma LeadingSpacesFrom(s: string, k: nat)
    requires k <= LeadingSpaces(s)
    ensures LeadingSpaces(s[k..]) == LeadingSpaces(s) - k
  {
    var n := LeadingSpaces(s);
    var t := s[k..];
    assert forall i :: 0 <= i < |t| ==> t[i] == s[k + i];
    assert forall i :: 0 <= i < n - k ==> IsSpace(t[i]);
    assert n - k == |t| || !IsSpace(t[n - k]);
  }

  /** Dropping the first character keeps the property. */
  lemma NoSpaceBeforePunctTail(s: string)
    requires s != []
    ensures NoSpaceBeforePunct(s) ==> NoSpaceBeforePunct(s[1..]) && s == [s[0]] + s[1..]
  {
    if NoSpaceBeforePunct(s) {
      forall i | 0 < i < |s[1..]| && IsClosingPunct(s[1..][i]) ensures !IsSpace(s[1..][i - 1]) {
        assert s[1..][i] == s[i + 1];
      }
    }
  }

  // ---------------------------------------------------------------------------
  // Repeated-word collapse

  /** End of the run of word characters starting at i. */
  function WordEnd(s: string, i: nat): (e: nat)
    requires i <= |s|
    ensures i <= e <= |s|
    ensures forall j :: i <= j < e ==> IsWordChar(s[j])
    ensures e == |s| || !IsWordChar(s[e])
  {
    i + LeadingWordChars(s[i..])
  }

  /** Where a match of `\b(\w+)\s+\1\b` (ignoring case) that starts at i ends, if one
      does.  The group must be the whole word starting at i (a shorter group is followed
      by a word character, not whitespace), the whitespace run is taken whole (the
      repetition starts with a word character), and the repetition must end at `\b`. */
  function DuplicateEnd(s: string, i: nat): (j: Option<nat>)
    requires i <= |s|
    ensures j.Some? ==> i < WordEnd(s, i) < j.value <= |s|
  {
    if WordAt(s, i - 1) || !WordAt(s, i) then None
    else
      var e := WordEnd(s, i);
      var k := e + LeadingSpaces(s[e..]);
      if k > e && SpelledAt(s, s[i..e], k) && !WordAt(s, k + (e - i)) then Some(k + (e - i))
      else None
  }

  /** What a match of `\b(\w+)\s+\1\b` (ignoring case) from i to j means, with the
      repetition starting at k: the group is the whole word at i, with no word
      character before it; a non-empty whitespace run fills the gap up to k; the
      repetition spells the group ignoring case; no word character follows it. */
  predicate RepetitionMatch(s: string, i: nat, k: nat, j: nat)
    requires i <= |s|
  {
    var e := WordEnd(s, i);
    !WordAt(s, i - 1) && i < e && e < k && k + (e - i) == j && j <= |s|
    && AllSpace(s[e..k]) && EqualIgnoringCase(s[k..j], s[i..e]) && !WordAt(s, j)
  }

  /** DuplicateEnd finds a repetition at i exactly when one exists, and then where it
      ends. */
  lemma DuplicateEndMeaning(s: string, i: nat)
    requires i <= |s|
    ensures DuplicateEnd(s, i).Some? ==>
              RepetitionMatch(s, i, DuplicateEnd(s, i).value - (WordEnd(s, i) - i), DuplicateEnd(s, i).value)
    ensures forall k: nat, j: nat :: RepetitionMatch(s, i, k, j) ==> DuplicateEnd(s, i) == Some(j)
  {
    if DuplicateEnd(s, i).Some? {
      DuplicateIsRepetition(s, i);
    }
    forall k: nat, j: nat | RepetitionMatch(s, i, k, j) ensures DuplicateEnd(s, i) == Some(j) {
      RepetitionFound(s, i, k, j);
    }
  }

  lemma DuplicateIsRepetition(s: string, i: nat)
    requires i <= |s| && DuplicateEnd(s, i).Some?
    ensures RepetitionMatch(s, i, DuplicateEnd(s, i).value - (WordEnd(s, i) - i), DuplicateEnd(s, i).value)
  {
    var e := WordEnd(s, i);
    var j := DuplicateEnd(s, i).value;
    var k := e + LeadingSpaces(s[e..]);
    assert k + (e - i) == j;
    assert AllSpace(s[e..k]) by {
      forall m | 0 <= m < k - e ensures s[e..k][m] == s[e..][m] { }
    }
    SpelledAtChars(s, s[i..e], k);
    assert EqualIgnoringCase(s[k..j], s[i..e]) by {
      forall m | 0 <= m < e - i ensures s[k..j][m] == s[k + m] { }
    }
  }

  lemma RepetitionFound(s: string, i: nat, k: nat, j: nat)
    requires i <= |s| && RepetitionMatch(s, i, k, j)
    ensures DuplicateEnd(s, i) == Some(j)
  {
    var e := WordEnd(s, i);
    var w := s[i..e];
    assert Lower(s[k..j][0]) == Lower(w[0]);
    LowerKeepsWordChar(s[k]);
    LowerKeepsWordChar(s[i]);
    assert IsWordChar(s[k]);
    var t := s[e..];
    assert forall m :: 0 <= m < k - e ==> t[m] == s[e..k][m];
    assert t[k - e] == s[k];
    assert LeadingSpaces(t) == k - e;
    SpelledAtChars(s, w, k);
    forall m | 0 <= m < |w| ensures Lower(s[k + m]) == Lower(w[m]) {
      assert s[k..j][m] == s[k + m];
    }
  }

  lemma LowerKeepsWordChar(c: char)
    ensures IsWordChar(Lower(c)) == IsWordChar(c) && !(IsWordChar(c) && IsSpace(c))
  {
  }

  /** `re.sub(r'\b(\w+)\s+\1\b', r'\1', s[i..], flags=re.IGNORECASE)` with `\b` judged
      on all of s: one left-to-right pass, resuming after each replaced match.
      CollapseCopies and CollapseReplacesFirst state what the pass does. */
  function CollapseFrom(s: string, i: nat): (r: string)
    requires i <= |s|
    ensures |r| <= |s| - i
    ensures r == [] <==> i == |s|
    ensures r != [] ==> r[0] == s[i]
    decreases |s| - i
  {
    if i == |s| then []
    else
      var j := DuplicateEnd(s, i);
      if j.Some? then s[i..WordEnd(s, i)] + CollapseFrom(s, j.value)
      else [s[i]] + CollapseFrom(s, i + 1)
  }

  /** No repetition starts anywhere in s[i..m]. */
  predicate NoRepetitionBetween(s: string, i: nat, m: nat)
    requires i <= m <= |s|
  {
    forall p :: i <= p < m ==> DuplicateEnd(s, p).None?
  }

  /** Where no repetition starts, the pass copies one character. */
  lemma CollapseCopyOne(s: string, i: nat)
    requires i < |s| && DuplicateEnd(s, i).None?
    ensures CollapseFrom(s, i) == [s[i]] + CollapseFrom(s, i + 1)
  {
  }

  /** Where a repetition starts, the pass keeps its word and resumes after it. */
  lemma CollapseJump(s: string, i: nat)
    requires i <= |s| && DuplicateEnd(s, i).Some?
    ensures CollapseFrom(s, i) == s[i..WordEnd(s, i)] + CollapseFrom(s, DuplicateEnd(s, i).value)
  {
  }

  lemma CollapseJumpTo(s: string, i: nat, e: nat, j: nat)
    requires i <= e <= |s| && WordEnd(s, i) == e && DuplicateEnd(s, i) == Some(j)
    ensures CollapseFrom(s, i) == s[i..e] + CollapseFrom(s, j)
  {
    CollapseJump(s, i);
  }

  /** Up to the first place a repetition starts, the pass copies the text. */
  lemma {:induction false} CollapseCopies(s: string, i: nat, m: nat)
    requires i <= m <= |s| && NoRepetitionBetween(s, i, m)
    ensures CollapseFrom(s, i) == s[i..m] + CollapseFrom(s, m)
    decreases m - i
  {
    if i < m {
      calc {
        CollapseFrom(s, i);
      == { CollapseCopyOne(s, i); }
        [s[i]] + CollapseFrom(s, i + 1);
      == { CollapseCopies(s, i + 1, m); }
        [s[i]] + (s[i + 1..m] + CollapseFrom(s, m));
      == { ConsSliceJoin(s, i, m, CollapseFrom(s, m)); }
        s[i..m] + CollapseFrom(s, m);
      }
    }
  }

  /** With no repetition from i on, the pass returns the text as it is. */
  lemma CollapseWithoutRepetition(s: string, i: nat)
    requires i <= |s| && NoRepetitionBetween(s, i, |s|)
    ensures CollapseFrom(s, i) == s[i..]
  {
    CollapseCopies(s, i, |s|);
  }

  /** The first repetition, starting at m, is replaced by its word and the pass
      resumes after it. */
  lemma CollapseReplacesFirst(s: string, i: nat, m: nat)
    requires i <= m <= |s| && NoRepetitionBetween(s, i, m) && DuplicateEnd(s, m).Some?
    ensures CollapseFrom(s, i)
              == s[i..WordEnd(s, m)] + CollapseFrom(s, DuplicateEnd(s, m).value)
  {
    var e := WordEnd(s, m);
    var j := DuplicateEnd(s, m).value;
    calc {
      CollapseFrom(s, i);
    == { CollapseCopies(s, i, m); }
      s[i..m] + CollapseFrom(s, m);
    == { CollapseJumpTo(s, m, e, j); }
      s[i..m] + (s[m..e] + CollapseFrom(s, j));
    == { SliceJoin(s, i, m, e, CollapseFrom(s, j)); }
      s[i..e] + CollapseFrom(s, j);
    }
  }

  lemma ConsSliceJoin(s: string, i: nat, m: nat, x: string)
    requires i < m <= |s|
    ensures [s[i]] + (s[i + 1..m] + x) == s[i..m] + x
  {
    assert s[i..m] == [s[i]] + s[i + 1..m];
  }

  lemma SliceJoin(s: string, i: nat, m: nat, e: nat, x: string)
    requires i <= m <= e <= |s|
    ensures s[i..m] + (s[m..e] + x) == s[i..e] + x
  {
    assert s[i..e] == s[i..m] + s[m..e];
  }

  /** So where a repetition starts from i on, the pass makes the text strictly
      shorter. */
  lemma CollapseShortens(s: string, i: nat, m: nat)
    requires i <= m <= |s| && NoRepetitionBetween(s, i, m) && DuplicateEnd(s, m).Some?
    ensures |CollapseFrom(s, i)| < |s| - i
  {
    CollapseReplacesFirst(s, i, m);
  }

  /** WordEnd is the end of the word run, wherever that is shown. */
  lemma WordEndAt(s: string, i: nat, e: nat)
    requires i <= e <= |s| && forall m :: i <= m < e ==> IsWordChar(s[m])
    requires e == |s| || !IsWordChar(s[e])
    ensures WordEnd(s, i) == e
  {
  }

  /** A word followed by one space and a word with another first letter starts no
      repetition. */
  lemma NoRepetitionBefore(s: string, i: nat, e: nat)
    requires i <= |s| && e == WordEnd(s, i) && e + 1 < |s| && s[e] == ' ' && !IsSpace(s[e + 1])
    requires Lower(s[e + 1]) != Lower(s[i])
    ensures DuplicateEnd(s, i).None?
  {
    LeadingOneSpace(s[e..]);
    var k := e + 1;
    if i < e && k + (e - i) <= |s| {
      SpelledAtChars(s, s[i..e], k);
      assert s[i..e][0] == s[i];
    }
  }

  function CollapseDuplicates(s: string): string {
    CollapseFrom(s, 0)
  }

  /** A non-empty run of word characters, a `\w+` group. */
  predicate WordChars(w: string) {
    |w| > 0 && forall m :: 0 <= m < |w| ==> IsWordChar(w[m])
  }

  /** A word, one space and the same word again starting at i, with no word character
      on either side, is a repetition ending after the second word. */
  lemma RepeatedWordAt(s: string, i: nat, w: string)
    requires WordChars(w) && i + 2 * |w| + 1 <= |s|
    requires s[i..i + |w|] == w && s[i + |w|] == ' ' && s[i + |w| + 1..i + 2 * |w| + 1] == w
    requires !WordAt(s, i - 1) && !WordAt(s, i + 2 * |w| + 1)
    ensures WordEnd(s, i) == i + |w| && DuplicateEnd(s, i) == Some(i + 2 * |w| + 1)
  {
    var e := i + |w|;
    var k := e + 1;
    var j := k + |w|;
    assert forall m :: i <= m < e ==> s[m] == s[i..e][m - i];
    WordEndAt(s, i, e);
    assert AllSpace(s[e..k]) by {
      assert s[e..k] == [s[e]];
    }
    assert EqualIgnoringCase(s[k..j], s[i..e]);
    RepetitionFound(s, i, k, j);
  }

  /** Where the two words of a text start with different letters, no repetition starts
      in the first word or the space after it. */
  lemma DistinctStart(s: string, w1: string)
    requires WordChars(w1) && |w1| + 1 < |s| && s[..|w1|] == w1 && s[|w1|] == ' '
    requires IsWordChar(s[|w1| + 1]) && Lower(s[|w1| + 1]) != Lower(w1[0])
    ensures NoRepetitionBetween(s, 0, |w1| + 1)
  {
    var a := |w1|;
    assert forall m :: 0 <= m < a ==> s[m] == w1[m];
    WordEndAt(s, 0, a);
    LowerKeepsWordChar(s[a + 1]);
    NoRepetitionBefore(s, 0, a);
    forall p | 0 < p <= a ensures DuplicateEnd(s, p).None? {
      assert WordAt(s, p - 1) || !WordAt(s, p);
    }
  }

  /** How `w1 w2 w2 w3 w3` is laid out: the doubled words start at i2 and i3. */
  predicate DoubledLayout(s: string, w1: string, w2: string, w3: string) {
    var i2 := |w1| + 1;
    var i3 := i2 + 2 * |w2| + 1 + 1;
    |s| == i3 + 2 * |w3| + 1
    && s[..|w1|] == w1 && s[|w1|] == ' '
    && s[i2..i2 + |w2|] == w2 && s[i2 + |w2|] == ' ' && s[i2 + |w2| + 1..i2 + 2 * |w2| + 1] == w2
    && s[i2 + 2 * |w2| + 1] == ' '
    && s[i3..i3 + |w3|] == w3 && s[i3 + |w3|] == ' ' && s[i3 + |w3| + 1..i3 + 2 * |w3| + 1] == w3
  }

  lemma DoubledLayoutOf(w1: string, w2: string, w3: string)
    ensures DoubledLayout(w1 + " " + w2 + " " + w2 + " " + w3 + " " + w3, w1, w2, w3)
  {
    var u := w1 + " " + w2 + " " + w2;
    var v := " " + w3 + " " + w3;
    var s := u + v;
    assert s == w1 + " " + w2 + " " + w2 + " " + w3 + " " + w3;
    assert s[..|u|] == u && s[|u|..] == v;
    FirstWordsLayout(w1, w2);
    LastWordsLayout(w3);
  }

  lemma FirstWordsLayout(w1: string, w2: string)
    ensures var u, a, b := w1 + " " + w2 + " " + w2, |w1|, |w2|;
      u[..a] == w1 && u[a] == ' ' && u[a + 1..a + b + 1] == w2
      && u[a + b + 1] == ' ' && u[a + b + 2..] == w2
  {
  }

  lemma LastWordsLayout(w3: string)
    ensures var v, c := " " + w3 + " " + w3, |w3|;
      v[0] == ' ' && v[1..c + 1] == w3 && v[c + 1] == ' ' && v[c + 2..] == w3
  {
  }

  /** Two doubled words after a first word: each doubled word is kept once. */
  lemma CollapseDoubledWords(w1: string, w2: string, w3: string)
    requires WordChars(w1) && WordChars(w2) && WordChars(w3)
    requires Lower(w2[0]) != Lower(w1[0])
    ensures CollapseDuplicates(w1 + " " + w2 + " " + w2 + " " + w3 + " " + w3)
              == w1 + " " + w2 + " " + w3
  {
    var s := w1 + " " + w2 + " " + w2 + " " + w3 + " " + w3;
    DoubledLayoutOf(w1, w2, w3);
    CollapseDoubled(s, w1, w2, w3);
  }

  lemma CollapseDoubled(s: string, w1: string, w2: string, w3: string)
    requires DoubledLayout(s, w1, w2, w3)
    requires WordChars(w1) && WordChars(w2) && WordChars(w3)
    requires Lower(w2[0]) != Lower(w1[0])
    ensures CollapseFrom(s, 0) == w1 + " " + w2 + " " + w3
  {
    var i2 := |w1| + 1;
    var q := i2 + 2 * |w2| + 1;
    var i3 := q + 1;
    DistinctStart(s, w1);
    RepeatedWordAt(s, i2, w2);
    assert !WordAt(s, q);
    RepeatedWordAt(s, i3, w3);
    var e2, e3 := i2 + |w2|, i3 + |w3|;
    CollapseStepsOfDoubled(s, i2, q, e2, e3);
    DoubledResult(s, w1, w2, w3, e2, q, e3);
  }

  /** The pass over a text with a first word, then a repetition from i2 to q, a space
      at q and a repetition from q + 1 to the end. */
  lemma CollapseStepsOfDoubled(s: string, i2: nat, q: nat, e2: nat, e3: nat)
    requires i2 <= e2 <= q < e3 <= |s| && NoRepetitionBetween(s, 0, i2)
    requires WordEnd(s, i2) == e2 && DuplicateEnd(s, i2) == Some(q)
    requires !WordAt(s, q)
    requires WordEnd(s, q + 1) == e3 && DuplicateEnd(s, q + 1) == Some(|s|)
    ensures CollapseFrom(s, 0) == s[0..e2] + ([s[q]] + s[q + 1..e3])
  {
    CollapseLastPair(s, q, e3);
    CollapseReplacesFirst(s, 0, i2);
  }

  /** A space, then a repetition to the end: the pass keeps the space and the word. */
  lemma NoRepetitionAtNonWord(s: string, q: nat)
    requires q <= |s| && !WordAt(s, q)
    ensures DuplicateEnd(s, q).None?
  {
  }

  lemma CollapseLastPair(s: string, q: nat, e3: nat)
    requires q < e3 <= |s| && !WordAt(s, q)
    requires WordEnd(s, q + 1) == e3 && DuplicateEnd(s, q + 1) == Some(|s|)
    ensures CollapseFrom(s, q) == [s[q]] + s[q + 1..e3]
  {
    NoRepetitionAtNonWord(s, q);
    calc {
      CollapseFrom(s, q);
    == { CollapseCopyOne(s, q); }
      [s[q]] + CollapseFrom(s, q + 1);
    == { CollapseJumpTo(s, q + 1, e3, |s|); }
      [s[q]] + (s[q + 1..e3] + CollapseFrom(s, |s|));
    == { assert CollapseFrom(s, |s|) == []; }
      [s[q]] + (s[q + 1..e3] + []);
    == { assert s[q + 1..e3] + [] == s[q + 1..e3]; }
      [s[q]] + s[q + 1..e3];
    }
  }

  lemma DoubledResult(s: string, w1: string, w2: string, w3: string, e2: nat, q: nat, e3: nat)
    requires DoubledLayout(s, w1, w2, w3)
    requires e2 == |w1| + 1 + |w2| && q == e2 + |w2| + 1 && e3 == q + 1 + |w3|
    ensures s[0..e2] + ([s[q]] + s[q + 1..e3]) == w1 + " " + w2 + " " + w3
  {
    var a := |w1|;
    assert s[0..a + 1 + |w2|] == s[..a] + [s[a]] + s[a + 1..a + 1 + |w2|];
  }

  /** The repeated-word example of the test suite. */
  lemma CollapseExample()
    ensures CollapseDuplicates("Pasien" + " " + "dengan" + " " + "dengan" + " " + "hipertensi" + " " + "hipertensi")
              == "Pasien" + " " + "dengan" + " " + "hipertensi"
  {
    CollapseDoubledWords("Pasien", "dengan", "hipertensi");
  }

  lemma NoSpaceBeforePunctConcat(a: string, b: string)
    requires NoSpaceBeforePunct(a) && NoSpaceBeforePunct(b)
    requires a == [] || b == [] || !IsSpace(a[|a| - 1]) || !IsClosingPunct(b[0])
    ensures NoSpaceBeforePunct(a + b)
  {
    forall i | 0 < i < |a + b| && IsClosingPunct((a + b)[i]) ensures !IsSpace((a + b)[i - 1]) {
      if i > |a| {
        assert (a + b)[i] == b[i - |a|] && (a + b)[i - 1] == b[i - |a| - 1];
      }
    }
  }

  /** The collapse never puts whitespace before punctuation: it only removes the
      whitespace and repetition after a word, so a new neighbour of anything is the last
      character of a word. */
  lemma {:induction false} CollapseKeepsNoSpaceBeforePunct(s: string, i: nat)
    requires i <= |s| && NoSpaceBeforePunct(s)
    ensures NoSpaceBeforePunct(CollapseFrom(s, i))
    decreases |s| - i
  {
    if i < |s| {
      var j := DuplicateEnd(s, i);
      if j.Some? {
        var e := WordEnd(s, i);
        var piece := s[i..e];
        CollapseKeepsNoSpaceBeforePunct(s, j.value);
        assert NoSpaceBeforePunct(piece) by {
          forall m | 0 < m < |piece| ensures !IsClosingPunct(piece[m]) {
            assert piece[m] == s[i + m];
          }
        }
        assert piece[|piece| - 1] == s[e - 1];
        NoSpaceBeforePunctConcat(piece, CollapseFrom(s, j.value));
      } else {
        CollapseKeepsNoSpaceBeforePunct(s, i + 1);
        var rest := CollapseFrom(s, i + 1);
        if rest != [] {
          assert rest[0] == s[i + 1];
        }
        NoSpaceBeforePunctConcat([s[i]], rest);
      }
    }
  }

  /** A word, whitespace and the same word again (ignoring case) collapse to the
      first word. */
  lemma CollapsePair(w: string, gap: string, w2: string)
    requires WordChars(w) && |gap| > 0 && AllSpace(gap)
    requires LowerStr(w2) == LowerStr(w)
    ensures CollapseDuplicates(w + gap + w2) == w
  {
    var s := w + gap + w2;
    PairRepetition(w, gap, w2);
    CollapseJumpTo(s, 0, |w|, |s|);
    assert s[0..|w|] == w;
  }

  lemma PairRepetition(w: string, gap: string, w2: string)
    requires WordChars(w) && |gap| > 0 && AllSpace(gap)
    requires LowerStr(w2) == LowerStr(w)
    ensures var s := w + gap + w2;
      WordEnd(s, 0) == |w| && DuplicateEnd(s, 0) == Some(|s|)
  {
    var s := w + gap + w2;
    var e, k := |w|, |w| + |gap|;
    assert |w2| == |w|;
    assert s[..e] == w && s[e..k] == gap && s[k..] == w2;
    PairWordEnd(s, w, gap);
    assert EqualIgnoringCase(s[k..|s|], s[0..e]) by {
      assert s[k..|s|] == w2 && s[0..e] == w;
      forall m | 0 <= m < |w| ensures Lower(w2[m]) == Lower(w[m]) {
        assert LowerStr(w2)[m] == LowerStr(w)[m];
      }
    }
    RepetitionFound(s, 0, k, |s|);
  }

  lemma PairWordEnd(s: string, w: string, gap: string)
    requires WordChars(w) && |gap| > 0 && AllSpace(gap)
    requires |w| + |gap| <= |s| && s[..|w|] == w && s[|w|..|w| + |gap|] == gap
    ensures WordEnd(s, 0) == |w| && AllSpace(s[|w|..|w| + |gap|])
  {
    assert forall m :: 0 <= m < |w| ==> s[m] == w[m];
    assert s[|w|] == gap[0];
    WordEndAt(s, 0, |w|);
  }

  /** One pass is not enough: `"a a a"` collapses to `"a a"`, and a second pass would
      collapse that to `"a"`, because the pass resumes after each replaced match. */
  lemma CollapseNotIdempotent()
    ensures CollapseDuplicates("a a a") == "a" + " a"
    ensures CollapseDuplicates("a" + " a") == "a"
  {
    CollapsePair("a", " ", "a");
    var s := "a a a";
    TripleFirstMatch(s);
    TripleTail(s);
    CollapseJumpTo(s, 0, 1, 3);
    assert s[0..1] == "a";
  }

  /** In `"a a a"` the first two words form a match, ending before the last space. */
  lemma TripleFirstMatch(s: string)
    requires s == "a a a"
    ensures WordEnd(s, 0) == 1 && DuplicateEnd(s, 0) == Some(3)
  {
    assert s[0..] == s;
    assert IsWordChar(s[0]) && !IsWordChar(s[1]);
    assert WordEnd(s, 0) == 1;
    assert s[1..] == " a a";
    assert LeadingSpaces(s[1..]) == 1;
    SpelledAtChars(s, s[0..1], 2);
    assert SpelledAt(s, s[0..1], 2);
  }

  /** After that match, the last word has no repetition left to pair with. */
  lemma TripleTail(s: string)
    requires s == "a a a"
    ensures CollapseFrom(s, 3) == " a"
  {
    assert DuplicateEnd(s, 3) == None;
    assert s[4..] == "a";
    assert WordEnd(s, 4) == 5;
    assert DuplicateEnd(s, 4) == None;
    assert CollapseFrom(s, 5) == [];
    assert CollapseFrom(s, 4) == [s[4]] + CollapseFrom(s, 5);
  }

  // ---------------------------------------------------------------------------
  // Capitalisation and the whole cleaner

  /** `str.capitalize()`: the first character upper-cased, the rest lower-cased. */
  function Capitalize(s: string): (r: string)
    ensures |r| == |s|
    ensures s != [] ==> r[0] == Upper(s[0])
    ensures forall i :: 1 <= i < |s| ==> r[i] == Lower(s[i])
  {
    if s == [] then [] else [Upper(s[0])] + LowerStr(s[1..])
  }

  /** `s.lower().capitalize()` when s is non-empty, s otherwise. */
  function Cased(s: string): (r: string)
    ensures |r| == |s|
  {
    if s != [] then Capitalize(LowerStr(s)) else s
  }

  /** The steps after the clause trim, shared by both cleaners: punctuation spacing,
      the repeated-word collapse, `lower().capitalize()` on a non-empty text, `strip()`. */
  function FinishSentence(t: string): string {
    Strip(Cased(CollapseDuplicates(JoinPunct(t))))
  }

  /** What `final_cleanup` returns for the text `ftfy.fix_text` produced. */
  function Clean(fixed: string): string {
    DelimitersNonEmpty();
    FinishSentence(TrimPasses(Delimiters, fixed))
  }

  /** Empty or whitespace-only text finishes as the empty string. */
  lemma FinishBlank(t: string)
    requires AllSpace(t)
    ensures FinishSentence(t) == []
  {
    assert NoSpaceBeforePunct(t);
    var p := JoinPunct(t);
    assert p == t;
    forall j | 0 <= j <= |p| ensures DuplicateEnd(p, j).None? {
    }
    CollapseWithoutRepetition(p, 0);
    assert p[0..] == p;
    var u := Cased(p);
    assert AllSpace(u) by {
      if p != [] {
        forall i | 0 <= i < |u| ensures IsSpace(u[i]) {
          assert LowerStr(p)[i] == Lower(p[i]);
        }
      }
    }
  }

  /** Empty or whitespace-only text cleans to the empty string (given that the encoding
      repair leaves such text alone). */
  lemma CleanBlank(fixed: string)
    requires AllSpace(fixed)
    ensures Clean(fixed) == []
  {
    var t := TrimPasses(Delimiters, fixed);
    assert AllSpace(t) by {
      forall i | 0 <= i < |t| ensures IsSpace(t[i]) { assert t[i] == fixed[i]; }
    }
    FinishBlank(t);
  }

  /** Case mapping leaves whitespace and punctuation alone. */
  lemma CaseKeepsClass(c: char)
    ensures IsSpace(Lower(c)) == IsSpace(c) && IsSpace(Upper(c)) == IsSpace(c)
    ensures IsClosingPunct(Lower(c)) == IsClosingPunct(c) && IsClosingPunct(Upper(c)) == IsClosingPunct(c)
  {
  }

  lemma CasedKeepsNoSpaceBeforePunct(s: string)
    requires NoSpaceBeforePunct(s)
    ensures NoSpaceBeforePunct(Cased(s))
  {
    var u := Cased(s);
    if s != [] {
      forall i | 0 <= i < |s| ensures IsSpace(u[i]) == IsSpace(s[i]) && IsClosingPunct(u[i]) == IsClosingPunct(s[i]) {
        CaseKeepsClass(s[i]);
        CaseKeepsClass(Lower(s[i]));
        assert LowerStr(s)[i] == Lower(s[i]);
      }
    }
  }

  lemma StripKeepsNoSpaceBeforePunct(s: string)
    requires NoSpaceBeforePunct(s)
    ensures NoSpaceBeforePunct(Strip(s))
  {
    var r := Strip(s);
    var n := LeadingSpaces(s);
    forall i | 0 < i < |r| && IsClosingPunct(r[i]) ensures !IsSpace(r[i - 1]) {
      assert r[i] == s[n + i] && r[i - 1] == s[n + i - 1];
    }
  }

  /** No whitespace at either end and none before `.`, `,`, `?` or `!`. */
  predicate Tidy(r: string) {
    (r == [] || (!IsSpace(r[0]) && !IsSpace(r[|r| - 1]))) && NoSpaceBeforePunct(r)
  }

  /** The finished text has no edge whitespace and no whitespace before `.`, `,`, `?`
      or `!`: the punctuation step removes it and no later step brings it back. */
  lemma FinishShape(t: string)
    ensures Tidy(FinishSentence(t))
  {
    var p := JoinPunct(t);
    var c := CollapseDuplicates(p);
    assert FinishSentence(t) == Strip(Cased(c));
    CollapseKeepsNoSpaceBeforePunct(p, 0);
    CasedKeepsNoSpaceBeforePunct(c);
    StripKeepsNoSpaceBeforePunct(Cased(c));
  }

  /** `strip()` of a text in which only the first character may be upper case: nothing
      after the first character is upper case, nothing at all when the text starts with
      whitespace, and the first character is kept when it is not whitespace. */
  lemma StripCasing(u: string)
    requires forall i :: 1 <= i < |u| ==> !IsUpper(u[i])
    ensures forall i :: 1 <= i < |Strip(u)| ==> !IsUpper(Strip(u)[i])
    ensures u != [] && IsSpace(u[0]) ==> forall i :: 0 <= i < |Strip(u)| ==> !IsUpper(Strip(u)[i])
    ensures u != [] && !IsSpace(u[0]) ==> Strip(u) != [] && Strip(u)[0] == u[0]
  {
    var r := Strip(u);
    var n := LeadingSpaces(u);
    forall i | 0 <= i < |r| && (1 <= i || 1 <= n) ensures !IsUpper(r[i]) {
      assert r[i] == u[n + i];
    }
    if u != [] && !IsSpace(u[0]) {
      assert n == 0;
      assert r[0] == u[0];
    }
  }

  /** After `lower().capitalize()` only the first character can be upper case. */
  lemma CasedCasing(c: string)
    ensures forall i :: 1 <= i < |Cased(c)| ==> !IsUpper(Cased(c)[i])
    ensures c != [] ==> Cased(c)[0] == Upper(Lower(c[0])) && IsSpace(Cased(c)[0]) == IsSpace(c[0])
  {
    var u := Cased(c);
    forall i | 1 <= i < |u| ensures !IsUpper(u[i]) {
      assert LowerStr(c)[i] == Lower(c[i]);
    }
    if c != [] {
      assert u[0] == Upper(Lower(c[0])) by { assert LowerStr(c)[0] == Lower(c[0]); }
      CaseKeepsClass(c[0]);
      CaseKeepsClass(Lower(c[0]));
    }
  }

  /** Casing: only the first character can be upper case after `lower().capitalize()`;
      `strip()` runs afterwards, so when that first character is whitespace the finished
      text has no upper-case letter at all, and otherwise it starts with the upper-cased
      first character. */
  lemma FinishCasing(t: string)
    ensures forall i :: 1 <= i < |FinishSentence(t)| ==> !IsUpper(FinishSentence(t)[i])
    ensures CollapseDuplicates(JoinPunct(t)) != [] && IsSpace(CollapseDuplicates(JoinPunct(t))[0]) ==>
              forall i :: 0 <= i < |FinishSentence(t)| ==> !IsUpper(FinishSentence(t)[i])
    ensures CollapseDuplicates(JoinPunct(t)) != [] && !IsSpace(CollapseDuplicates(JoinPunct(t))[0]) ==>
              FinishSentence(t)[0] == Upper(Lower(CollapseDuplicates(JoinPunct(t))[0]))
  {
    var c := CollapseDuplicates(JoinPunct(t));
    assert FinishSentence(t) == Strip(Cased(c));
    CasedCasing(c);
    StripCasing(Cased(c));
  }

  // ---------------------------------------------------------------------------
  // Worked examples

  /** A pass changes the text only where the delimiter occurs in it. */
  lemma TrimPassNeedsDelimiter(s: string, d: string)
    requires |d| > 0
    ensures CausalTrimPass(s, d) != s ==> Contains(s, d)
  {
    var r := CausalTrimPass(s, d);
    if r != s {
      assert OccursAt(s, d, |r|);
    }
  }

  /** Neither delimiter occurs: both passes leave the text as it is. */
  lemma TrimPassesWithoutDelimiters(s: string)
    requires !Contains(s, " dan ") && !Contains(s, ",")
    ensures TrimPasses(Delimiters, s) == s
  {
    TrimPassNeedsDelimiter(s, " dan ");
    TrimPassNeedsDelimiter(s, ",");
    assert Delimiters[1..] == [","] && Delimiters[1..][1..] == [];
  }

  /** A text lacking some character of d does not contain d. */
  lemma MissingChar(s: string, d: string, m: nat)
    requires m < |d| && forall i :: 0 <= i < |s| ==> s[i] != d[m]
    ensures !Contains(s, d)
  {
    forall j: nat ensures !OccursAt(s, d, j) {
      if j + |d| <= |s| {
        assert s[j..j + |d|][m] == s[j + m];
      }
    }
  }

  /** A word run followed by a non-whitespace character starts no repetition. */
  lemma NoRepetitionWithoutSpace(s: string, i: nat)
    requires i <= |s| && (WordEnd(s, i) == |s| || !IsSpace(s[WordEnd(s, i)]))
    ensures DuplicateEnd(s, i).None?
  {
    var e := WordEnd(s, i);
    assert e < |s| ==> s[e..][0] == s[e];
  }

  /** Whitespace then closing punctuation at the end of a text loses the whitespace. */
  lemma {:induction false} JoinPunctFinal(a: string, c: char)
    requires NoSpaceBeforePunct(a) && (a == [] || !IsSpace(a[|a| - 1])) && IsClosingPunct(c)
    ensures JoinPunct(a + " " + [c]) == a + [c]
    decreases |a|
  {
    var s := a + " " + [c];
    if a == [] {
      assert s == [' ', c];
      LeadingOneSpace(s);
      assert s[2..] == [];
    } else {
      NoSpaceBeforePunctTail(a);
      assert a[1..] == [] || !IsSpace(a[1..][|a[1..]| - 1]);
      JoinPunctFinal(a[1..], c);
      assert s[1..] == a[1..] + " " + [c];
      NoJoinAtStart(a, c);
      JoinPunctKeepsFirst(s);
      assert [a[0]] + (a[1..] + [c]) == a + [c];
    }
  }

  /** Where the whitespace run at the start of s is not followed by closing punctuation,
      the first character is kept. */
  lemma JoinPunctKeepsFirst(s: string)
    requires s != []
    requires !(0 < LeadingSpaces(s) < |s| && IsClosingPunct(s[LeadingSpaces(s)]))
    ensures JoinPunct(s) == [s[0]] + JoinPunct(s[1..])
  {
  }

  lemma NoJoinAtStart(a: string, c: char)
    requires a != [] && NoSpaceBeforePunct(a) && !IsSpace(a[|a| - 1])
    ensures var s := a + " " + [c];
      !(0 < LeadingSpaces(s) < |s| && IsClosingPunct(s[LeadingSpaces(s)]))
  {
    var s := a + " " + [c];
    var n := LeadingSpaces(s);
    assert s[|a| - 1] == a[|a| - 1];
    assert n < |a|;
    assert 0 < n ==> s[n] == a[n] && s[n - 1] == a[n - 1];
  }

  /** Lower-case letters only. */
  predicate LowerWord(w: string) {
    |w| > 0 && forall i :: 0 <= i < |w| ==> IsLower(w[i])
  }

  /** Two lower-case words with different first letters and closing punctuation have
      no repetition to collapse. */
  lemma CollapseOfTwoWords(w1: string, w2: string, c: char)
    requires LowerWord(w1) && LowerWord(w2) && w1[0] != w2[0] && IsClosingPunct(c)
    ensures CollapseDuplicates(w1 + " " + w2 + [c]) == w1 + " " + w2 + [c]
  {
    var p := w1 + " " + w2 + [c];
    var i2 := |w1| + 1;
    var e2 := i2 + |w2|;
    assert p[..|w1|] == w1 && p[|w1|] == ' ' && p[i2] == w2[0];
    DistinctStart(p, w1);
    assert forall m :: i2 <= m < e2 ==> p[m] == w2[m - i2];
    WordEndAt(p, i2, e2);
    NoRepetitionWithoutSpace(p, i2);
    forall q | i2 < q < |p| ensures DuplicateEnd(p, q).None? {
      assert WordAt(p, q - 1) || !WordAt(p, q);
    }
    CollapseWithoutRepetition(p, 0);
    assert p[0..] == p;
  }

  /** Lower-casing and capitalising text without capitals upper-cases its first
      character only. */
  lemma CasedOfLower(s: string)
    requires s != [] && forall i :: 0 <= i < |s| ==> !IsUpper(s[i])
    ensures Cased(s) == [Upper(s[0])] + s[1..]
  {
    assert LowerStr(s) == s;
    assert LowerStr(s)[1..] == s[1..];
  }

  /** Two lower-case words, a space and closing punctuation other than a comma: the
      space goes and the first letter is capitalised. */
  lemma CleanTwoWords(w1: string, w2: string, c: char)
    requires LowerWord(w1) && LowerWord(w2) && w1[0] != w2[0]
    requires c == '.' || c == '?' || c == '!'
    requires !Contains(w1 + " " + w2 + " " + [c], " dan ")
    ensures Clean(w1 + " " + w2 + " " + [c]) == [Upper(w1[0])] + w1[1..] + " " + w2 + [c]
  {
    var a := w1 + " " + w2;
    var s := a + " " + [c];
    assert s == w1 + " " + w2 + " " + [c];
    assert !Contains(s, ",") by {
      assert forall i :: 0 <= i < |s| ==> s[i] != ',';
      MissingChar(s, ",", 0);
    }
    TrimPassesWithoutDelimiters(s);
    FinishTwoWords(w1, w2, c);
  }

  lemma FinishTwoWords(w1: string, w2: string, c: char)
    requires LowerWord(w1) && LowerWord(w2) && w1[0] != w2[0]
    requires c == '.' || c == '?' || c == '!'
    ensures FinishSentence(w1 + " " + w2 + " " + [c]) == [Upper(w1[0])] + w1[1..] + " " + w2 + [c]
  {
    JoinTwoWords(w1, w2, c);
    CollapseOfTwoWords(w1, w2, c);
    CasedTwoWords(w1, w2, c);
    StripTwoWords(w1, w2, c);
    FinishOf(w1 + " " + w2 + " " + [c], w1 + " " + w2 + [c], [Upper(w1[0])] + w1[1..] + " " + w2 + [c]);
  }

  /** The four steps of `FinishSentence`, each leaving the text as given. */
  lemma FinishOf(t: string, p: string, u: string)
    requires JoinPunct(t) == p && CollapseDuplicates(p) == p && Cased(p) == u && Strip(u) == u
    ensures FinishSentence(t) == u
  {
  }

  lemma JoinTwoWords(w1: string, w2: string, c: char)
    requires LowerWord(w1) && LowerWord(w2) && IsClosingPunct(c)
    ensures JoinPunct(w1 + " " + w2 + " " + [c]) == w1 + " " + w2 + [c]
  {
    var a := w1 + " " + w2;
    assert NoSpaceBeforePunct(a) by {
      assert forall i :: 0 <= i < |a| ==> !IsClosingPunct(a[i]);
    }
    assert a + " " + [c] == w1 + " " + w2 + " " + [c];
    JoinPunctFinal(a, c);
  }

  lemma CasedTwoWords(w1: string, w2: string, c: char)
    requires LowerWord(w1) && LowerWord(w2) && IsClosingPunct(c)
    ensures Cased(w1 + " " + w2 + [c]) == [Upper(w1[0])] + w1[1..] + " " + w2 + [c]
  {
    var p := w1 + " " + w2 + [c];
    NoUpperOfTwoWords(w1, w2, c);
    CasedOfLower(p);
    assert p[1..] == w1[1..] + " " + w2 + [c] by {
      assert p == w1 + (" " + w2 + [c]);
      TailOfConcat(w1, " " + w2 + [c]);
    }
  }

  lemma NoUpperOfTwoWords(w1: string, w2: string, c: char)
    requires LowerWord(w1) && LowerWord(w2) && IsClosingPunct(c)
    ensures forall i :: 0 <= i < |w1 + " " + w2 + [c]| ==> !IsUpper((w1 + " " + w2 + [c])[i])
  {
  }

  lemma StripTwoWords(w1: string, w2: string, c: char)
    requires LowerWord(w1) && IsClosingPunct(c)
    ensures Strip([Upper(w1[0])] + w1[1..] + " " + w2 + [c]) == [Upper(w1[0])] + w1[1..] + " " + w2 + [c]
  {
    var u := [Upper(w1[0])] + w1[1..] + " " + w2 + [c];
    UpperOfLower(w1[0]);
    assert u[0] == Upper(w1[0]);
    assert u[|u| - 1] == c;
    StripNoEdges(u);
  }

  lemma TailOfConcat(x: string, y: string)
    requires x != []
    ensures (x + y)[1..] == x[1..] + y
  {
  }

  lemma UpperOfLower(c: char)
    requires IsLower(c)
    ensures IsUpper(Upper(c)) && !IsSpace(Upper(c))
  {
  }

  /** `final_cleanup("pasien sakit .")` is `"Pasien sakit."`. */
  lemma CleanExample()
    ensures Clean("pasien" + " " + "sakit" + " " + ".") == "Pasien" + " " + "sakit" + "."
  {
    var s := "pasien" + " " + "sakit" + " " + ".";
    assert forall i :: 0 <= i < |s| ==> s[i] != 'd';
    MissingChar(s, " dan ", 1);
    CleanTwoWords("pasien", "sakit", '.');
    assert Upper('p') == 'P';
    assert "pasien"[1..] == "asien";
    CapitalP();
  }

  lemma CapitalP()
    ensures ['P'] + "asien" == "Pasien"
  {
  }

  /** `final_cleanup(sentence)`, given the function `ftfy.fix_text` stands for. */
  method FinalCleanup(sentence: string, fixText: string -> string) returns (cleanedSentence: string)
    ensures cleanedSentence == Clean(fixText(sentence))
  {
    cleanedSentence := fixText(sentence);
    ghost var fixed := cleanedSentence;
    DelimitersNonEmpty();
    for i := 0 to |Delimiters|
      invariant TrimPasses(Delimiters[i..], cleanedSentence) == TrimPasses(Delimiters, fixed)
    {
      var delimiter := Delimiters[i];
      assert Delimiters[i..][1..] == Delimiters[i + 1..];
      var parts := Split(cleanedSentence, delimiter);
      if |parts| > 1 {
        var lastPart := LowerStr(parts[|parts| - 1]);
        var previousPart := LowerStr(parts[|parts| - 2]);
        var normalizedLast := NormalizeLast(lastPart);
        if normalizedLast != [] && Contains(previousPart, normalizedLast) {
          cleanedSentence := Join(parts[..|parts| - 1], delimiter);
        }
      }
    }
    ghost var trimmed := cleanedSentence;
    assert trimmed == TrimPasses(Delimiters, fixed);
    cleanedSentence := JoinPunct(cleanedSentence);
    cleanedSentence := CollapseDuplicates(cleanedSentence);
    if cleanedSentence != [] {
      cleanedSentence := Capitalize(LowerStr(cleanedSentence));
    }
    cleanedSentence := Strip(cleanedSentence);
    assert cleanedSentence == FinishSentence(trimmed);
  }
}
