/** Dictionary post-processing: the substitution of complex terms by their
    simplified forms, detection of the terms a text contains (the gate before the
    language model runs) and the reconciliation map reported with the result. */
module PostProcessor {
  import opened Text
  import opened TermMatcher

  /** One row of the dictionary: a complex term and its simplified form. */
  datatype Entry = Entry(term: string, simplified: string)

  /** The dictionary in its iteration (insertion) order. */
  type Dictionary = seq<Entry>

  /** Keys of a dictionary are unique. */
  predicate UniqueTerms(d: Dictionary) {
    forall i, j :: 0 <= i < j < |d| ==> d[i].term != d[j].term
  }

  /** Every entry can be handed to `re.sub`: a non-empty key, and a value without
      backslashes, so that the replacement is inserted verbatim. */
  predicate Substitutable(d: Dictionary) {
    forall i :: 0 <= i < |d| ==> |d[i].term| > 0 && '\\' !in d[i].simplified
  }

  predicate ValidDictionary(d: Dictionary) {
    UniqueTerms(d) && Substitutable(d)
  }

  /** The keys, in dictionary order. */
  function Terms(d: Dictionary): (ts: seq<string>)
    ensures |ts| == |d| && forall i :: 0 <= i < |d| ==> ts[i] == d[i].term
  {
    seq(|d|, i requires 0 <= i < |d| => d[i].term)
  }

  // ---------------------------------------------------------------------------
  // Substitution

  /** The entries applied one after another, each to the output of the previous one. */
  function Substitute(d: Dictionary, text: string): string
    requires Substitutable(d)
    decreases |d|
  {
    if d == [] then text
    else Substitute(d[1..], Sub(text, d[0].term, d[0].simplified))
  }

  /** Applying a dictionary split in two is applying the first part, then the second
      to its output: a later entry sees (and may rewrite) an earlier entry's output. */
  lemma {:induction false} SubstituteAppend(d1: Dictionary, d2: Dictionary, text: string)
    requires Substitutable(d1) && Substitutable(d2)
    ensures Substitutable(d1 + d2)
    ensures Substitute(d1 + d2, text) == Substitute(d2, Substitute(d1, text))
    decreases |d1|
  {
    assert forall i :: 0 <= i < |d1 + d2| ==> (d1 + d2)[i] == if i < |d1| then d1[i] else d2[i - |d1|];
    if d1 == [] {
      assert d1 + d2 == d2;
    } else {
      assert (d1 + d2)[0] == d1[0];
      assert (d1 + d2)[1..] == d1[1..] + d2;
      SubstituteAppend(d1[1..], d2, Sub(text, d1[0].term, d1[0].simplified));
    }
  }

  /** When no key matches as a whole word, the text comes back unchanged. */
  lemma {:induction false} SubstituteWithoutMatches(d: Dictionary, text: string)
    requires Substitutable(d)
    requires forall i :: 0 <= i < |d| ==> !Matches(text, d[i].term)
    ensures Substitute(d, text) == text
    decreases |d|
  {
    if d != [] {
      SubWithoutMatch(text, d[0].term, d[0].simplified);
      SubstituteWithoutMatches(d[1..], text);
    }
  }

  /** A cascade: an entry whose replacement is the key of a later entry is rewritten
      again by that later entry. */
  lemma Cascade(first: Entry, second: Entry)
    requires first.simplified == second.term
    requires |first.term| > 0 && |second.term| > 0
    requires '\\' !in first.simplified && '\\' !in second.simplified
    requires IsWordChar(first.term[0]) && IsWordChar(first.term[|first.term| - 1])
    requires IsWordChar(second.term[0]) && IsWordChar(second.term[|second.term| - 1])
    ensures Substitute([first, second], first.term) == second.simplified
  {
    var d := [first, second];
    assert Substitutable(d);
    SubWholeTerm(first.term, first.simplified);
    SubWholeTerm(second.term, second.simplified);
    assert d[1..] == [second] && [second][1..] == [];
    assert Substitutable([second]);
    assert Substitute(d, first.term) == Substitute([second], Sub(first.term, first.term, first.simplified));
    assert Substitute([second], second.term) == Substitute([], Sub(second.term, second.term, second.simplified));
  }

  /** Matching ignores case and the value is inserted as it is written: an upper-case
      occurrence of "hipertensi" becomes "tekanan darah tinggi". */
  lemma UpperCaseTermReplaced()
    ensures Substitute([Entry("hipertensi", "tekanan darah tinggi")], "Pasien dengan HIPERTENSI")
         == "Pasien dengan " + "tekanan darah tinggi"
  {
    var s, t, v := "Pasien dengan HIPERTENSI", "hipertensi", "tekanan darah tinggi";
    var d := [Entry(t, v)];
    SubstituteOne(d, s);
    UpperCaseSub(s, t, v);
  }

  /** A one-entry dictionary is a single `re.sub`. */
  lemma SubstituteOne(d: Dictionary, text: string)
    requires |d| == 1 && Substitutable(d)
    ensures Substitute(d, text) == Sub(text, d[0].term, d[0].simplified)
  {
    assert d[1..] == [];
  }

  /** The one `re.sub` of that entry: the match at 14 is replaced, nothing follows it. */
  lemma UpperCaseSub(s: string, t: string, v: string)
    requires s == "Pasien dengan HIPERTENSI" && t == "hipertensi" && v == "tekanan darah tinggi"
    ensures Sub(s, t, v) == "Pasien dengan " + v
  {
    UpperCaseTermFound();
    SubFromMatch(s, t, v, 0, 14);
    SubFromNoMatch(s, t, v, 24);
    assert s[24..] == [];
    assert s[0..14] == "Pasien dengan ";
  }

  lemma UpperCaseTermFound()
    ensures Search("Pasien dengan HIPERTENSI", "hipertensi", 0) == Some(14)
    ensures Search("Pasien dengan HIPERTENSI", "hipertensi", 24) == None
  {
    var s, t := "Pasien dengan HIPERTENSI", "hipertensi";
    UpperCaseTermAt(s, t);
    NoTermBefore(s, t);
    SearchFindsFirst(s, t, 0, 14);
  }

  /** The upper-case spelling at position 14 is a whole-word match. */
  lemma UpperCaseTermAt(s: string, t: string)
    requires s == "Pasien dengan HIPERTENSI" && t == "hipertensi"
    ensures MatchAt(s, t, 14)
  {
    assert SpelledAt(s, t, 14) by {
      SpelledAtChars(s, t, 14);
      assert forall m :: 0 <= m < |t| ==> Lower(s[14 + m]) == Lower(t[m]);
    }
  }

  /** No position before 14 starts with an `h` in either case. */
  lemma NoTermBefore(s: string, t: string)
    requires s == "Pasien dengan HIPERTENSI" && t == "hipertensi"
    ensures forall j :: 0 <= j < 14 ==> !MatchAt(s, t, j)
  {
    assert s[..14] == "Pasien dengan ";
    assert forall c :: c in "Pasien dengan " ==> c != 'h' && c != 'H';
    forall j | 0 <= j < 14 ensures !MatchAt(s, t, j) {
      assert s[j] in s[..14];
      assert Lower(s[j]) != Lower(t[0]);
    }
  }

  /** `DictionaryPostProcessor`: the dictionary is loaded once and only read afterwards. */
  class DictionaryPostProcessor {
    const dictionary: Dictionary

    predicate Valid() {
      ValidDictionary(dictionary)
    }

    constructor (dictionary: Dictionary)
      requires ValidDictionary(dictionary)
      ensures Valid() && this.dictionary == dictionary
    {
      this.dictionary := dictionary;
    }

    /** `post_process`: the identity on an empty dictionary, otherwise every entry in
        order, each as a whole-word, case-insensitive `re.sub` on the running result. */
    method PostProcess(text: string) returns (result: string)
      requires Valid()
      ensures result == Substitute(dictionary, text)
      ensures dictionary == [] ==> result == text
    {
      if dictionary == [] {
        return text;
      }
      result := text;
      for i := 0 to |dictionary|
        invariant Substitute(dictionary[i..], result) == Substitute(dictionary, text)
      {
        var entry := dictionary[i];
        assert dictionary[i..][1..] == dictionary[i + 1..];
        result := Sub(result, entry.term, entry.simplified);
      }
    }
  }

  // ---------------------------------------------------------------------------
  // Detection

  /** The keys found whole-word, ignoring case, in the text, in dictionary order. */
  function Recognized(d: Dictionary, text: string): (r: seq<string>)
    ensures forall t :: t in r <==> t in Terms(d) && Matches(text, t)
    decreases |d|
  {
    if d == [] then []
    else
      var last := d[|d| - 1];
      var r := Recognized(d[..|d| - 1], text);
      assert Terms(d) == Terms(d[..|d| - 1]) + [last.term];
      r + (if Matches(text, last.term) then [last.term] else [])
  }

  /** Position of the first entry with key t. */
  function TermIndex(d: Dictionary, t: string): (k: nat)
    requires t in Terms(d)
    ensures k < |d| && d[k].term == t
    ensures forall j :: 0 <= j < k ==> d[j].term != t
  {
    if d[0].term == t then 0
    else
      var i :| 0 <= i < |d| && Terms(d)[i] == t;
      assert Terms(d[1..])[i - 1] == t;
      var k := TermIndex(d[1..], t);
      assert d[1 + k] == d[1..][k];
      1 + k
  }

  lemma {:induction false} TermIndexInPrefix(d: Dictionary, n: nat, t: string)
    requires n <= |d| && t in Terms(d[..n])
    ensures t in Terms(d) && TermIndex(d[..n], t) == TermIndex(d, t)
  {
    var k := TermIndex(d[..n], t);
    assert d[k].term == t;
    assert Terms(d)[k] == t;
    var k' := TermIndex(d, t);
    assert !(k' < k);
  }

  /** The recognised keys come in strictly increasing dictionary position, so without
      repetitions, when the keys are unique. */
  lemma {:induction false} RecognizedInOrder(d: Dictionary, text: string)
    requires UniqueTerms(d)
    ensures forall a, b :: 0 <= a < b < |Recognized(d, text)| ==>
              TermIndex(d, Recognized(d, text)[a]) < TermIndex(d, Recognized(d, text)[b])
    decreases |d|
  {
    if d != [] {
      var n := |d| - 1;
      var r0 := Recognized(d[..n], text);
      var r := Recognized(d, text);
      assert r == r0 + (if Matches(text, d[n].term) then [d[n].term] else []);
      RecognizedInOrder(d[..n], text);
      assert forall i :: 0 <= i < |r0| ==> r0[i] in r0;
      forall a, b | 0 <= a < b < |r| ensures TermIndex(d, r[a]) < TermIndex(d, r[b]) {
        InOrderStep(d, r0, r, a, b);
      }
    }
  }

  /** The inductive step: appending the last key to an ordered list of earlier keys. */
  lemma InOrderStep(d: Dictionary, r0: seq<string>, r: seq<string>, a: nat, b: nat)
    requires |d| > 0 && UniqueTerms(d)
    requires forall i :: 0 <= i < |r0| ==> r0[i] in Terms(d[..|d| - 1])
    requires forall i, j :: 0 <= i < j < |r0| ==> TermIndex(d[..|d| - 1], r0[i]) < TermIndex(d[..|d| - 1], r0[j])
    requires r == r0 || r == r0 + [d[|d| - 1].term]
    requires a < b < |r|
    ensures r[a] in Terms(d) && r[b] in Terms(d) && TermIndex(d, r[a]) < TermIndex(d, r[b])
  {
    var n := |d| - 1;
    if |r| == |r0| {
      assert r == r0;
      TermIndexInPrefix(d, n, r0[a]);
      TermIndexInPrefix(d, n, r0[b]);
    } else {
      assert r == r0 + [d[n].term];
      assert r[a] == r0[a];
      TermIndexInPrefix(d, n, r0[a]);
      if b < |r0| {
        assert r[b] == r0[b];
        TermIndexInPrefix(d, n, r0[b]);
      } else {
        assert r[b] == d[n].term;
        LastTermIndex(d);
      }
    }
  }

  /** With unique keys, the last key is first found at the last position. */
  lemma LastTermIndex(d: Dictionary)
    requires |d| > 0 && UniqueTerms(d)
    ensures d[|d| - 1].term in Terms(d) && TermIndex(d, d[|d| - 1].term) == |d| - 1
  {
    var n := |d| - 1;
    assert Terms(d)[n] == d[n].term;
    var k := TermIndex(d, d[n].term);
    assert d[k].term == d[n].term;
  }

  /** `detect_recognized_terms`: the keys that match the text. */
  method DetectRecognizedTerms(text: string, dictionary: Dictionary) returns (recognized: seq<string>)
    ensures recognized == Recognized(dictionary, text)
  {
    recognized := [];
    for i := 0 to |dictionary|
      invariant recognized == Recognized(dictionary[..i], text)
    {
      var term := dictionary[i].term;
      assert dictionary[..i + 1][..i] == dictionary[..i];
      if Matches(text, term) {
        recognized := recognized + [term];
      }
    }
    assert dictionary[..|dictionary|] == dictionary;
  }

  // ---------------------------------------------------------------------------
  // Reconciliation

  /** An entry counts as simplified when its key occurs in the original text and either
      its replacement occurs in the simplified text or the key no longer does. */
  predicate Simplified(text: string, simplifiedText: string, e: Entry) {
    Matches(text, e.term) && (Matches(simplifiedText, e.simplified) || !Matches(simplifiedText, e.term))
  }

  /** The map `get_simplification_mapping` builds, over the first entries first. */
  function Mapping(d: Dictionary, text: string, simplifiedText: string): (m: map<string, string>)
    ensures forall t :: t in m ==>
              exists i :: 0 <= i < |d| && d[i].term == t && d[i].simplified == m[t] && Simplified(text, simplifiedText, d[i])
    ensures forall i :: 0 <= i < |d| && Simplified(text, simplifiedText, d[i]) ==> d[i].term in m
    decreases |d|
  {
    if d == [] then map[]
    else
      var m := Mapping(d[..|d| - 1], text, simplifiedText);
      var e := d[|d| - 1];
      if Simplified(text, simplifiedText, e) then m[e.term := e.simplified] else m
  }

  /** With unique keys the map is exactly the simplified entries: a sub-map of the
      dictionary, keyed by the entries for which the two-branch condition holds. */
  lemma MappingExact(d: Dictionary, text: string, simplifiedText: string)
    requires UniqueTerms(d)
    ensures var m := Mapping(d, text, simplifiedText);
      forall i :: 0 <= i < |d| ==>
        (d[i].term in m <==> Simplified(text, simplifiedText, d[i])) &&
        (d[i].term in m ==> m[d[i].term] == d[i].simplified)
  {
  }

  /** Every mapped key was recognised in the original text. */
  lemma MappingWithinRecognized(d: Dictionary, text: string, simplifiedText: string)
    ensures forall t :: t in Mapping(d, text, simplifiedText) ==> t in Recognized(d, text)
  {
    var m := Mapping(d, text, simplifiedText);
    forall t | t in m ensures t in Recognized(d, text) {
      var i :| 0 <= i < |d| && d[i].term == t && Simplified(text, simplifiedText, d[i]);
      assert Terms(d)[i] == t;
    }
  }

  /** `get_simplification_mapping` */
  method GetSimplificationMapping(text: string, simplifiedText: string, dictionary: Dictionary)
    returns (simplificationMap: map<string, string>)
    ensures simplificationMap == Mapping(dictionary, text, simplifiedText)
  {
    simplificationMap := map[];
    for i := 0 to |dictionary|
      invariant simplificationMap == Mapping(dictionary[..i], text, simplifiedText)
    {
      var term, replacement := dictionary[i].term, dictionary[i].simplified;
      assert dictionary[..i + 1][..i] == dictionary[..i];
      if Matches(text, term) {
        if Matches(simplifiedText, replacement) {
          simplificationMap := simplificationMap[term := replacement];
        } else if !Matches(simplifiedText, term) {
          simplificationMap := simplificationMap[term := replacement];
        }
      }
    }
    assert dictionary[..|dictionary|] == dictionary;
  }
}
