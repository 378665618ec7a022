/** The older single-file application (app.py): its own artifact cleaner, which trims
    a trailing phrase echoed earlier in the sentence instead of a causal clause, its own
    copy of the dictionary post-processor, and the `is_medical` check of the
    validate-text route, which looks for any dictionary key or value in the input. */
module LegacyApp {
  import opened Text
  import opened TermMatcher
  import PostProcessor
  import TextCleaner

  /** The phrase lengths tried, in order: `(4, 3, 2)`. */
  const EchoLengths: seq<nat> := [4, 3, 2]

  /** The last n words, joined by single spaces, occur (case-sensitively, anywhere) in the
      other words joined by single spaces. */
  predicate EchoAt(words: seq<string>, n: nat)
    requires n <= |words|
  {
    Contains(JoinWords(words[..|words| - n]), JoinWords(words[|words| - n..]))
  }

  /** Index of the first length in `lengths` at which the words end in an echo. */
  function FirstEcho(words: seq<string>, lengths: seq<nat>, from: nat): (r: Option<nat>)
    requires from <= |lengths|
    requires forall i :: 0 <= i < |lengths| ==> lengths[i] <= |words|
    ensures r.Some? ==> from <= r.value < |lengths| && EchoAt(words, lengths[r.value])
    ensures r.Some? ==> forall j :: from <= j < r.value ==> !EchoAt(words, lengths[j])
    ensures r.None? ==> forall j :: from <= j < |lengths| ==> !EchoAt(words, lengths[j])
    decreases |lengths| - from
  {
    if from == |lengths| then None
    else if EchoAt(words, lengths[from]) then Some(from)
    else FirstEcho(words, lengths, from + 1)
  }

  /** How many trailing words the echo trim removes: with at least seven words, the
      first length of 4, 3, 2 whose last words echo earlier text; 0 when nothing is
      removed. */
  function EchoCut(words: seq<string>): (n: nat)
    ensures n == 0 || (|words| >= 7 && 2 <= n <= 4)
  {
    if |words| < 7 then 0
    else
      var r := FirstEcho(words, EchoLengths, 0);
      if r.Some? then EchoLengths[r.value] else 0
  }

  /** The echo trim of the legacy `final_cleanup`: the words left after the cut, joined
      by single spaces and stripped; without a cut the text is unchanged, spacing
      included. */
  function TrimEcho(s: string): string {
    CutWords(s, Words(s), EchoCut(Words(s)))
  }

  /** `s` itself when nothing is cut, otherwise the words before the last n, joined by
      single spaces and stripped. */
  function CutWords(s: string, words: seq<string>, n: nat): string
    requires n <= |words|
  {
    if n == 0 then s else Strip(JoinWords(words[..|words| - n]))
  }

  /** Fewer than seven words: the text is left exactly as it is. */
  lemma ShortTextKept(s: string)
    requires |Words(s)| < 7
    ensures TrimEcho(s) == s
  {
  }

  /** A cut of N leaves exactly the words before the last N, single-spaced; no cut
      leaves the text as it was. */
  lemma TrimEchoWords(s: string)
    ensures EchoCut(Words(s)) > 0 ==> Words(TrimEcho(s)) == Words(s)[..|Words(s)| - EchoCut(Words(s))]
    ensures EchoCut(Words(s)) == 0 ==> TrimEcho(s) == s
  {
    var words := Words(s);
    var n := EchoCut(words);
    assert n <= |words|;
    if n > 0 {
      var kept := words[..|words| - n];
      TrimEchoByCut(s, words, n);
      WordsOfStrippedJoin(kept);
      var t := TrimEcho(s);
      assert Words(t) == kept;
    } else {
      TrimEchoNoCut(s, words);
    }
  }

  lemma WordsOfStrippedJoin(kept: seq<string>)
    requires forall i :: 0 <= i < |kept| ==> IsWord(kept[i])
    ensures Words(Strip(JoinWords(kept))) == kept
  {
    JoinWordsEdges(kept);
    StripNoEdges(JoinWords(kept));
    WordsOfJoinWords(kept);
  }

  /** None of the first i lengths of 4, 3, 2 echoes. */
  predicate NoEchoBefore(words: seq<string>, i: nat)
    requires |words| >= 7 && i <= |EchoLengths|
  {
    forall j :: 0 <= j < i ==> !EchoAt(words, EchoLengths[j])
  }

  /** One more length that does not echo. */
  lemma NoEchoStep(words: seq<string>, i: nat)
    requires |words| >= 7 && i < |EchoLengths| && NoEchoBefore(words, i)
    requires !EchoAt(words, EchoLengths[i])
    ensures NoEchoBefore(words, i + 1)
  {
  }

  /** The trim when the i-th length of 4, 3, 2 is the first that echoes. */
  lemma EchoTrimmed(s: string, words: seq<string>, i: nat, n: nat, r: string)
    requires words == Words(s) && |words| >= 7 && i < |EchoLengths| && n == EchoLengths[i]
    requires NoEchoBefore(words, i)
    requires EchoAt(words, n)
    requires r == Strip(JoinWords(words[..|words| - n]))
    ensures r == TrimEcho(s)
  {
    EchoFound(words, i);
    TrimEchoByCut(s, words, n);
  }

  /** The trim in terms of a nonzero cut. */
  lemma TrimEchoByCut(s: string, words: seq<string>, n: nat)
    requires words == Words(s) && n == EchoCut(words) && n > 0
    ensures TrimEcho(s) == Strip(JoinWords(words[..|words| - n]))
  {
    assert 2 <= n <= 4 && |words| >= 7;
    assert n <= |words|;
    var t := TrimEcho(s);
    assert t == CutWords(s, words, n);
    CutSome(s, words, n);
  }

  lemma CutSome(s: string, words: seq<string>, n: nat)
    requires 0 < n <= |words|
    ensures CutWords(s, words, n) == Strip(JoinWords(words[..|words| - n]))
  {
  }

  /** The trim when the text is short or no length echoes. */
  lemma NothingTrimmed(s: string, words: seq<string>)
    requires words == Words(s)
    requires |words| < 7 || NoEchoBefore(words, |EchoLengths|)
    ensures TrimEcho(s) == s
  {
    if |words| >= 7 {
      NoEchoFound(words);
    }
    TrimEchoNoCut(s, words);
  }

  /** The trim without a cut. */
  lemma TrimEchoNoCut(s: string, words: seq<string>)
    requires words == Words(s) && EchoCut(words) == 0
    ensures TrimEcho(s) == s
  {
    var t := TrimEcho(s);
    assert t == CutWords(s, words, 0);
    CutNone(s, words);
  }

  lemma CutNone(s: string, words: seq<string>)
    ensures CutWords(s, words, 0) == s
  {
  }

  /** The first echoing length in the order 4, 3, 2 is the cut. */
  lemma EchoFound(words: seq<string>, i: nat)
    requires |words| >= 7 && i < |EchoLengths|
    requires forall j :: 0 <= j < i ==> !EchoAt(words, EchoLengths[j])
    requires EchoAt(words, EchoLengths[i])
    ensures EchoCut(words) == EchoLengths[i]
  {
    FirstEchoAt(words, EchoLengths, i);
  }

  /** The search returns the first echoing length. */
  lemma FirstEchoAt(words: seq<string>, lengths: seq<nat>, i: nat)
    requires i < |lengths| && forall j :: 0 <= j < |lengths| ==> lengths[j] <= |words|
    requires forall j :: 0 <= j < i ==> !EchoAt(words, lengths[j])
    requires EchoAt(words, lengths[i])
    ensures FirstEcho(words, lengths, 0) == Some(i)
  {
  }

  /** No echoing length: no cut. */
  lemma NoEchoFound(words: seq<string>)
    requires forall j :: 0 <= j < |EchoLengths| ==> EchoLengths[j] <= |words| && !EchoAt(words, EchoLengths[j])
    ensures EchoCut(words) == 0
  {
  }

  /** What the legacy `final_cleanup` returns for the text `ftfy.fix_text` produced. */
  function LegacyClean(fixed: string): string {
    TextCleaner.FinishSentence(TrimEcho(fixed))
  }

  /** The legacy cleaner's output has no edge whitespace and no whitespace before `.`,
      `,`, `?` or `!`. */
  lemma LegacyCleanShape(fixed: string)
    ensures TextCleaner.Tidy(LegacyClean(fixed))
  {
    TextCleaner.FinishShape(TrimEcho(fixed));
  }

  /** Empty or whitespace-only text cleans to the empty string. */
  lemma LegacyCleanBlank(fixed: string)
    requires AllSpace(fixed)
    ensures LegacyClean(fixed) == []
  {
    assert Words(fixed) == [] by {
      assert LeadingSpaces(fixed) == |fixed|;
    }
    TextCleaner.FinishBlank(fixed);
  }

  /** The echo trim of the legacy `final_cleanup`: with at least seven words, the
      lengths 4, 3, 2 are tried in turn and the first whose trailing phrase occurs in the
      rest cuts the text to that rest, stripped. */
  method TrimTrailingEcho(text: string) returns (trimmed: string)
    ensures trimmed == TrimEcho(text)
  {
    trimmed := text;
    var words := Words(text);
    if |words| < 7 {
      NothingTrimmed(text, words);
      return;
    }
    var lengths := EchoLengths;
    for i := 0 to |lengths|
      invariant trimmed == text && lengths == EchoLengths
      invariant NoEchoBefore(words, i)
    {
      var length := lengths[i];
      var endPhrase := JoinWords(words[|words| - length..]);
      var mainPart := JoinWords(words[..|words| - length]);
      if Contains(mainPart, endPhrase) {
        trimmed := Strip(mainPart);
        assert EchoAt(words, length);
        EchoTrimmed(text, words, i, length, trimmed);
        return;
      }
      NoEchoStep(words, i);
    }
    NothingTrimmed(text, words);
  }

  /** The legacy `final_cleanup(sentence)`, given the function `ftfy.fix_text` stands for. */
  method FinalCleanup(sentence: string, fixText: string -> string) returns (cleanedSentence: string)
    ensures cleanedSentence == LegacyClean(fixText(sentence))
  {
    cleanedSentence := fixText(sentence);
    ghost var fixed := cleanedSentence;
    cleanedSentence := TrimTrailingEcho(cleanedSentence);
    ghost var trimmed := cleanedSentence;
    cleanedSentence := TextCleaner.JoinPunct(cleanedSentence);
    cleanedSentence := TextCleaner.CollapseDuplicates(cleanedSentence);
    if cleanedSentence != [] {
      cleanedSentence := TextCleaner.Capitalize(LowerStr(cleanedSentence));
    }
    cleanedSentence := Strip(cleanedSentence);
    assert cleanedSentence == TextCleaner.FinishSentence(trimmed);
  }

  /** The legacy `DictionaryPostProcessor` of app.py; the dictionary is loaded once and
      only read afterwards. */
  class DictionaryPostProcessor {
    const dictionary: PostProcessor.Dictionary

    predicate Valid() {
      PostProcessor.ValidDictionary(dictionary)
    }

    constructor (dictionary: PostProcessor.Dictionary)
      requires PostProcessor.ValidDictionary(dictionary)
      ensures Valid() && this.dictionary == dictionary
    {
      this.dictionary := dictionary;
    }

    /** `post_process`: the identity on an empty dictionary, otherwise the same ordered
        fold of whole-word, case-insensitive substitutions as the current version. */
    method PostProcess(text: string) returns (result: string)
      requires Valid()
      ensures result == PostProcessor.Substitute(dictionary, text)
      ensures dictionary == [] ==> result == text
    {
      if dictionary == [] {
        return text;
      }
      result := text;
      var i := 0;
      while i < |dictionary|
        invariant 0 <= i <= |dictionary|
        invariant PostProcessor.Substitute(dictionary[i..], result) == PostProcessor.Substitute(dictionary, text)
      {
        var term, replacement := dictionary[i].term, dictionary[i].simplified;
        assert dictionary[i..][1..] == dictionary[i + 1..];
        result := Sub(result, term, replacement);
        i := i + 1;
      }
    }
  }

  // ---------------------------------------------------------------------------
  // The `is_medical` check

  /** The dictionary's keys together with its values. */
  function Phrases(d: PostProcessor.Dictionary): (ps: set<string>)
    ensures forall i :: 0 <= i < |d| ==> d[i].term in ps && d[i].simplified in ps
    ensures forall p :: p in ps ==> exists i :: 0 <= i < |d| && (d[i].term == p || d[i].simplified == p)
  {
    (set i | 0 <= i < |d| :: d[i].term) + (set i | 0 <= i < |d| :: d[i].simplified)
  }

  /** The loop of the validate-text route: false for empty text, otherwise true exactly
      when some key or value of the dictionary matches whole-word, ignoring case.  The
      phrases are visited in an unspecified order; the `break` only decides which phrase
      is reported. */
  method IsMedical(textInput: string, dictionary: PostProcessor.Dictionary) returns (isMedical: bool)
    ensures isMedical <==> textInput != [] && exists p :: p in Phrases(dictionary) && Matches(textInput, p)
  {
    if textInput == [] {
      return false;
    }
    var allMedicalPhrases := Phrases(dictionary);
    isMedical := false;
    var remaining := allMedicalPhrases;
    while remaining != {}
      invariant remaining <= allMedicalPhrases
      invariant !isMedical
      invariant forall p :: p in allMedicalPhrases && p !in remaining ==> !Matches(textInput, p)
      decreases |remaining|
    {
      var term :| term in remaining;
      if Matches(textInput, term) {
        isMedical := true;
        break;
      }
      remaining := remaining - {term};
    }
  }

  /** No phrase matches the empty text. */
  lemma EmptyTextMatchesNothing(term: string)
    ensures !Matches([], term)
  {
    forall i: nat ensures !MatchAt([], term, i) {
      if SpelledAt([], term, i) {
        assert !Boundary([], i);
      }
    }
  }

  /** Any recognised key makes the text medical: the detection gate of the current
      version implies the check of the legacy one. */
  lemma RecognizedImpliesMedical(d: PostProcessor.Dictionary, text: string)
    requires PostProcessor.Recognized(d, text) != []
    ensures text != [] && exists p :: p in Phrases(d) && Matches(text, p)
  {
    var t := PostProcessor.Recognized(d, text)[0];
    assert t in PostProcessor.Recognized(d, text);
    var i :| 0 <= i < |d| && PostProcessor.Terms(d)[i] == t;
    assert d[i].term in Phrases(d);
    if text == [] {
      EmptyTextMatchesNothing(t);
    }
  }
}
