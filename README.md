# Medical text simplification: the post-model string pipeline

The application simplifies Indonesian medical text with a fine-tuned T5 model. It then
repairs the model's output with a deterministic pipeline, and that pipeline is what this
project models:

- **Term matcher.** Every core file uses one idiom to find a dictionary term: the regular
  expression `\b` + `re.escape(term)` + `\b`, searched with `re.IGNORECASE`.
- **Dictionary post-processing.** `DictionaryPostProcessor.post_process` replaces every
  whole-word occurrence of each complex term with its plain form. Entries are applied in
  dictionary order.
- **Detection and reconciliation.**
  - `detect_recognized_terms` lists the terms a text contains. The API refuses text in
    which it finds none.
  - `get_simplification_mapping` reports which terms ended up simplified.
  - The legacy `is_medical` check looks for any term or plain form in the input.
- **Artifact cleaners.** Two `final_cleanup` versions tidy the output:
  - The current one (app/utils/text_cleaner.py) drops a trailing causal clause that
    repeats the previous clause.
  - The legacy one (app.py) drops a trailing phrase that echoes earlier words.
  - Both then remove whitespace before closing punctuation, collapse an immediately
    repeated word, lower-case and capitalise, and strip.

Modules:

- `Text` (text.dfy): characters and the Python `str` operations involved.
  - `str.isspace` uses its full Unicode set.
  - Word characters and case mapping are ASCII.
  - It covers `strip`, `rstrip`, `in`, `split(sep)`, `split()` and `join`.
- `TermMatcher` (term_matcher.dfy):
  - `\b` exactly, with a position outside the string counting as a non-word character.
  - The case-insensitive match at a position.
  - `re.search` as a leftmost search.
  - `re.sub` as a left-to-right, non-overlapping replacement pass.
- `PostProcessor` (post_processor.dfy):
  - The dictionary is a sequence of entries in iteration order.
  - The class has a read-only `dictionary` field and a `PostProcess` loop.
  - It also holds detection and the mapping.
- `TextCleaner` (text_cleaner.dfy): one function per step of `final_cleanup` and a
  method that sequences them.
- `LegacyApp` (legacy_app.dfy):
  - The legacy cleaner. Its `(4, 3, 2)` loop is a `for` loop whose `break` is an early
    return from `TrimTrailingEcho`.
  - The legacy post-processor class.
  - `is_medical`, taken out of its route as a method over the set of terms and plain
    forms.

Each imperative routine is a method whose loop invariants tie it to a recursive
specification function. Lemmas state the properties of those functions.

Two of the repository's tests expect behaviour the code does not have. The model follows
the code:

- **tests/test_simplifier.py:187-192** expects `"Pasien dengan hipertensi."`.
  - `capitalize()` runs before `strip()`, and the input starts with a space.
  - So the first character that gets upper-cased is that space.
  - The code therefore returns `"pasien dengan hipertensi."`.
  - See `TextCleaner.FinishCasing`.
- **tests/test_simplifier.py:194-200** expects the trailing `"sebabkan diabetes"` to be
  removed.
  - Once its causal prefix is stripped, that part is `"diabetes"`.
  - `"diabetes"` is not a substring of `"kondisi dapat sebabkan hipertensi"`, so the code
    keeps it.
  - See `TextCleaner.CausalTrimPass`.

## Model

| member | source | states |
|---|---|---|
| Text.LowerStr | app/utils/text_cleaner.py:10-11 | `lower()` maps every character to its lower-case form and keeps the length |
| Text.Strip | app/utils/text_cleaner.py:25 | `strip()` leaves no whitespace at either end and is empty for all-whitespace input; it is the input after its leading whitespace run, and every character after the kept part is whitespace |
| Text.RStripClosingPunct | app/utils/text_cleaner.py:13 | `rstrip('.,?!')` is a prefix of the input; it does not end in `.,?!`; everything it removed is `.,?!` |
| Text.IndexOf | app/utils/text_cleaner.py:15 | the leftmost plain occurrence at or after the start position, or none if there is none |
| Text.Contains | app/utils/text_cleaner.py:15 | `needle in hay` holds exactly when the needle occurs at some position |
| Text.Split | app/utils/text_cleaner.py:8 | `split(sep)` gives at least one part; joining the parts with sep gives the input back; no part contains sep; each cut is at the leftmost occurrence, so no occurrence starts inside a part, even one overlapping the separator after it |
| Text.JoinDropLast | app/utils/text_cleaner.py:16 | joining all parts equals joining all but the last, then sep, then the last part |
| Text.WordsLayout | app.py:28 | `split()` yields the words of the text: the text is its words interleaved with whitespace gaps, non-empty between words |
| Text.WordsOfLayout | app.py:28 | conversely, any words interleaved with such whitespace gaps are exactly what `split()` returns, so the words of a text are unique |
| Text.WordsOfJoinWords | app.py:31-32 | splitting words that were joined by single spaces gives those words back |
| Text.JoinWordsEdges | app.py:32-34 | words joined by single spaces have no edge whitespace, so `main_part.strip()` changes nothing |
| TermMatcher.SpelledAtChars | app/utils/post_processor.py:90-92 | the term spells the text at i, ignoring case, exactly when every character agrees after lower-casing |
| TermMatcher.Search | app/utils/post_processor.py:105 | `re.search` finds a whole-word, case-insensitive match with no match before it, or reports that no match exists |
| TermMatcher.SearchFindsFirst | app/utils/post_processor.py:105 | conversely, a match with no match before it is the one found |
| TermMatcher.Matches | app/utils/post_processor.py:118-119 | the search succeeds exactly when a match exists at some position |
| TermMatcher.MatchPositionsAreMatches | app/utils/post_processor.py:92 | the positions `re.sub` replaces are whole-word matches in increasing order and never overlap |
| TermMatcher.MatchPositionsCover | app/utils/post_processor.py:92 | every whole-word match starts inside a replaced span, so only overlap with an earlier replaced match stops it from being replaced |
| TermMatcher.SubLength | app/utils/post_processor.py:92 | each replacement changes the length by len(value) - len(term) |
| TermMatcher.SubWithoutMatch | app/utils/post_processor.py:92 | with no whole-word match, `re.sub` returns its input and replaces nothing |
| TermMatcher.EmbeddedTermUntouched | app/utils/post_processor.py:90-92 | a term found only inside longer words is never replaced |
| TermMatcher.SpelledEdges | app/utils/post_processor.py:90 | an occurrence starts and ends with characters of the same word class as the term |
| TermMatcher.SearchIgnoresTermCase | app/utils/post_processor.py:104-105 | two spellings of a key that agree character by character after lower-casing are found at the same positions |
| TermMatcher.SubIgnoresTermCase | app/utils/post_processor.py:90-92 | two spellings of a key that agree character by character after lower-casing give the same substitution |
| TermMatcher.SubWholeTerm | app/utils/post_processor.py:92 | a text consisting of just the term, bounded by word characters, becomes exactly the value |
| PostProcessor.SubstituteAppend | app/utils/post_processor.py:88-92 | applying two dictionaries in a row equals applying the first, then the second to its output |
| PostProcessor.SubstituteWithoutMatches | app/utils/post_processor.py:88-97 | if no key matches whole-word, the output equals the input |
| PostProcessor.Cascade | app/utils/post_processor.py:88-92 | with two entries whose keys start and end with word characters and where the first value is the second key, a text that is just the first key ends as the second value: the later entry rewrites what the earlier one inserted |
| PostProcessor.UpperCaseTermReplaced | app/utils/post_processor.py:90-92 | `"Pasien dengan HIPERTENSI"` becomes `"Pasien dengan tekanan darah tinggi"`: matching ignores case and the value is inserted as written |
| PostProcessor.DictionaryPostProcessor.constructor | app/utils/post_processor.py:54-55 | the dictionary is stored once and is valid (unique, non-empty keys; values without backslashes) |
| PostProcessor.DictionaryPostProcessor.PostProcess | app/utils/post_processor.py:79-97 | returns the input for an empty dictionary, otherwise the left fold of single-entry substitutions in dictionary order |
| PostProcessor.Recognized | app/utils/post_processor.py:114-121 | a string is in the result exactly when it is a key with a whole-word, case-insensitive match |
| PostProcessor.RecognizedInOrder | app/utils/post_processor.py:116-120 | with unique keys the recognised keys come in strictly increasing dictionary position, so there are no duplicates |
| PostProcessor.TermIndex | app/utils/post_processor.py:116-117 | the position of a key is that of the first entry with that key |
| PostProcessor.TermIndexInPrefix | app/utils/post_processor.py:117 | a key's first position in a prefix of the dictionary is its first position in the whole dictionary |
| PostProcessor.DetectRecognizedTerms | app/utils/post_processor.py:114-121 | the append loop returns exactly the recognised keys in dictionary order |
| PostProcessor.Mapping | app/utils/post_processor.py:99-112 | every mapped key comes from an entry with that value that meets the two-branch condition, and every entry meeting it is mapped |
| PostProcessor.MappingExact | app/utils/post_processor.py:103-110 | with unique keys, a key is mapped exactly when it occurs in the original text and either its value occurs in the simplified text or the key no longer does; its mapped value is its own value |
| PostProcessor.MappingWithinRecognized | app/utils/post_processor.py:103-110 | every mapped key is also returned by `detect_recognized_terms` |
| PostProcessor.GetSimplificationMapping | app/utils/post_processor.py:99-112 | the loop, with its nested ifs, builds exactly that map |
| TextCleaner.CausalPrefixEnd | app/utils/text_cleaner.py:13 | the causal prefix matches exactly when `sebabkan` or `menyebabkan` starts where the verb must start (after the optional modal verb and its whitespace); the match then ends right after that verb and the whitespace run after it |
| TextCleaner.StripCausalPrefix | app/utils/text_cleaner.py:13 | the result is a suffix of its input; it is shorter exactly when `sebabkan` or `menyebabkan` starts where the verb must start, and then everything up to the end of the verb and the whitespace run after it is removed: leading whitespace, the optional modal, the whitespace before the verb, the verb and the whitespace after it |
| TextCleaner.CausalPrefixStripped | app/utils/text_cleaner.py:13 | `"bisa sebabkan diabetes"` becomes `"diabetes"` |
| TextCleaner.ModalAloneKept | app/utils/text_cleaner.py:13 | a bare modal with no causal verb is kept: `"bisa diabetes"` is unchanged |
| TextCleaner.CausalTrimPass | app/utils/text_cleaner.py:8-16 | one pass returns a prefix of its input, in the original casing; it differs from the input exactly when the drop condition holds, and then the input is that prefix + delimiter + last part |
| TextCleaner.DropLastPrefix | app/utils/text_cleaner.py:16 | dropping the last part leaves a strictly shorter prefix, after which come the delimiter and the last part |
| TextCleaner.TrimPasses | app/utils/text_cleaner.py:7-16 | the passes over `' dan '` and then `','` return a prefix of their input |
| TextCleaner.TrimPassNeedsDelimiter | app/utils/text_cleaner.py:8-9 | a pass changes its input only if the delimiter occurs in it |
| TextCleaner.TrimPassesWithoutDelimiters | app/utils/text_cleaner.py:7-16 | text containing neither `' dan '` nor `','` passes the clause trim unchanged |
| TextCleaner.JoinPunct | app/utils/text_cleaner.py:18 | after the punctuation step no whitespace precedes `.,?!`; text without such whitespace is unchanged; the result is never longer |
| TextCleaner.JoinPunctKeepsChars | app/utils/text_cleaner.py:18 | the step removes exactly the whitespace characters whose run is followed by `.,?!`, and keeps every other character in order |
| TextCleaner.JoinPunctFinal | app/utils/text_cleaner.py:18 | a single space before final punctuation is removed and the rest of a tidy text is kept |
| TextCleaner.DuplicateEndMeaning | app/utils/text_cleaner.py:20 | a repetition is found at i exactly when one exists: the whole word at i with no word character before it, a non-empty whitespace run, the same word ignoring case, and no word character after it; the match then ends after the repeated word |
| TextCleaner.RepeatedWordAt | app/utils/text_cleaner.py:20 | a word, one space and the same word again, with no word character on either side, is a repetition ending after the second word |
| TextCleaner.CollapseCopies | app/utils/text_cleaner.py:20 | up to the first place a repetition starts, the collapse copies the text unchanged |
| TextCleaner.CollapseWithoutRepetition | app/utils/text_cleaner.py:20 | with no repetition anywhere, the collapse returns its input |
| TextCleaner.CollapseReplacesFirst | app/utils/text_cleaner.py:20 | the first repetition is replaced by its first word, and the pass resumes right after the repeated word |
| TextCleaner.CollapseShortens | app/utils/text_cleaner.py:20 | where a repetition exists the collapse makes the text strictly shorter |
| TextCleaner.CollapseDoubledWords | app/utils/text_cleaner.py:20 | a word followed by two doubled words keeps each doubled word once |
| TextCleaner.CollapseExample | tests/test_simplifier.py:202-207 | the repeated-word collapse turns `"Pasien dengan dengan hipertensi hipertensi"` into `"Pasien dengan hipertensi"`, the output the test expects |
| TextCleaner.CollapseKeepsNoSpaceBeforePunct | app/utils/text_cleaner.py:18-20 | the collapse does not put whitespace back before punctuation |
| TextCleaner.CollapsePair | app/utils/text_cleaner.py:20 | a word, whitespace and the same word again (ignoring case) collapse to the first word |
| TextCleaner.CollapseNotIdempotent | app/utils/text_cleaner.py:20 | `"a a a"` becomes `"a a"` and `"a a"` becomes `"a"`: the pass resumes after each match, so cleaning twice can change the result |
| TextCleaner.Capitalize | app/utils/text_cleaner.py:23 | `capitalize()` upper-cases the first character, lower-cases the rest, and keeps the length |
| TextCleaner.FinishBlank | app/utils/text_cleaner.py:18-25 | an empty or all-whitespace text survives the last four steps as `""` |
| TextCleaner.CleanBlank | app/utils/text_cleaner.py:4-25 | empty or all-whitespace input cleans to `""`, provided the encoding repair leaves it unchanged |
| TextCleaner.CasedKeepsNoSpaceBeforePunct | app/utils/text_cleaner.py:22-23 | lower-casing and capitalising keep "no whitespace before punctuation" |
| TextCleaner.StripKeepsNoSpaceBeforePunct | app/utils/text_cleaner.py:25 | `strip()` keeps "no whitespace before punctuation" |
| TextCleaner.FinishShape | app/utils/text_cleaner.py:18-25 | the output is tidy: no whitespace at either end and none before `.,?!` |
| TextCleaner.CasedCasing | app/utils/text_cleaner.py:22-23 | after `lower().capitalize()` only the first character can be upper case, and that character is the upper-cased first character |
| TextCleaner.StripCasing | app/utils/text_cleaner.py:23-25 | stripping such a text keeps its first character if that is not whitespace; otherwise the result has no upper-case letter |
| TextCleaner.FinishCasing | app/utils/text_cleaner.py:22-25 | only the first output character can be upper case; if the text before the strip starts with whitespace, no character is |
| TextCleaner.FinalCleanup | app/utils/text_cleaner.py:4-25 | the method (delimiter loop and the later reassignments) returns exactly the clean of the encoding-repaired sentence |
| TextCleaner.CleanTwoWords | app/utils/text_cleaner.py:4-25 | two lower-case words with different first letters, a space and `.`, `?` or `!`, in a text without `" dan "`, clean to the words with the first letter capitalised and the space before the punctuation removed |
| TextCleaner.CleanExample | app/utils/text_cleaner.py:4-25 | `"pasien sakit ."` cleans to `"Pasien sakit."` |
| LegacyApp.FirstEcho | app.py:30-33 | returns the first length in the list whose trailing words echo earlier words, with none before it echoing, or reports that none does |
| LegacyApp.EchoCut | app.py:29-35 | the number of words cut is 0, or one of 2, 3, 4 for a text of at least seven words |
| LegacyApp.ShortTextKept | app.py:28-29 | with fewer than seven words the text is unchanged, spacing included |
| LegacyApp.TrimEchoWords | app.py:29-35 | a trim by N leaves exactly the words before the last N; with no echo the text is unchanged |
| LegacyApp.FirstEchoAt | app.py:30-35 | the first echoing length in the order 4, 3, 2 is the one chosen (at most one trim) |
| LegacyApp.EchoFound | app.py:29-35 | with at least seven words, the first length in the order 4, 3, 2 whose trailing phrase echoes is the cut |
| LegacyApp.NoEchoFound | app.py:30-35 | with no echoing length the cut is 0 |
| LegacyApp.EchoTrimmed | app.py:31-35 | when the i-th length is the first that echoes, the stripped join of the words before it is the trimmed text |
| LegacyApp.NothingTrimmed | app.py:28-35 | with fewer than seven words, or no echoing length, the text is left exactly as it is |
| LegacyApp.TrimTrailingEcho | app.py:28-35 | the method (words, then the `(4, 3, 2)` loop with `break`) returns exactly the echo trim |
| LegacyApp.WordsOfStrippedJoin | app.py:32-34 | the stripped join splits back into the kept words |
| LegacyApp.LegacyCleanShape | app.py:37-44 | the legacy output is tidy: no whitespace at either end and none before `.,?!` |
| LegacyApp.LegacyCleanBlank | app.py:25-44 | empty or all-whitespace input cleans to `""` |
| LegacyApp.FinalCleanup | app.py:25-44 | the method (the echo trim, then the shared steps as reassignments) returns exactly the legacy clean of the encoding-repaired sentence |
| LegacyApp.DictionaryPostProcessor.constructor | app.py:47-48 | the dictionary is stored once and is valid |
| LegacyApp.DictionaryPostProcessor.PostProcess | app.py:73-91 | identity for an empty dictionary, otherwise the same ordered fold as the current version |
| LegacyApp.Phrases | app.py:281-285 | contains every key and every value, and nothing else |
| LegacyApp.IsMedical | app.py:278-294 | false for empty text; otherwise true exactly when some key or value matches whole-word, ignoring case, whatever order the set is visited in |
| LegacyApp.EmptyTextMatchesNothing | app.py:278-279 | no term matches the empty text, so the early `False` agrees with the search |
| LegacyApp.RecognizedImpliesMedical | app.py:278-294 | if `detect_recognized_terms` finds a key, the text is medical |

## Left out

- HTTP routes, JSON envelopes and status codes are left out. They are glue around the
  functions modelled here.
- Model loading and inference are left out. They depend on torch and transformers.
- The encoding repair `ftfy.fix_text` is a foreign library.
  - Both cleaners take it as a function parameter (`fixText`) and say nothing about its
    behaviour.
  - The blank-input lemmas state their result for the text after repair.
- Loading the dictionary from CSV is file I/O.
  - The dictionary is an input with unique keys.
  - `dict(zip(...))` keeps the last of duplicate keys, and this is not modelled.
  - The error paths that return `{}` are represented only by the empty dictionary.
  - Non-string and NaN cells are not modelled.
- Replacement-template processing in `re.sub` is not modelled.
  - `DictionaryPostProcessor.PostProcess` requires values without backslashes, so that
    the value is inserted verbatim.
  - Values with backslash escapes or group references are not modelled.
- `DictionaryPostProcessor.PostProcess` also requires non-empty keys.
  - An empty key would make `\b\b` match at every word boundary, so `re.sub` would
    insert the value at each one.
  - That case is not modelled: the requirement excludes it.
- Full Unicode `\w`, IGNORECASE folding, `lower()` and title-casing in `capitalize()`
  are not modelled.
  - Letters, digits and case mapping are ASCII.
  - Whitespace is Python's full `isspace` set.
- Logging, the `replacements_made` counter and the term logged by `is_medical` are left
  out. They are diagnostics only.
- The safety-length check `len(out) < len(text) * 0.3` in the routes is left out. It is
  float arithmetic in route code.
- Python's dictionary order is modelled as the order of the entry sequence.
- Set iteration order in `is_medical` is modelled as an arbitrary choice.
