/** Characters and the handful of Python `str` operations the pipeline relies on:
    `isspace`, `lower`, `upper`, `strip`, `rstrip(chars)`, `in`, `split(sep)`,
    `split()` and `sep.join(parts)`.  Letters, digits and case mapping are ASCII;
    whitespace is Python's full `str.isspace` set. */
module Text {

  datatype Option<T> = None | Some(value: T)

  /** Python's `str.isspace()` (and `\s` in a `str` pattern). */
  predicate IsSpace(c: char) {
    var n := c as int;
    (9 <= n <= 13) || (28 <= n <= 32) || n == 0x85 || n == 0xA0 || n == 0x1680
    || (0x2000 <= n <= 0x200A) || n == 0x2028 || n == 0x2029 || n == 0x202F
    || n == 0x205F || n == 0x3000
  }

  /** `\w`: letter, digit or underscore. */
  predicate IsWordChar(c: char) {
    ('a' <= c <= 'z') || ('A' <= c <= 'Z') || ('0' <= c <= '9') || c == '_'
  }

  predicate IsUpper(c: char) { 'A' <= c <= 'Z' }

  predicate IsLower(c: char) { 'a' <= c <= 'z' }

  function Lower(c: char): char {
    if IsUpper(c) then (c as int + 32) as char else c
  }

  function Upper(c: char): char {
    if IsLower(c) then (c as int - 32) as char else c
  }

  /** `s.lower()` */
  function LowerStr(s: string): (r: string)
    ensures |r| == |s|
    ensures forall i :: 0 <= i < |s| ==> r[i] == Lower(s[i])
  {
    seq(|s|, i requires 0 <= i < |s| => Lower(s[i]))
  }

  /** `a.lower() == b.lower()`, character by character. */
  predicate EqualIgnoringCase(a: string, b: string) {
    |a| == |b| && forall i :: 0 <= i < |a| ==> Lower(a[i]) == Lower(b[i])
  }

  /** Number of whitespace characters `s` starts with. */
  function LeadingSpaces(s: string): (n: nat)
    ensures n <= |s|
    ensures forall i :: 0 <= i < n ==> IsSpace(s[i])
    ensures n == |s| || !IsSpace(s[n])
  {
    if s != [] && IsSpace(s[0]) then 1 + LeadingSpaces(s[1..]) else 0
  }

  /** Number of non-whitespace characters `s` starts with. */
  function LeadingNonSpaces(s: string): (n: nat)
    ensures n <= |s|
    ensures forall i :: 0 <= i < n ==> !IsSpace(s[i])
    ensures n == |s| || IsSpace(s[n])
  {
    if s != [] && !IsSpace(s[0]) then 1 + LeadingNonSpaces(s[1..]) else 0
  }

  /** Number of word characters `s` starts with. */
  function LeadingWordChars(s: string): (n: nat)
    ensures n <= |s|
    ensures forall i :: 0 <= i < n ==> IsWordChar(s[i])
    ensures n == |s| || !IsWordChar(s[n])
  {
    if s != [] && IsWordChar(s[0]) then 1 + LeadingWordChars(s[1..]) else 0
  }

  /** `s.rstrip()` */
  function RStripSpace(s: string): (r: string)
    ensures r <= s
    ensures r == [] || !IsSpace(r[|r| - 1])
    ensures forall i :: |r| <= i < |s| ==> IsSpace(s[i])
  {
    if s != [] && IsSpace(s[|s| - 1]) then RStripSpace(s[..|s| - 1]) else s
  }

  /** `s.strip()`: the text between the leading and the trailing whitespace. */
  function Strip(s: string): (r: string)
    ensures r == [] || (!IsSpace(r[0]) && !IsSpace(r[|r| - 1]))
    ensures AllSpace(s) ==> r == []
    ensures LeadingSpaces(s) + |r| <= |s|
    ensures forall i :: 0 <= i < |r| ==> r[i] == s[LeadingSpaces(s) + i]
    ensures forall i :: LeadingSpaces(s) + |r| <= i < |s| ==> IsSpace(s[i])
  {
    var n := LeadingSpaces(s);
    var t := s[n..];
    var r := RStripSpace(t);
    assert forall i :: n + |r| <= i < |s| ==> s[i] == t[i - n];
    assert AllSpace(s) ==> n == |s|;
    r
  }

  /** `s.rstrip(".,?!")` */
  function RStripClosingPunct(s: string): (r: string)
    ensures r <= s
    ensures r == [] || !IsClosingPunct(r[|r| - 1])
    ensures forall i :: |r| <= i < |s| ==> IsClosingPunct(s[i])
  {
    if s != [] && IsClosingPunct(s[|s| - 1]) then RStripClosingPunct(s[..|s| - 1]) else s
  }

  predicate IsClosingPunct(c: char) { c == '.' || c == ',' || c == '?' || c == '!' }

  // ---------------------------------------------------------------------------
  // Plain (case-sensitive, not word-aligned) substring search: Python's `in`.

  predicate OccursAt(hay: string, needle: string, i: nat) {
    i + |needle| <= |hay| && hay[i..i + |needle|] == needle
  }

  /** Leftmost occurrence of `needle` in `hay` at or after `from` (`str.find`). */
  function IndexOf(hay: string, needle: string, from: nat): (r: Option<nat>)
    requires from <= |hay|
    ensures r.Some? ==> from <= r.value && OccursAt(hay, needle, r.value)
    ensures r.Some? ==> forall j :: from <= j < r.value ==> !OccursAt(hay, needle, j)
    ensures r.None? ==> forall j :: from <= j ==> !OccursAt(hay, needle, j)
    decreases |hay| - from
  {
    if OccursAt(hay, needle, from) then Some(from)
    else if from == |hay| then None
    else IndexOf(hay, needle, from + 1)
  }

  /** `needle in hay` */
  function Contains(hay: string, needle: string): (b: bool)
    ensures b <==> exists i: nat :: OccursAt(hay, needle, i)
  {
    IndexOf(hay, needle, 0).Some?
  }

  // ---------------------------------------------------------------------------
  // split / join

  /** `sep.join(parts)` */
  function Join(parts: seq<string>, sep: string): string {
    if parts == [] then []
    else if |parts| == 1 then parts[0]
    else parts[0] + sep + Join(parts[1..], sep)
  }

  /** The separator after `part` is the first occurrence of `sep` in `part + sep`:
      none starts inside the part, even one overlapping the separator. */
  predicate CutAtFirst(part: string, sep: string)
    requires |sep| > 0
  {
    !Contains(part + sep[..|sep| - 1], sep)
  }

  /** `s.split(sep)`: cut at the leftmost occurrences of `sep`, scanning left to
      right and resuming after each one (occurrences never overlap).  Joining gives s
      back, no part contains sep, and each cut is at the first occurrence from where
      its part starts, which pins the parts down. */
  function Split(s: string, sep: string): (parts: seq<string>)
    requires |sep| > 0
    ensures |parts| >= 1
    ensures Join(parts, sep) == s
    ensures forall i :: 0 <= i < |parts| ==> !Contains(parts[i], sep)
    ensures forall i :: 0 <= i < |parts| - 1 ==> CutAtFirst(parts[i], sep)
    decreases |s|
  {
    match IndexOf(s, sep, 0)
    case None => [s]
    case Some(k) =>
      var head := s[..k];
      var rest := Split(s[k + |sep|..], sep);
      assert !Contains(head, sep) by {
        forall j: nat | OccursAt(head, sep, j) ensures OccursAt(s, sep, j) {
          assert head[j..j + |sep|] == s[j..j + |sep|];
        }
      }
      assert CutAtFirst(head, sep) by {
        var x := head + sep[..|sep| - 1];
        assert x == s[..k + |sep| - 1];
        forall j: nat | OccursAt(x, sep, j) ensures j < k && OccursAt(s, sep, j) {
          assert x[j..j + |sep|] == s[j..j + |sep|];
        }
      }
      assert s == head + sep + s[k + |sep|..];
      var parts := [head] + rest;
      assert forall i :: 0 < i < |parts| ==> parts[i] == rest[i - 1];
      parts
  }

  /** Joining drops the last part exactly by cutting the string before the last separator. */
  lemma {:induction false} JoinDropLast(parts: seq<string>, sep: string)
    requires |parts| >= 2
    ensures Join(parts, sep) == Join(parts[..|parts| - 1], sep) + sep + parts[|parts| - 1]
    decreases |parts|
  {
    if |parts| == 2 {
      assert parts[..1] == [parts[0]];
    } else {
      JoinDropLast(parts[1..], sep);
      assert parts[1..][..|parts| - 2] == parts[..|parts| - 1][1..];
    }
  }

  /** `s.split()`: the maximal runs of non-whitespace characters.  WordsLayout and
      WordsOfLayout state that s is these words interleaved with whitespace gaps, and
      that no other sequence of words is. */
  function Words(s: string): (ws: seq<string>)
    ensures forall i :: 0 <= i < |ws| ==> IsWord(ws[i])
    decreases |s|
  {
    var i := LeadingSpaces(s);
    if i == |s| then []
    else
      var rest := s[i..];
      var n := LeadingNonSpaces(rest);
      [rest[..n]] + Words(rest[n..])
  }

  predicate AllSpace(s: string) {
    forall i :: 0 <= i < |s| ==> IsSpace(s[i])
  }

  /** A token `split()` can produce: non-empty and free of whitespace. */
  predicate IsWord(w: string) {
    |w| > 0 && forall i :: 0 <= i < |w| ==> !IsSpace(w[i])
  }

  /** `" ".join(words)` */
  function JoinWords(words: seq<string>): string {
    Join(words, " ")
  }

  lemma {:induction false} WordsAfterSpace(c: char, t: string)
    requires IsSpace(c)
    ensures Words([c] + t) == Words(t)
  {
    assert ([c] + t)[1..] == t;
    var i := LeadingSpaces(t);
    assert LeadingSpaces([c] + t) == 1 + i;
    assert ([c] + t)[1 + i..] == t[i..];
  }

  /** Splitting single-space-joined words gives the words back. */
  lemma {:induction false} WordsOfJoinWords(ws: seq<string>)
    requires forall i :: 0 <= i < |ws| ==> IsWord(ws[i])
    ensures Words(JoinWords(ws)) == ws
    decreases |ws|
  {
    if ws == [] {
    } else {
      var w := ws[0];
      var s := JoinWords(ws);
      var tail := if |ws| == 1 then [] else " " + JoinWords(ws[1..]);
      assert s == w + tail;
      assert LeadingSpaces(s) == 0;
      assert s[0..] == s;
      assert forall j :: 0 <= j < |w| ==> s[j] == w[j];
      assert |ws| > 1 ==> s[|w|] == ' ';
      assert LeadingNonSpaces(s) == |w|;
      assert s[..|w|] == w;
      assert s[|w|..] == tail;
      if |ws| > 1 {
        WordsOfJoinWords(ws[1..]);
        WordsAfterSpace(' ', JoinWords(ws[1..]));
      }
    }
  }

  /** Joined words have no leading or trailing whitespace. */
  lemma {:induction false} JoinWordsEdges(ws: seq<string>)
    requires forall i :: 0 <= i < |ws| ==> IsWord(ws[i])
    ensures var s := JoinWords(ws); s == [] || (!IsSpace(s[0]) && !IsSpace(s[|s| - 1]))
    decreases |ws|
  {
    if |ws| > 1 {
      JoinWordsEdges(ws[1..]);
    }
  }

  /** `gaps[0] + words[0] + gaps[1] + ... + words[n - 1] + gaps[n]` */
  function Interleave(gaps: seq<string>, words: seq<string>): string
    requires |gaps| == |words| + 1
  {
    if words == [] then gaps[0] else gaps[0] + words[0] + Interleave(gaps[1..], words[1..])
  }

  /** Whitespace gaps: the inner ones non-empty, the outer ones possibly empty. */
  predicate SpaceGaps(gaps: seq<string>) {
    forall i :: 0 <= i < |gaps| ==> AllSpace(gaps[i]) && (0 < i < |gaps| - 1 ==> gaps[i] != [])
  }

  predicate AllWords(ws: seq<string>) {
    forall i :: 0 <= i < |ws| ==> IsWord(ws[i])
  }

  /** The whitespace runs around and between the words of s. */
  function Gaps(s: string): (gs: seq<string>)
    ensures |gs| == |Words(s)| + 1
    decreases |s|
  {
    var i := LeadingSpaces(s);
    if i == |s| then [s]
    else
      var rest := s[i..];
      var n := LeadingNonSpaces(rest);
      [s[..i]] + Gaps(rest[n..])
  }

  /** s is its words interleaved with whitespace gaps. */
  lemma {:induction false} WordsLayout(s: string)
    ensures SpaceGaps(Gaps(s)) && Interleave(Gaps(s), Words(s)) == s
    decreases |s|
  {
    var i := LeadingSpaces(s);
    if i < |s| {
      var tail := WordsStep(s);
      WordsLayout(tail);
      var gs, ws := Gaps(s), Words(s);
      var gt, wt := Gaps(tail), Words(tail);
      InterleaveCons(gs[0], ws[0], gt, wt);
      FirstGapNonEmpty(tail);
      SpaceGapsCons(gs[0], gt);
    }
  }

  lemma InterleaveCons(g: string, w: string, gt: seq<string>, wt: seq<string>)
    requires |gt| == |wt| + 1
    ensures Interleave([g] + gt, [w] + wt) == g + (w + Interleave(gt, wt))
  {
    assert ([g] + gt)[1..] == gt && ([w] + wt)[1..] == wt;
  }

  /** When more than one gap exists and t starts with whitespace, the first gap is not
      empty. */
  lemma FirstGapNonEmpty(t: string)
    requires t == [] || IsSpace(t[0])
    ensures |Gaps(t)| > 1 ==> Gaps(t)[0] != []
  {
    if |Gaps(t)| > 1 {
      assert t != [];
      GapsHead(t);
      assert LeadingSpaces(t) > 0;
    }
  }

  /** Past its leading whitespace, s is a word followed by a tail that is empty or
      starts with whitespace: the first gap, the first word and the rest. */
  lemma WordsStep(s: string) returns (tail: string)
    requires LeadingSpaces(s) < |s|
    ensures |tail| < |s| && (tail == [] || IsSpace(tail[0]))
    ensures Words(s) == [Words(s)[0]] + Words(tail) && Gaps(s) == [Gaps(s)[0]] + Gaps(tail)
    ensures AllSpace(Gaps(s)[0]) && s == Gaps(s)[0] + (Words(s)[0] + tail)
  {
    var i := LeadingSpaces(s);
    var rest := s[i..];
    var n := LeadingNonSpaces(rest);
    tail := rest[n..];
    assert s == s[..i] + (rest[..n] + tail);
  }

  /** The first gap is the leading whitespace. */
  lemma GapsHead(s: string)
    ensures Gaps(s)[0] == s[..LeadingSpaces(s)]
  {
  }

  lemma SpaceGapsCons(g: string, gt: seq<string>)
    requires AllSpace(g) && SpaceGaps(gt) && |gt| >= 1
    requires |gt| > 1 ==> gt[0] != []
    ensures SpaceGaps([g] + gt)
  {
    var gs := [g] + gt;
    forall j | 0 < j < |gs| ensures gs[j] == gt[j - 1] { }
  }

  /** Conversely, words interleaved with whitespace gaps split back into those words. */
  lemma {:induction false} WordsOfLayout(gaps: seq<string>, ws: seq<string>)
    requires |gaps| == |ws| + 1 && SpaceGaps(gaps) && AllWords(ws)
    ensures Words(Interleave(gaps, ws)) == ws
    decreases |ws|
  {
    if ws == [] {
      assert AllSpace(gaps[0]);
      assert LeadingSpaces(gaps[0]) == |gaps[0]|;
    } else {
      var w, r := ws[0], Interleave(gaps[1..], ws[1..]);
      LayoutStep(gaps, ws);
      WordsAfterSpaces(gaps[0], w + r);
      WordThenSpace(w, r);
      WordsOfLayout(gaps[1..], ws[1..]);
      assert ws == [w] + ws[1..];
    }
  }

  /** The first gap, the first word, then the rest of the layout, which is empty or
      starts with whitespace and is a layout itself. */
  lemma LayoutStep(gaps: seq<string>, ws: seq<string>)
    requires |gaps| == |ws| + 1 && SpaceGaps(gaps) && AllWords(ws) && ws != []
    ensures var r := Interleave(gaps[1..], ws[1..]);
      Interleave(gaps, ws) == gaps[0] + (ws[0] + r) && (r == [] || IsSpace(r[0]))
    ensures AllSpace(gaps[0]) && IsWord(ws[0])
    ensures SpaceGaps(gaps[1..]) && AllWords(ws[1..])
  {
    RestOfLayout(gaps, ws);
    SpaceGapsTail(gaps);
    AllWordsTail(ws);
  }

  lemma RestOfLayout(gaps: seq<string>, ws: seq<string>)
    requires |gaps| == |ws| + 1 && SpaceGaps(gaps) && AllWords(ws) && ws != []
    ensures var r := Interleave(gaps[1..], ws[1..]); r == [] || IsSpace(r[0])
  {
    var r := Interleave(gaps[1..], ws[1..]);
    if |ws| > 1 {
      var g := gaps[1];
      assert g != [] && IsSpace(g[0]);
      assert r == g + (ws[1] + Interleave(gaps[2..], ws[2..]));
    } else {
      assert r == gaps[1];
    }
  }

  lemma SpaceGapsTail(gaps: seq<string>)
    requires SpaceGaps(gaps) && gaps != []
    ensures SpaceGaps(gaps[1..])
  {
    forall j | 0 <= j < |gaps| - 1 ensures gaps[1..][j] == gaps[j + 1] { }
  }

  lemma AllWordsTail(ws: seq<string>)
    requires AllWords(ws) && ws != []
    ensures AllWords(ws[1..])
  {
    forall j | 0 <= j < |ws| - 1 ensures ws[1..][j] == ws[j + 1] { }
  }

  /** Leading whitespace does not change the words. */
  lemma {:induction false} WordsAfterSpaces(g: string, t: string)
    requires AllSpace(g)
    ensures Words(g + t) == Words(t)
    decreases |g|
  {
    if g != [] {
      var u := g[1..] + t;
      assert g + t == [g[0]] + u;
      assert IsSpace(g[0]);
      WordsAfterSpaces(g[1..], t);
      WordsAfterSpace(g[0], u);
    } else {
      assert g + t == t;
    }
  }

  /** A word followed by nothing or by whitespace is the first word. */
  lemma WordThenSpace(w: string, r: string)
    requires IsWord(w) && (r == [] || IsSpace(r[0]))
    ensures Words(w + r) == [w] + Words(r)
  {
    var s := w + r;
    assert LeadingSpaces(s) == 0;
    assert s[0..] == s;
    assert forall j :: 0 <= j < |w| ==> s[j] == w[j];
    assert |r| > 0 ==> s[|w|] == r[0];
    assert LeadingNonSpaces(s) == |w|;
    assert s[..|w|] == w && s[|w|..] == r;
  }

  /** `strip()` leaves a string without edge whitespace as it is. */
  lemma StripNoEdges(s: string)
    requires s == [] || (!IsSpace(s[0]) && !IsSpace(s[|s| - 1]))
    ensures Strip(s) == s
  {
    assert s[0..] == s;
  }
}
