/** The segmenter of src/Utils/text_processor.py (and its copy in Anki_flashcards_creator.py):
    sentence splitting, greedy packing of sentences under a token budget, key-concept
    extraction and text cleaning. The tokenizer is an uninterpreted `estimate` function. */
module TextProcessor {
  import opened Common

  /** Default budget of `smart_divide_text`. */
  const DefaultMaxTokens: int := 1500

  // ---------------------------------------------------------------------------
  // Sentence splitting: re.split(r'(?<=[.!?])\s+', text)
  // ---------------------------------------------------------------------------

  predicate IsTerminator(c: char) {
    c == '.' || c == '!' || c == '?'
  }

  lemma TerminatorNotSpace(c: char)
    ensures IsTerminator(c) ==> !IsSpace(c)
  {
  }

  /** Position `i` starts a match of `(?<=[.!?])\s+`: whitespace right after a terminator. */
  predicate BoundaryAt(s: string, i: int) {
    0 < i < |s| && IsTerminator(s[i - 1]) && IsSpace(s[i])
  }

  /** A piece in which no terminator is directly followed by whitespace. */
  predicate NoBoundaryInside(p: string) {
    forall k :: 0 < k < |p| ==> !(IsTerminator(p[k - 1]) && IsSpace(p[k]))
  }

  predicate EndsWithTerminator(p: string) {
    p != [] && IsTerminator(p[|p| - 1])
  }

  /** The pieces of `s[start..]`; `i` scans for the next match, which consumes the whole
      whitespace run after the terminator. */
  function SentencesFrom(s: string, start: nat, i: nat): (r: seq<string>)
    requires start <= i <= |s|
    ensures |r| == |SeparatorsFrom(s, start, i)| + 1
    decreases |s| - i
  {
    if i == |s| then [s[start..]]
    else if BoundaryAt(s, i) then
      var j := SpaceRunEnd(s, i);
      [s[start..i]] + SentencesFrom(s, j, j)
    else SentencesFrom(s, start, i + 1)
  }

  lemma SliceNoBoundary(s: string, start: nat, i: nat)
    requires start <= i <= |s|
    requires forall k :: start < k < i ==> !BoundaryAt(s, k)
    ensures NoBoundaryInside(s[start..i])
  {
    var p := s[start..i];
    forall k | 0 < k < |p| ensures !(IsTerminator(p[k - 1]) && IsSpace(p[k])) {
      assert p[k - 1] == s[start + k - 1] && p[k] == s[start + k];
      assert !BoundaryAt(s, start + k);
    }
  }

  /** Putting the consumed whitespace back between the pieces gives `s[start..]`. */
  lemma {:induction false} SentencesFromWeave(s: string, start: nat, i: nat)
    requires start <= i <= |s|
    ensures Weave(SentencesFrom(s, start, i), SeparatorsFrom(s, start, i)) == s[start..]
    decreases |s| - i
  {
    if i == |s| {
    } else if BoundaryAt(s, i) {
      var j := SpaceRunEnd(s, i);
      SentencesFromWeave(s, j, j);
      WeaveCons(s[start..i], s[i..j], SentencesFrom(s, j, j), SeparatorsFrom(s, j, j));
      SliceThree(s, start, i, j);
    } else {
      SentencesFromWeave(s, start, i + 1);
    }
  }

  lemma {:induction false} SentencesFromNoBoundary(s: string, start: nat, i: nat)
    requires start <= i <= |s|
    requires forall k :: start < k < i ==> !BoundaryAt(s, k)
    ensures forall p :: p in SentencesFrom(s, start, i) ==> NoBoundaryInside(p)
    decreases |s| - i
  {
    if i == |s| {
      SliceNoBoundary(s, start, i);
      assert s[start..i] == s[start..];
    } else if BoundaryAt(s, i) {
      var j := SpaceRunEnd(s, i);
      SliceNoBoundary(s, start, i);
      SentencesFromNoBoundary(s, j, j);
    } else {
      SentencesFromNoBoundary(s, start, i + 1);
    }
  }

  /** A scan position never sits on a match start: after a consumed run the next
      character is not whitespace. */
  predicate ScanStart(s: string, start: nat)
    requires start <= |s|
  {
    start == 0 || (IsSpace(s[start - 1]) && (start == |s| || !IsSpace(s[start])))
  }

  /** Every piece but the last ends with a terminator, and every piece after the first
      starts with a non-space character (or is empty). */
  predicate PiecesShaped(r: seq<string>) {
    && (forall k :: 0 <= k < |r| - 1 ==> EndsWithTerminator(r[k]))
    && (forall k :: 1 <= k < |r| ==> r[k] == [] || !IsSpace(r[k][0]))
  }

  lemma {:induction false} SentencesFromEnds(s: string, start: nat, i: nat)
    requires start <= i <= |s| && ScanStart(s, start)
    ensures PiecesShaped(SentencesFrom(s, start, i))
    ensures start > 0 ==> SentencesFrom(s, start, i)[0] == [] || !IsSpace(SentencesFrom(s, start, i)[0][0])
    decreases |s| - i
  {
    if i == |s| {
      assert s[start..i] == s[start..];
    } else if BoundaryAt(s, i) {
      var j := SpaceRunEnd(s, i);
      BoundaryPiece(s, start, i);
      SentencesFromEnds(s, j, j);
      ConsEnds(s[start..i], SentencesFrom(s, j, j));
    } else {
      SentencesFromEnds(s, start, i + 1);
    }
  }

  /** At a match, the piece before it ends with the terminator, starts with a non-space
      character after a consumed run, and the scan resumes at a scan position. */
  lemma BoundaryPiece(s: string, start: nat, i: nat)
    requires start <= i < |s| && ScanStart(s, start) && BoundaryAt(s, i)
    ensures EndsWithTerminator(s[start..i])
    ensures start > 0 ==> !IsSpace(s[start..i][0])
    ensures ScanStart(s, SpaceRunEnd(s, i))
  {
    var j := SpaceRunEnd(s, i);
    assert IsSpace(s[j - 1]) by { assert s[i..j][j - 1 - i] == s[j - 1]; }
    assert i > start by { TerminatorNotSpace(s[i - 1]); }
    var p := s[start..i];
    assert p[|p| - 1] == s[i - 1];
    assert start > 0 ==> p[0] == s[start];
  }

  lemma ConsEnds(p: string, rest: seq<string>)
    requires EndsWithTerminator(p) && |rest| >= 1
    requires PiecesShaped(rest) && (rest[0] == [] || !IsSpace(rest[0][0]))
    ensures PiecesShaped([p] + rest)
  {
    var r := [p] + rest;
    assert forall k :: 1 <= k < |r| ==> r[k] == rest[k - 1];
  }

  /** The whitespace runs consumed by the split, in order. */
  function SeparatorsFrom(s: string, start: nat, i: nat): (r: seq<string>)
    requires start <= i <= |s|
    ensures forall q :: q in r ==> q != [] && AllSpace(q)
    decreases |s| - i
  {
    if i == |s| then []
    else if BoundaryAt(s, i) then
      var j := SpaceRunEnd(s, i);
      [s[i..j]] + SeparatorsFrom(s, j, j)
    else SeparatorsFrom(s, start, i + 1)
  }

  /** `re.split(r'(?<=[.!?])\s+', text)`: always at least one piece; every piece but the
      last ends with `.`, `!` or `?`; the split consumes exactly the whitespace runs that
      follow a terminator, so putting the separators back gives the text. */
  function SplitSentences(text: string): (r: seq<string>)
    ensures |r| >= 1
    ensures |r| == |Separators(text)| + 1 && Weave(r, Separators(text)) == text
    ensures forall q :: q in Separators(text) ==> q != [] && AllSpace(q)
    ensures forall p :: p in r ==> NoBoundaryInside(p)
    ensures forall k :: 0 <= k < |r| - 1 ==> EndsWithTerminator(r[k])
    ensures forall k :: 1 <= k < |r| ==> r[k] == [] || !IsSpace(r[k][0])
  {
    assert text[0..] == text;
    SentencesFromWeave(text, 0, 0);
    SentencesFromNoBoundary(text, 0, 0);
    SentencesFromEnds(text, 0, 0);
    SentencesFrom(text, 0, 0)
  }

  function Separators(text: string): seq<string> {
    SeparatorsFrom(text, 0, 0)
  }

  // ---------------------------------------------------------------------------
  // Greedy packing of sentences: the loop of smart_divide_text
  // ---------------------------------------------------------------------------

  /** Sum of the per-sentence estimates of a section. */
  function Tokens(g: seq<string>, estimate: string -> nat): nat
    decreases |g|
  {
    if g == [] then 0 else Tokens(g[..|g| - 1], estimate) + estimate(g[|g| - 1])
  }

  /** State of the packing loop: closed sections, the open section and its running total. */
  datatype Packing = Packing(done: seq<seq<string>>, current: seq<string>, tokens: nat)

  /** One iteration: close the open section when the next sentence would push the running
      total over the budget (and the section is not empty), else append the sentence. */
  function PackStep(p: Packing, sentence: string, maxTokens: int, estimate: string -> nat): Packing {
    var t := estimate(sentence);
    if p.tokens + t > maxTokens && p.current != [] then
      Packing(p.done + [p.current], [sentence], t)
    else
      Packing(p.done, p.current + [sentence], p.tokens + t)
  }

  /** Loop state after the given sentences. */
  function PackPrefix(sentences: seq<string>, maxTokens: int, estimate: string -> nat): Packing
    decreases |sentences|
  {
    if sentences == [] then Packing([], [], 0)
    else PackStep(PackPrefix(sentences[..|sentences| - 1], maxTokens, estimate),
                  sentences[|sentences| - 1], maxTokens, estimate)
  }

  /** Closed sections plus the open one, if it holds anything. */
  function Groups(p: Packing): seq<seq<string>> {
    if p.current != [] then p.done + [p.current] else p.done
  }

  /** The sections of `smart_divide_text`, each as its list of sentences. */
  function Pack(sentences: seq<string>, maxTokens: int, estimate: string -> nat): seq<seq<string>> {
    Groups(PackPrefix(sentences, maxTokens, estimate))
  }

  /** A section respects the budget unless it is a single sentence. */
  predicate WithinBudget(g: seq<string>, maxTokens: int, estimate: string -> nat) {
    |g| <= 1 || Tokens(g, estimate) <= maxTokens
  }

  ghost predicate PackInv(p: Packing, s: seq<string>, maxTokens: int, estimate: string -> nat) {
    && (p.current == [] ==> p.done == [] && s == [])
    && Flatten(p.done) + p.current == s
    && p.tokens == Tokens(p.current, estimate)
    && (forall k :: 0 <= k < |p.done| ==> p.done[k] != [] && WithinBudget(p.done[k], maxTokens, estimate))
    && WithinBudget(p.current, maxTokens, estimate)
    && (forall k :: 0 <= k < |p.done| - 1 ==>
          Tokens(p.done[k], estimate) + estimate(p.done[k + 1][0]) > maxTokens)
    && (p.done != [] ==> Tokens(p.done[|p.done| - 1], estimate) + estimate(p.current[0]) > maxTokens)
  }

  lemma PackStepInv(p: Packing, s: seq<string>, x: string, maxTokens: int, estimate: string -> nat)
    requires PackInv(p, s, maxTokens, estimate)
    ensures PackInv(PackStep(p, x, maxTokens, estimate), s + [x], maxTokens, estimate)
  {
    if p.tokens + estimate(x) > maxTokens && p.current != [] {
      PackCloseInv(p, s, x, maxTokens, estimate);
    } else {
      PackExtendInv(p, s, x, maxTokens, estimate);
    }
  }

  /** `PackStepInv` stated for any names of the next state and the longer list. */
  lemma PackStepInvAt(p: Packing, s: seq<string>, x: string, q: Packing, t: seq<string>,
                      maxTokens: int, estimate: string -> nat)
    requires PackInv(p, s, maxTokens, estimate)
    requires q == PackStep(p, x, maxTokens, estimate) && t == s + [x]
    ensures PackInv(q, t, maxTokens, estimate)
  {
    PackStepInv(p, s, x, maxTokens, estimate);
  }

  /** Closing the open section and opening one with `x` keeps the invariant. */
  lemma PackCloseInv(p: Packing, s: seq<string>, x: string, maxTokens: int, estimate: string -> nat)
    requires PackInv(p, s, maxTokens, estimate)
    requires p.tokens + estimate(x) > maxTokens && p.current != []
    ensures PackInv(Packing(p.done + [p.current], [x], estimate(x)), s + [x], maxTokens, estimate)
  {
    FlattenAppend(p.done, p.current);
    assert Tokens([x], estimate) == estimate(x) by { assert [x][..0] == []; }
  }

  /** Adding `x` to the open section, within the budget or to an empty one, keeps the
      invariant. */
  lemma PackExtendInv(p: Packing, s: seq<string>, x: string, maxTokens: int, estimate: string -> nat)
    requires PackInv(p, s, maxTokens, estimate)
    requires !(p.tokens + estimate(x) > maxTokens && p.current != [])
    ensures PackInv(Packing(p.done, p.current + [x], p.tokens + estimate(x)), s + [x], maxTokens, estimate)
  {
    TokensAppend(p.current, x, estimate);
    assert Flatten(p.done) + (p.current + [x]) == s + [x];
    if p.current != [] {
      assert (p.current + [x])[0] == p.current[0];
    }
  }

  lemma TokensAppend(g: seq<string>, x: string, estimate: string -> nat)
    ensures Tokens(g + [x], estimate) == Tokens(g, estimate) + estimate(x)
  {
    assert (g + [x])[..|g|] == g;
  }

  lemma {:induction false} PackPrefixInv(s: seq<string>, maxTokens: int, estimate: string -> nat)
    ensures PackInv(PackPrefix(s, maxTokens, estimate), s, maxTokens, estimate)
    decreases |s|
  {
    if s != [] {
      var init := s[..|s| - 1];
      var x := s[|s| - 1];
      PackPrefixInv(init, maxTokens, estimate);
      assert init + [x] == s;
      PackStepInvAt(PackPrefix(init, maxTokens, estimate), init, x, PackPrefix(s, maxTokens, estimate), s, maxTokens, estimate);
    }
  }

  /** Flattening the sections gives back exactly the sentence sequence, every section is
      non-empty, and there is at least one section whenever there is a sentence. */
  lemma PackPreservesSentences(s: seq<string>, maxTokens: int, estimate: string -> nat)
    ensures Flatten(Pack(s, maxTokens, estimate)) == s
    ensures forall g :: g in Pack(s, maxTokens, estimate) ==> g != []
    ensures Pack(s, maxTokens, estimate) != [] <==> s != []
  {
    var p := PackPrefix(s, maxTokens, estimate);
    PackPrefixInv(s, maxTokens, estimate);
    if p.current != [] {
      FlattenAppend(p.done, p.current);
    }
  }

  /** Every section of two or more sentences keeps the sum of its per-sentence estimates
      within the budget. */
  lemma PackWithinBudget(s: seq<string>, maxTokens: int, estimate: string -> nat)
    ensures forall g :: g in Pack(s, maxTokens, estimate) ==> WithinBudget(g, maxTokens, estimate)
  {
    PackPrefixInv(s, maxTokens, estimate);
  }

  lemma {:induction false} TokensAtLeastMember(g: seq<string>, k: nat, estimate: string -> nat)
    requires k < |g|
    ensures estimate(g[k]) <= Tokens(g, estimate)
    decreases |g|
  {
    if k < |g| - 1 {
      TokensAtLeastMember(g[..|g| - 1], k, estimate);
    }
  }

  /** When every sentence fits the budget, every section fits it. */
  lemma PackFitsWhenSentencesFit(s: seq<string>, maxTokens: int, estimate: string -> nat)
    requires forall x :: x in s ==> estimate(x) <= maxTokens
    ensures forall g :: g in Pack(s, maxTokens, estimate) ==> Tokens(g, estimate) <= maxTokens
  {
    PackWithinBudget(s, maxTokens, estimate);
    PackPreservesSentences(s, maxTokens, estimate);
    forall g | g in Pack(s, maxTokens, estimate) ensures Tokens(g, estimate) <= maxTokens {
      if |g| == 1 {
        assert g[..0] == [];
        FlattenMember(Pack(s, maxTokens, estimate), g, 0);
      }
    }
  }

  lemma {:induction false} FlattenMember<T>(gs: seq<seq<T>>, g: seq<T>, k: nat)
    requires g in gs && k < |g|
    ensures g[k] in Flatten(gs)
    decreases |gs|
  {
    if g == gs[|gs| - 1] {
      assert Flatten(gs) == Flatten(gs[..|gs| - 1]) + g;
      assert Flatten(gs)[|Flatten(gs[..|gs| - 1])| + k] == g[k];
    } else {
      var i :| 0 <= i < |gs| && gs[i] == g;
      assert gs[..|gs| - 1][i] == g;
      FlattenMember(gs[..|gs| - 1], g, k);
    }
  }

  /** A sentence whose own estimate exceeds the budget forms a section on its own: it is
      neither dropped nor merged with a neighbour. */
  lemma PackOversizedAlone(s: seq<string>, maxTokens: int, estimate: string -> nat)
    ensures forall g, k :: g in Pack(s, maxTokens, estimate) && 0 <= k < |g| && estimate(g[k]) > maxTokens
              ==> g == [g[k]]
  {
    PackWithinBudget(s, maxTokens, estimate);
    forall g, k | g in Pack(s, maxTokens, estimate) && 0 <= k < |g| && estimate(g[k]) > maxTokens
      ensures g == [g[k]]
    {
      TokensAtLeastMember(g, k, estimate);
    }
  }

  ghost predicate Greedy(gs: seq<seq<string>>, maxTokens: int, estimate: string -> nat) {
    forall j, k :: 0 <= j < k < |gs| && k == j + 1 ==>
      gs[k] != [] && Tokens(gs[j], estimate) + estimate(gs[k][0]) > maxTokens
  }

  /** Greedy maximality: a section is closed only because its first follower would have
      pushed its running total over the budget. */
  lemma PackGreedy(s: seq<string>, maxTokens: int, estimate: string -> nat)
    ensures Greedy(Pack(s, maxTokens, estimate), maxTokens, estimate)
  {
    PackPrefixInv(s, maxTokens, estimate);
  }

  /** `' '.join(...)` applied to each section. */
  function JoinSections(gs: seq<seq<string>>): (r: seq<string>)
    ensures |r| == |gs|
    decreases |gs|
  {
    if gs == [] then [] else JoinSections(gs[..|gs| - 1]) + [JoinWith(" ", gs[|gs| - 1])]
  }

  /** `smart_divide_text`: split into sentences, then pack them; the loop carries the
      closed sections (already joined), the open section and its running total. */
  method SmartDivideText(text: string, maxTokens: int, estimate: string -> nat) returns (sections: seq<string>)
    ensures sections == JoinSections(Pack(SplitSentences(text), maxTokens, estimate))
    ensures |sections| >= 1
  {
    var sentences := SplitSentences(text);
    sections := [];
    var current: seq<string> := [];
    var currentTokens: nat := 0;
    for i := 0 to |sentences|
      invariant sections == JoinSections(PackPrefix(sentences[..i], maxTokens, estimate).done)
      invariant current == PackPrefix(sentences[..i], maxTokens, estimate).current
      invariant currentTokens == PackPrefix(sentences[..i], maxTokens, estimate).tokens
    {
      assert sentences[..i + 1][..i] == sentences[..i];
      var sentence := sentences[i];
      var sentenceTokens := estimate(sentence);
      if currentTokens + sentenceTokens > maxTokens && current != [] {
        assert (PackPrefix(sentences[..i], maxTokens, estimate).done + [current])[..|PackPrefix(sentences[..i], maxTokens, estimate).done|]
          == PackPrefix(sentences[..i], maxTokens, estimate).done;
        sections := sections + [JoinWith(" ", current)];
        current := [sentence];
        currentTokens := sentenceTokens;
      } else {
        current := current + [sentence];
        currentTokens := currentTokens + sentenceTokens;
      }
    }
    assert sentences[..|sentences|] == sentences;
    ghost var p := PackPrefix(sentences, maxTokens, estimate);
    if current != [] {
      assert (p.done + [current])[..|p.done|] == p.done;
      sections := sections + [JoinWith(" ", current)];
    }
    PackPreservesSentences(sentences, maxTokens, estimate);
  }

  // ---------------------------------------------------------------------------
  // Key concepts: re.findall(r'\b[A-Z][a-z]+(?:\s+[A-Z][a-z]+)*\b', text)
  // ---------------------------------------------------------------------------

  predicate IsUpper(c: char) { 'A' <= c <= 'Z' }
  predicate IsLower(c: char) { 'a' <= c <= 'z' }

  /** The Hangul syllables block, the range `가-힣` of the cleaning pattern. */
  predicate IsHangul(c: char) { '\U{ac00}' <= c <= '\U{d7a3}' }

  /** `\w`: ASCII letters and digits, `_`, Latin-1 and Latin Extended letters, Hangul
      jamo and syllables, and CJK ideographs. */
  predicate IsWordChar(c: char) {
    IsUpper(c) || IsLower(c) || IsDigit(c) || c == '_'
    || ('\U{c0}' <= c <= '\U{24f}' && c != '\U{d7}' && c != '\U{f7}')
    || ('\U{1100}' <= c <= '\U{11ff}') || ('\U{3131}' <= c <= '\U{318e}')
    || IsHangul(c) || ('\U{4e00}' <= c <= '\U{9fff}')
  }

  /** `\b` before a word character at `i`. */
  predicate BoundaryBefore(s: string, i: nat) requires i <= |s| {
    i == 0 || !IsWordChar(s[i - 1])
  }

  /** `\b` after a word character ending at `e`. */
  predicate BoundaryAfter(s: string, e: nat) requires e <= |s| {
    e == |s| || !IsWordChar(s[e])
  }

  /** `[A-Z][a-z]` starts at `i`. */
  predicate CapWordAt(s: string, i: nat) {
    i + 1 < |s| && IsUpper(s[i]) && IsLower(s[i + 1])
  }

  function LowerRunEnd(s: string, i: nat): (j: nat)
    requires i <= |s|
    ensures i <= j <= |s|
    ensures forall k :: i <= k < j ==> IsLower(s[k])
    ensures j == |s| || !IsLower(s[j])
    decreases |s| - i
  {
    if i < |s| && IsLower(s[i]) then LowerRunEnd(s, i + 1) else i
  }

  /** End of `[A-Z][a-z]+` starting at `i` (the lower-case run is taken whole). */
  function WordEnd(s: string, i: nat): (e: nat)
    requires CapWordAt(s, i)
    ensures i + 2 <= e <= |s|
  {
    LowerRunEnd(s, i + 1)
  }

  /** If `\s+[A-Z][a-z]+` follows position `e`, the end of that word. */
  function NextWordEnd(s: string, e: nat): (r: Option<nat>)
    requires e <= |s|
    ensures r.Some? ==> e < r.value <= |s|
  {
    var w := SpaceRunEnd(s, e);
    if w > e && CapWordAt(s, w) then Some(WordEnd(s, w)) else None
  }

  /** Follows the chain of capitalised words from the word ending at `e`; returns the end
      of the last word of the chain and the end of the word before it. */
  function ChainFrom(s: string, prev: Option<nat>, e: nat): (r: (Option<nat>, nat))
    requires e <= |s|
    ensures e <= r.1 <= |s|
    decreases |s| - e
  {
    match NextWordEnd(s, e)
    case None => (prev, e)
    case Some(e2) => ChainFrom(s, Some(e), e2)
  }

  /** End of the match at `i`, if any. The greedy repetition takes the whole chain; if the
      closing `\b` fails after its last word, backtracking drops that word (the end of the
      word before it is followed by whitespace, so `\b` holds there). */
  function MatchEnd(s: string, i: nat): Option<nat>
    requires CapWordAt(s, i)
  {
    var (prev, last) := ChainFrom(s, None, WordEnd(s, i));
    if BoundaryAfter(s, last) then Some(last) else prev
  }

  /** The matches of the concept pattern from position `i` on, left to right, without overlap. */
  function FindConceptsFrom(s: string, i: nat): seq<string>
    requires i <= |s|
    decreases |s| - i
  {
    if i == |s| then []
    else if CapWordAt(s, i) && BoundaryBefore(s, i) && MatchEnd(s, i).Some? && MatchEnd(s, i).value > i
            && MatchEnd(s, i).value <= |s| then
      var e := MatchEnd(s, i).value;
      [s[i..e]] + FindConceptsFrom(s, e)
    else FindConceptsFrom(s, i + 1)
  }

  function FindConcepts(text: string): seq<string> {
    FindConceptsFrom(text, 0)
  }

  /** Two neighbouring characters of `[A-Z][a-z]+(?:\s+[A-Z][a-z]+)*`. */
  predicate Adjacent(a: char, b: char) {
    (IsUpper(a) ==> IsLower(b)) && (IsLower(a) ==> IsLower(b) || IsSpace(b))
    && (IsSpace(a) ==> IsSpace(b) || IsUpper(b))
  }

  predicate PhraseChar(c: char) { IsUpper(c) || IsLower(c) || IsSpace(c) }

  /** `s[i..e]` is a word of the language `[A-Z][a-z]+(?:\s+[A-Z][a-z]+)*`. */
  predicate PhraseSpan(s: string, i: nat, e: nat) {
    i + 2 <= e <= |s| && IsUpper(s[i]) && IsLower(s[e - 1])
    && (forall k :: i <= k < e ==> PhraseChar(s[k]))
    && (forall k :: i <= k < e - 1 ==> Adjacent(s[k], s[k + 1]))
  }

  /** A capitalised phrase: capitalised words separated by whitespace runs. */
  predicate IsConceptPhrase(p: string) {
    PhraseSpan(p, 0, |p|)
  }

  lemma WordEndPhrase(s: string, i: nat)
    requires CapWordAt(s, i)
    ensures PhraseSpan(s, i, WordEnd(s, i))
  {
  }

  lemma NextWordPhrase(s: string, i: nat, e: nat)
    requires PhraseSpan(s, i, e) && NextWordEnd(s, e).Some?
    ensures PhraseSpan(s, i, NextWordEnd(s, e).value)
  {
    var w := SpaceRunEnd(s, e);
    var e2 := NextWordEnd(s, e).value;
    assert forall k :: e <= k < w ==> IsSpace(s[k]) by {
      forall k | e <= k < w ensures IsSpace(s[k]) { assert s[e..w][k - e] == s[k]; }
    }
  }

  lemma {:induction false} ChainPhrases(s: string, i: nat, prev: Option<nat>, e: nat)
    requires e <= |s| && PhraseSpan(s, i, e)
    requires prev.Some? ==> PhraseSpan(s, i, prev.value) && prev.value < e && !IsWordChar(s[prev.value])
    ensures var r := ChainFrom(s, prev, e);
      && PhraseSpan(s, i, r.1)
      && (r.0.Some? ==> PhraseSpan(s, i, r.0.value) && r.0.value < r.1 && !IsWordChar(s[r.0.value]))
    decreases |s| - e
  {
    match NextWordEnd(s, e)
    case None =>
    case Some(e2) =>
      NextWordPhrase(s, i, e);
      ChainPhrases(s, i, Some(e), e2);
  }

  /** A match starting at `i` spans a capitalised phrase, bounded by `\b` on both sides. */
  lemma MatchEndPhrase(s: string, i: nat)
    requires CapWordAt(s, i) && MatchEnd(s, i).Some?
    ensures PhraseSpan(s, i, MatchEnd(s, i).value) && BoundaryAfter(s, MatchEnd(s, i).value)
  {
    WordEndPhrase(s, i);
    ChainPhrases(s, i, None, WordEnd(s, i));
  }

  lemma {:induction false} FindConceptsFromSound(s: string, i: nat)
    requires i <= |s|
    ensures forall p :: p in FindConceptsFrom(s, i) ==>
      exists a, b :: i <= a <= b <= |s| && s[a..b] == p && PhraseSpan(s, a, b)
                     && BoundaryBefore(s, a) && BoundaryAfter(s, b)
    decreases |s| - i
  {
    if i < |s| {
      if CapWordAt(s, i) && BoundaryBefore(s, i) && MatchEnd(s, i).Some? && MatchEnd(s, i).value > i
         && MatchEnd(s, i).value <= |s| {
        var e := MatchEnd(s, i).value;
        MatchEndPhrase(s, i);
        FindConceptsFromSound(s, e);
      } else {
        FindConceptsFromSound(s, i + 1);
      }
    }
  }

  lemma PhraseSpanSlice(s: string, a: nat, b: nat)
    requires PhraseSpan(s, a, b)
    ensures IsConceptPhrase(s[a..b])
  {
    var p := s[a..b];
    assert forall k :: 0 <= k < |p| ==> p[k] == s[a + k];
  }

  /** Every match of the concept pattern is a capitalised phrase that occurs in the text
      between two word boundaries. */
  lemma FindConceptsSound(text: string)
    ensures forall p :: p in FindConcepts(text) ==> IsConceptPhrase(p) && IsInfix(p, text)
  {
    FindConceptsFromSound(text, 0);
    forall p | p in FindConcepts(text) ensures IsConceptPhrase(p) && IsInfix(p, text) {
      var a, b :| 0 <= a <= b <= |text| && text[a..b] == p && PhraseSpan(text, a, b);
      PhraseSpanSlice(text, a, b);
    }
  }



  /** `extract_key_concepts`: at most 10 distinct matches. */
  function ExtractKeyConcepts(text: string): (r: seq<string>)
    ensures |r| <= 10
    ensures forall i, j :: 0 <= i < j < |r| ==> r[i] != r[j]
    ensures forall x :: x in r ==> x in FindConcepts(text)
    ensures var n := |set x | x in FindConcepts(text)|; |r| == if n < 10 then n else 10
  {
    var d := Dedup(FindConcepts(text));
    DistinctCard(d);
    assert (set x | x in d) == (set x | x in FindConcepts(text));
    if |d| <= 10 then d
    else
      assert forall x :: x in d[..10] ==> x in d;
      d[..10]
  }

  /** Every key concept is a capitalised phrase found in the text. */
  lemma KeyConceptsArePhrases(text: string)
    ensures forall p :: p in ExtractKeyConcepts(text) ==> IsConceptPhrase(p) && IsInfix(p, text)
  {
    FindConceptsSound(text);
  }

  // ---------------------------------------------------------------------------
  // clean_text
  // ---------------------------------------------------------------------------

  /** `re.sub(r'\s+', ' ', s)`. */
  function CollapseWhitespace(s: string): string
    decreases |s|
  {
    if s == [] then []
    else if IsSpace(s[0]) then " " + CollapseWhitespace(s[SpaceRunEnd(s, 0)..])
    else [s[0]] + CollapseWhitespace(s[1..])
  }

  /** No whitespace in `s[start..i]`. */
  predicate NoSpaceIn(s: string, start: nat, i: nat) {
    forall k :: start <= k < i && k < |s| ==> !IsSpace(s[k])
  }

  predicate HasNoSpace(p: string) {
    forall k :: 0 <= k < |p| ==> !IsSpace(p[k])
  }

  /** The pieces of `s[start..]` around its maximal whitespace runs, scanning at `i`
      while the current piece begins at `start`. */
  function SpacePiecesFrom(s: string, start: nat, i: nat): (r: seq<string>)
    requires start <= i <= |s|
    ensures |r| >= 1
    decreases |s| - i
  {
    if i == |s| then [s[start..]]
    else if IsSpace(s[i]) then
      var j := SpaceRunEnd(s, i);
      [s[start..i]] + SpacePiecesFrom(s, j, j)
    else SpacePiecesFrom(s, start, i + 1)
  }

  /** The maximal whitespace runs of `s[start..]` from position `i` on. */
  function SpaceRunsFrom(s: string, start: nat, i: nat): (r: seq<string>)
    requires start <= i <= |s|
    ensures |r| + 1 == |SpacePiecesFrom(s, start, i)|
    decreases |s| - i
  {
    if i == |s| then []
    else if IsSpace(s[i]) then
      var j := SpaceRunEnd(s, i);
      [s[i..j]] + SpaceRunsFrom(s, j, j)
    else SpaceRunsFrom(s, start, i + 1)
  }

  function SpacePieces(s: string): seq<string> { SpacePiecesFrom(s, 0, 0) }
  function SpaceRuns(s: string): seq<string> { SpaceRunsFrom(s, 0, 0) }

  /** `n` single spaces, the replacement of `n` matches. */
  function Blanks(n: nat): (r: seq<string>)
    ensures |r| == n && forall k :: 0 <= k < n ==> r[k] == " "
  {
    seq(n, _ => " ")
  }

  lemma {:induction false} SpaceSplitWeave(s: string, start: nat, i: nat)
    requires start <= i <= |s|
    ensures Weave(SpacePiecesFrom(s, start, i), SpaceRunsFrom(s, start, i)) == s[start..]
    decreases |s| - i
  {
    if i < |s| {
      if IsSpace(s[i]) {
        var j := SpaceRunEnd(s, i);
        SpaceSplitWeave(s, j, j);
        WeaveCons(s[start..i], s[i..j], SpacePiecesFrom(s, j, j), SpaceRunsFrom(s, j, j));
        SliceThree(s, start, i, j);
      } else {
        SpaceSplitWeave(s, start, i + 1);
      }
    }
  }

  /** Shape of the split: pieces hold no whitespace, separators are non-empty
      whitespace runs, and no piece strictly between two runs is empty. */
  predicate SpaceSplitShaped(pieces: seq<string>, runs: seq<string>) {
    && (forall p :: p in pieces ==> HasNoSpace(p))
    && (forall q :: q in runs ==> q != [] && AllSpace(q))
    && (forall k :: 1 <= k < |pieces| - 1 ==> pieces[k] != [])
  }

  lemma ConsSpaceSplit(p: string, q: string, pieces: seq<string>, runs: seq<string>)
    requires SpaceSplitShaped(pieces, runs) && HasNoSpace(p) && q != [] && AllSpace(q)
    requires |pieces| > 1 ==> pieces[0] != []
    ensures SpaceSplitShaped([p] + pieces, [q] + runs)
  {
    var ps := [p] + pieces;
    assert forall k :: 1 <= k < |ps| ==> ps[k] == pieces[k - 1];
  }

  lemma {:induction false} SpaceSplitShape(s: string, start: nat, i: nat)
    requires start <= i <= |s| && NoSpaceIn(s, start, i)
    ensures SpaceSplitShaped(SpacePiecesFrom(s, start, i), SpaceRunsFrom(s, start, i))
    ensures |SpacePiecesFrom(s, start, i)| > 1 && (start < i || (i < |s| && !IsSpace(s[i])))
            ==> SpacePiecesFrom(s, start, i)[0] != []
    decreases |s| - i
  {
    if i == |s| {
      assert HasNoSpace(s[start..]) by {
        assert forall k :: 0 <= k < |s| - start ==> s[start..][k] == s[start + k];
      }
    } else if IsSpace(s[i]) {
      var j := SpaceRunEnd(s, i);
      SpaceSplitShape(s, j, j);
      assert HasNoSpace(s[start..i]) by {
        assert forall k :: 0 <= k < i - start ==> s[start..i][k] == s[start + k];
      }
      ConsSpaceSplit(s[start..i], s[i..j], SpacePiecesFrom(s, j, j), SpaceRunsFrom(s, j, j));
    } else {
      SpaceSplitShape(s, start, i + 1);
    }
  }

  /** A whitespace-free prefix passes through unchanged. */
  lemma {:induction false} CollapseKeepsPrefix(s: string, start: nat, i: nat)
    requires start <= i <= |s| && NoSpaceIn(s, start, i)
    ensures CollapseWhitespace(s[start..]) == s[start..i] + CollapseWhitespace(s[i..])
    decreases i - start
  {
    if start < i {
      calc {
        CollapseWhitespace(s[start..]);
      == { assert s[start..][0] == s[start]; assert s[start..][1..] == s[start + 1..]; }
        [s[start]] + CollapseWhitespace(s[start + 1..]);
      == { CollapseKeepsPrefix(s, start + 1, i); }
        [s[start]] + (s[start + 1..i] + CollapseWhitespace(s[i..]));
      == { assert [s[start]] + s[start + 1..i] == s[start..i]; }
        s[start..i] + CollapseWhitespace(s[i..]);
      }
    }
  }

  lemma {:induction false} SpaceRunEndShift(s: string, i: nat, m: nat)
    requires i + m <= |s|
    ensures SpaceRunEnd(s[i..], m) + i == SpaceRunEnd(s, i + m)
    decreases |s| - i - m
  {
    if i + m < |s| {
      assert s[i..][m] == s[i + m];
      SpaceRunEndShift(s, i, m + 1);
    }
  }

  /** A whitespace run at `i` becomes one space. */
  lemma CollapseAtRun(s: string, i: nat)
    requires i < |s| && IsSpace(s[i])
    ensures CollapseWhitespace(s[i..]) == " " + CollapseWhitespace(s[SpaceRunEnd(s, i)..])
  {
    var t := s[i..];
    assert t[0] == s[i];
    SpaceRunEndShift(s, i, 0);
    assert t[SpaceRunEnd(t, 0)..] == s[SpaceRunEnd(s, i)..];
  }

  /** The collapse of `s[start..]` is its pieces joined by single spaces. */
  predicate CollapsesToBlanks(s: string, start: nat, i: nat)
    requires start <= i <= |s|
  {
    CollapseWhitespace(s[start..]) == Weave(SpacePiecesFrom(s, start, i), Blanks(|SpaceRunsFrom(s, start, i)|))
  }

  /** A whitespace-free piece and the run after it collapse to the piece and one space. */
  lemma CollapsePieceRun(s: string, start: nat, i: nat)
    requires start <= i < |s| && NoSpaceIn(s, start, i) && IsSpace(s[i])
    ensures CollapseWhitespace(s[start..]) == s[start..i] + (" " + CollapseWhitespace(s[SpaceRunEnd(s, i)..]))
  {
    CollapseKeepsPrefix(s, start, i);
    CollapseAtRun(s, i);
  }

  lemma WeaveBlanksCons(p: string, rest: seq<string>, n: nat)
    requires |rest| == n + 1
    ensures p + (" " + Weave(rest, Blanks(n))) == Weave([p] + rest, Blanks(n + 1))
  {
    WeaveCons(p, " ", rest, Blanks(n));
    assert Blanks(n + 1) == [" "] + Blanks(n);
  }

  /** One step of `CollapseFrom`: a piece, then a run that becomes one space. */
  lemma CollapseRunStep(s: string, start: nat, i: nat)
    requires start <= i < |s| && NoSpaceIn(s, start, i) && IsSpace(s[i])
    requires CollapsesToBlanks(s, SpaceRunEnd(s, i), SpaceRunEnd(s, i))
    ensures CollapsesToBlanks(s, start, i)
  {
    var j := SpaceRunEnd(s, i);
    CollapsePieceRun(s, start, i);
    WeaveBlanksCons(s[start..i], SpacePiecesFrom(s, j, j), |SpaceRunsFrom(s, j, j)|);
  }

  lemma {:induction false} CollapseFrom(s: string, start: nat, i: nat)
    requires start <= i <= |s| && NoSpaceIn(s, start, i)
    ensures CollapsesToBlanks(s, start, i)
    decreases |s| - i
  {
    if i == |s| {
      CollapseKeepsPrefix(s, start, i);
      assert s[start..] == s[start..i];
    } else if IsSpace(s[i]) {
      var j := SpaceRunEnd(s, i);
      CollapseFrom(s, j, j);
      CollapseRunStep(s, start, i);
    } else {
      CollapseFrom(s, start, i + 1);
    }
  }

  /** `re.sub(r'\s+', ' ', s)` splits `s` into whitespace-free pieces around its maximal
      whitespace runs (weaving them back gives `s`), then joins the same pieces with one
      space in place of each run. */
  lemma CollapseWhitespaceSpec(s: string)
    ensures Weave(SpacePieces(s), SpaceRuns(s)) == s
    ensures SpaceSplitShaped(SpacePieces(s), SpaceRuns(s))
    ensures CollapseWhitespace(s) == Weave(SpacePieces(s), Blanks(|SpaceRuns(s)|))
  {
    SpaceSplitWeave(s, 0, 0);
    SpaceSplitShape(s, 0, 0);
    CollapseFrom(s, 0, 0);
    assert s[0..] == s;
  }

  function NewlineRunEnd(s: string, i: nat): (j: nat)
    requires i <= |s|
    ensures i <= j <= |s|
    decreases |s| - i
  {
    if i < |s| && s[i] == '\n' then NewlineRunEnd(s, i + 1) else i
  }

  /** `re.sub(r'\n+', ' ', s)`. */
  function CollapseNewlines(s: string): string
    decreases |s|
  {
    if s == [] then []
    else if s[0] == '\n' then " " + CollapseNewlines(s[NewlineRunEnd(s, 0)..])
    else [s[0]] + CollapseNewlines(s[1..])
  }

  /** Once whitespace runs are collapsed no newline is left, so the second substitution
      of `clean_text` changes nothing. */
  lemma {:induction false} CollapseNewlinesNoop(s: string)
    requires '\n' !in s
    ensures CollapseNewlines(s) == s
    decreases |s|
  {
    if s != [] {
      assert s[0] in s;
      assert '\n' !in s[1..] by { assert forall k :: 0 <= k < |s| - 1 ==> s[1..][k] == s[k + 1]; }
      CollapseNewlinesNoop(s[1..]);
    }
  }

  /** Characters kept by `re.sub(r'[^\w\s.!?가-힣]', '', s)`. */
  predicate IsKept(c: char) {
    IsWordChar(c) || IsSpace(c) || IsTerminator(c) || IsHangul(c)
  }

  /** The filter keeps, in order, exactly the occurrences of allowed characters. */
  function KeepAllowed(s: string): (r: string)
    ensures Subseq(r, s)
    ensures forall c :: c in r ==> IsKept(c) && c in s
    ensures forall c :: Count(r, c) == if IsKept(c) then Count(s, c) else 0
    decreases |s|
  {
    if s == [] then []
    else
      var init := s[..|s| - 1];
      var c := s[|s| - 1];
      var rest := KeepAllowed(init);
      assert s == init + [c];
      CountSnoc(init, c);
      if IsKept(c) then
        SubseqExtend(rest, init, c);
        SubseqMembers(rest + [c], s);
        CountSnoc(rest, c);
        rest + [c]
      else
        SubseqWeaken(rest, init, c);
        SubseqMembers(rest, s);
        rest
  }

  /** `clean_text`. */
  function CleanText(text: string): string {
    Strip(KeepAllowed(CollapseNewlines(CollapseWhitespace(text))))
  }

  lemma StripMembers(s: string)
    ensures forall c :: c in Strip(s) ==> c in s
  {
    var i, j :| 0 <= i <= j <= |s| && Strip(s) == s[i..j];
    forall c | c in Strip(s) ensures c in s {
      var k :| 0 <= k < |Strip(s)| && Strip(s)[k] == c;
      assert s[i + k] == c;
    }
  }

  /** The only whitespace left after `re.sub(r'\s+', ' ', …)` is the plain space. */
  lemma {:induction false} CollapsedSpaces(text: string)
    ensures forall c :: c in CollapseWhitespace(text) && IsSpace(c) ==> c == ' '
    decreases |text|
  {
    if text != [] {
      if IsSpace(text[0]) {
        CollapsedSpaces(text[SpaceRunEnd(text, 0)..]);
      } else {
        CollapsedSpaces(text[1..]);
      }
    }
  }

  /** The newline substitution changes nothing. The cleaned text has no whitespace at
      either end, and consists only of word characters, plain spaces, `.`, `!` and `?`
      (so no newline or tab is left). */
  lemma CleanTextShape(text: string)
    ensures CleanText(text) == Strip(KeepAllowed(CollapseWhitespace(text)))
    ensures IsStripped(CleanText(text))
    ensures forall c :: c in CleanText(text) ==> IsWordChar(c) || c == ' ' || IsTerminator(c)
  {
    var a := CollapseWhitespace(text);
    CollapsedSpaces(text);
    assert '\n' !in a;
    CollapseNewlinesNoop(a);
    var b := KeepAllowed(a);
    StripMembers(b);
  }
}
