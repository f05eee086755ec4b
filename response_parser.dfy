/** `_parse_flashcards` of src/Service/flashcard_generator_service.py (and of
    Anki_flashcards_creator.py): the LLM's reply is cut into blocks at runs of three or
    more hyphens, and each block yields a card when it carries a `Q:` and an `A:` field. */
module ResponseParser {
  import opened Common
  import opened Flashcards

  // ---------------------------------------------------------------------------
  // re.split(r'---+', response)
  // ---------------------------------------------------------------------------

  predicate TripleHyphenAt(s: string, i: nat) {
    i + 3 <= |s| && s[i] == '-' && s[i + 1] == '-' && s[i + 2] == '-'
  }

  function HyphenRunEnd(s: string, i: nat): (j: nat)
    requires i <= |s|
    ensures i <= j <= |s|
    ensures forall k :: i <= k < j ==> s[k] == '-'
    ensures j == |s| || s[j] != '-'
    decreases |s| - i
  {
    if i < |s| && s[i] == '-' then HyphenRunEnd(s, i + 1) else i
  }

  /** Pieces of `s[start..]`, where `i` scans for the next run of three hyphens. */
  function BlocksFrom(s: string, start: nat, i: nat): (r: seq<string>)
    requires start <= i <= |s|
    ensures |r| == |BlockSeparatorsFrom(s, start, i)| + 1
    decreases |s| - i
  {
    if i == |s| then [s[start..]]
    else if TripleHyphenAt(s, i) then
      var j := HyphenRunEnd(s, i);
      [s[start..i]] + BlocksFrom(s, j, j)
    else BlocksFrom(s, start, i + 1)
  }

  /** Three or more hyphens. */
  predicate IsHyphenRun(q: string) {
    |q| >= 3 && forall k :: 0 <= k < |q| ==> q[k] == '-'
  }

  /** The hyphen runs the split consumes. */
  function BlockSeparatorsFrom(s: string, start: nat, i: nat): (r: seq<string>)
    requires start <= i <= |s|
    ensures forall q :: q in r ==> IsHyphenRun(q)
    decreases |s| - i
  {
    if i == |s| then []
    else if TripleHyphenAt(s, i) then
      var j := HyphenRunEnd(s, i);
      [s[i..j]] + BlockSeparatorsFrom(s, j, j)
    else BlockSeparatorsFrom(s, start, i + 1)
  }

  /** No run of three hyphens inside a piece. */
  predicate NoSeparatorInside(p: string) {
    forall k :: 0 <= k < |p| ==> !TripleHyphenAt(p, k)
  }

  lemma {:induction false} BlocksFromWeave(s: string, start: nat, i: nat)
    requires start <= i <= |s|
    ensures Weave(BlocksFrom(s, start, i), BlockSeparatorsFrom(s, start, i)) == s[start..]
    decreases |s| - i
  {
    if i == |s| {
    } else if TripleHyphenAt(s, i) {
      var j := HyphenRunEnd(s, i);
      BlocksFromWeave(s, j, j);
      WeaveCons(s[start..i], s[i..j], BlocksFrom(s, j, j), BlockSeparatorsFrom(s, j, j));
      SliceThree(s, start, i, j);
    } else {
      BlocksFromWeave(s, start, i + 1);
    }
  }

  lemma SliceNoSeparator(s: string, start: nat, i: nat)
    requires start <= i <= |s|
    requires forall k :: start <= k < i ==> !TripleHyphenAt(s, k)
    ensures NoSeparatorInside(s[start..i])
  {
    var p := s[start..i];
    forall k | 0 <= k < |p| ensures !TripleHyphenAt(p, k) {
      assert TripleHyphenAt(p, k) ==> TripleHyphenAt(s, start + k);
    }
  }

  /** No piece holds three hyphens in a row; every piece before a separator is empty or
      does not end with a hyphen, and every piece after one is empty or does not start with
      a hyphen, so each separator is a maximal hyphen run; and every piece between two
      separators is non-empty, so no two separators are adjacent. */
  predicate BlocksShaped(r: seq<string>) {
    && (forall p :: p in r ==> NoSeparatorInside(p))
    && (forall k :: 1 <= k < |r| ==> r[k] == [] || r[k][0] != '-')
    && (forall k :: 0 <= k < |r| - 1 ==> r[k] == [] || r[k][|r[k]| - 1] != '-')
    && (forall k :: 1 <= k < |r| - 1 ==> r[k] != [])
  }

  /** A piece ends right before a hyphen run, or at the end of the text; a piece after a
      separator does not start with a hyphen, since the run is consumed whole. */
  lemma {:induction false} BlocksFromShape(s: string, start: nat, i: nat)
    requires start <= i <= |s|
    requires forall k :: start <= k < i ==> !TripleHyphenAt(s, k)
    requires start == 0 || start == |s| || s[start] != '-'
    ensures BlocksShaped(BlocksFrom(s, start, i))
    ensures start > 0 ==> BlocksFrom(s, start, i)[0] == [] || BlocksFrom(s, start, i)[0][0] != '-'
    ensures start > 0 && |BlocksFrom(s, start, i)| > 1 ==> BlocksFrom(s, start, i)[0] != []
    decreases |s| - i
  {
    if i == |s| {
      SliceNoSeparator(s, start, i);
      assert s[start..i] == s[start..];
    } else if TripleHyphenAt(s, i) {
      var j := HyphenRunEnd(s, i);
      SliceNoSeparator(s, start, i);
      PieceBeforeRun(s, start, i);
      BlocksFromShape(s, j, j);
      ConsBlocks(s[start..i], BlocksFrom(s, j, j));
    } else {
      assert BlocksFrom(s, start, i) == BlocksFrom(s, start, i + 1);
      BlocksFromShape(s, start, i + 1);
    }
  }

  /** The piece in front of the leftmost run of three hyphens does not end with a hyphen:
      otherwise three hyphens would start one position earlier. */
  lemma PieceBeforeRun(s: string, start: nat, i: nat)
    requires start <= i < |s| && TripleHyphenAt(s, i)
    requires forall k :: start <= k < i ==> !TripleHyphenAt(s, k)
    ensures s[start..i] == [] || s[start..i][i - start - 1] != '-'
  {
    if start < i {
      assert !TripleHyphenAt(s, i - 1);
    }
  }

  lemma ConsBlocks(p: string, rest: seq<string>)
    requires NoSeparatorInside(p) && |rest| >= 1
    requires p == [] || p[|p| - 1] != '-'
    requires BlocksShaped(rest) && (rest[0] == [] || rest[0][0] != '-')
    requires |rest| > 1 ==> rest[0] != []
    ensures BlocksShaped([p] + rest)
  {
    var r := [p] + rest;
    assert forall k :: 1 <= k < |r| ==> r[k] == rest[k - 1];
  }

  /** `re.split(r'---+', response)`: at least one block; no block contains three hyphens in
      a row; the separators are hyphen runs of length three or more, and putting them back
      between the blocks gives the reply. */
  function SplitBlocks(response: string): (r: seq<string>)
    ensures |r| >= 1
    ensures |r| == |BlockSeparators(response)| + 1
    ensures Weave(r, BlockSeparators(response)) == response
    ensures forall p :: p in r ==> NoSeparatorInside(p)
    ensures forall k :: 1 <= k < |r| ==> r[k] == [] || r[k][0] != '-'
    ensures forall k :: 0 <= k < |r| - 1 ==> r[k] == [] || r[k][|r[k]| - 1] != '-'
    ensures forall k :: 1 <= k < |r| - 1 ==> r[k] != []
  {
    assert response[0..] == response;
    BlocksFromWeave(response, 0, 0);
    BlocksFromShape(response, 0, 0);
    BlocksFrom(response, 0, 0)
  }

  function BlockSeparators(response: string): seq<string> {
    BlockSeparatorsFrom(response, 0, 0)
  }

  // ---------------------------------------------------------------------------
  // Field capture: LABEL\s*(.+?)(?=STOP|$) with re.DOTALL
  // ---------------------------------------------------------------------------

  predicate LabelAt(s: string, p: nat, marker: string) {
    p + |marker| <= |s| && s[p..p + |marker|] == marker
  }

  /** `$` without MULTILINE: the end of the text, or just before a final newline. */
  predicate AtEnd(s: string, k: nat) {
    k == |s| || (k + 1 == |s| && s[k] == '\n')
  }

  /** The lookahead that ends the lazy group at `k`. */
  predicate StopAt(s: string, k: nat, stop: Option<string>) {
    (stop.Some? && LabelAt(s, k, stop.value)) || AtEnd(s, k)
  }

  /** First occurrence of `marker` at or after `p`. */
  function FindLabel(s: string, marker: string, p: nat): (r: Option<nat>)
    requires p <= |s|
    ensures r.Some? ==> p <= r.value && LabelAt(s, r.value, marker)
    ensures r.Some? ==> forall q :: p <= q < r.value ==> !LabelAt(s, q, marker)
    ensures r.None? ==> forall q :: p <= q <= |s| ==> !LabelAt(s, q, marker)
    decreases |s| - p
  {
    if LabelAt(s, p, marker) then Some(p)
    else if p == |s| then None
    else FindLabel(s, marker, p + 1)
  }

  /** Smallest `k' >= k` where the lazy group may stop; the end of the text always qualifies. */
  function LazyEnd(s: string, stop: Option<string>, k: nat): (e: nat)
    requires k <= |s|
    ensures k <= e <= |s| && StopAt(s, e, stop)
    ensures forall m :: k <= m < e ==> !StopAt(s, m, stop)
    decreases |s| - k
  {
    if StopAt(s, k, stop) then k else LazyEnd(s, stop, k + 1)
  }

  /** Group 1 of `re.search(marker + r'\s*(.+?)(?=stop|$)', s, re.DOTALL)`. The search
      succeeds at the first occurrence of the marker unless the marker ends the text (then no
      later occurrence exists either). The greedy `\s*` takes the whole whitespace run; if
      that leaves no character for `.+?`, it gives back one whitespace character. */
  function Capture(s: string, marker: string, stop: Option<string>): (r: Option<string>)
    requires marker != []
  {
    match FindLabel(s, marker, 0)
    case None => None
    case Some(p) =>
      var b := p + |marker|;
      if b == |s| then None else Some(LazyGroup(s, SpaceRunEnd(s, b), stop))
  }

  /** What `\s*(.+?)(?=stop|$)` captures once the greedy `\s*` has taken the whitespace run
      ending at `j`. */
  function LazyGroup(s: string, j: nat, stop: Option<string>): (v: string)
    requires 1 <= j <= |s|
    ensures v != [] && LazyCaptured(s, j, stop, v)
  {
    if j < |s| then
      var e := LazyEnd(s, stop, j + 1);
      assert |s[j..e]| == e - j;
      s[j..e]
    else s[j - 1..j]
  }

  /** `p` is the first occurrence of `marker` in `s`. */
  predicate FirstLabel(s: string, marker: string, p: nat) {
    LabelAt(s, p, marker) && forall q :: 0 <= q < p ==> !LabelAt(s, q, marker)
  }

  /** `v` is what the search captures when it matches at the occurrence of `marker` at `p`:
      `p` is the first occurrence, some character follows it, and `v` is the lazy capture
      after the whitespace run that follows the marker. */
  predicate CapturedFrom(s: string, marker: string, stop: Option<string>, p: nat, v: string) {
    && FirstLabel(s, marker, p) && p + |marker| < |s|
    && LazyCaptured(s, SpaceRunEnd(s, p + |marker|), stop, v)
  }

  /** `v` is what `\s*(.+?)(?=stop|$)` captures once the whitespace run starting after the
      marker ends at `j`: when a character follows the run, `v` starts at `j`, is non-empty
      and ends at the first position after `j` where the look-ahead holds; when the run
      reaches the end of the text, `\s*` gives back its last character, which is `v`. */
  predicate LazyCaptured(s: string, j: nat, stop: Option<string>, v: string)
    requires j <= |s|
  {
    if j < |s| then
      && 1 <= |v| && j + |v| <= |s| && v == s[j..j + |v|]
      && StopAt(s, j + |v|, stop)
      && NoStopBetween(s, j, j + |v|, stop)
    else
      1 <= j && v == s[j - 1..j]
  }

  /** The look-ahead holds nowhere strictly between `j` and `e`. */
  predicate NoStopBetween(s: string, j: nat, e: nat, stop: Option<string>) {
    forall k :: j < k < e ==> !StopAt(s, k, stop)
  }

  /** The capture is absent exactly when the marker does not occur before the last
      position. When present, the search matched at the first occurrence of the marker, the
      greedy `\s*` took the whole whitespace run after it, and the lazy group stops at the
      first place where the look-ahead or `$` holds; the capture is never empty. */
  lemma CaptureSpec(s: string, marker: string, stop: Option<string>)
    requires marker != []
    ensures Capture(s, marker, stop).None? <==>
      forall q :: 0 <= q <= |s| && LabelAt(s, q, marker) ==> q + |marker| == |s|
    ensures Capture(s, marker, stop).Some? ==> Capture(s, marker, stop).value != []
    ensures Capture(s, marker, stop).Some? ==>
      exists p: nat :: CapturedFrom(s, marker, stop, p, Capture(s, marker, stop).value)
  {
    CaptureAbsent(s, marker, stop);
    CapturePresent(s, marker, stop);
  }

  lemma CaptureAbsent(s: string, marker: string, stop: Option<string>)
    requires marker != []
    ensures Capture(s, marker, stop).None? <==>
      forall q :: 0 <= q <= |s| && LabelAt(s, q, marker) ==> q + |marker| == |s|
  {
    match FindLabel(s, marker, 0)
    case None =>
    case Some(p) =>
      if p + |marker| == |s| {
        forall q | 0 <= q <= |s| && LabelAt(s, q, marker) ensures q + |marker| == |s| {
          assert !(q < p);
        }
      }
  }

  lemma CapturePresent(s: string, marker: string, stop: Option<string>)
    requires marker != []
    ensures Capture(s, marker, stop).Some? ==> Capture(s, marker, stop).value != []
    ensures Capture(s, marker, stop).Some? ==>
      exists p: nat :: CapturedFrom(s, marker, stop, p, Capture(s, marker, stop).value)
  {
    if Capture(s, marker, stop).Some? {
      CaptureFound(s, marker, stop);
      CaptureAtFirst(s, marker, stop, FindLabel(s, marker, 0).value);
    }
  }

  /** A capture comes from an occurrence of the marker that some character follows. */
  lemma CaptureFound(s: string, marker: string, stop: Option<string>)
    requires marker != [] && Capture(s, marker, stop).Some?
    ensures FindLabel(s, marker, 0).Some? && FindLabel(s, marker, 0).value + |marker| < |s|
  {
  }

  /** With the first occurrence at `p` followed by some character, the capture is the lazy
      capture after the whitespace run. */
  lemma CaptureAtFirst(s: string, marker: string, stop: Option<string>, p: nat)
    requires marker != []
    requires FindLabel(s, marker, 0) == Some(p) && p + |marker| < |s|
    ensures Capture(s, marker, stop).Some? && Capture(s, marker, stop).value != []
    ensures CapturedFrom(s, marker, stop, p, Capture(s, marker, stop).value)
  {
    CaptureValue(s, marker, stop, p);
    FoundIsFirst(s, marker, p);
    CapturedFromParts(s, marker, stop, p, LazyGroup(s, SpaceRunEnd(s, p + |marker|), stop));
  }

  /** The occurrence found is the first one. */
  lemma FoundIsFirst(s: string, marker: string, p: nat)
    requires FindLabel(s, marker, 0) == Some(p)
    ensures FirstLabel(s, marker, p)
  {
  }

  /** `CapturedFrom` from its parts. */
  lemma CapturedFromParts(s: string, marker: string, stop: Option<string>, p: nat, v: string)
    requires FirstLabel(s, marker, p) && p + |marker| < |s|
    requires LazyCaptured(s, SpaceRunEnd(s, p + |marker|), stop, v)
    ensures CapturedFrom(s, marker, stop, p, v)
  {
  }

  /** At a first occurrence followed by some character, the search captures the lazy group
      after the whitespace run. */
  lemma CaptureValue(s: string, marker: string, stop: Option<string>, p: nat)
    requires marker != []
    requires FindLabel(s, marker, 0) == Some(p) && p + |marker| < |s|
    ensures Capture(s, marker, stop) == Some(LazyGroup(s, SpaceRunEnd(s, p + |marker|), stop))
  {
  }

  /** `[,，]`: an ASCII or a full-width comma. */
  predicate IsTagSeparator(c: char) {
    c == ',' || c == '\U{ff0c}'
  }

  /** Index of the first comma (ASCII or full-width). */
  function FirstTagSeparator(s: string): (k: nat)
    requires exists m :: 0 <= m < |s| && IsTagSeparator(s[m])
    ensures k < |s| && IsTagSeparator(s[k])
    ensures forall m :: 0 <= m < k ==> !IsTagSeparator(s[m])
  {
    if IsTagSeparator(s[0]) then 0
    else
      assert exists m :: 0 <= m < |s[1..]| && IsTagSeparator(s[1..][m]) by {
        var m :| 0 <= m < |s| && IsTagSeparator(s[m]);
        assert s[1..][m - 1] == s[m];
      }
      1 + FirstTagSeparator(s[1..])
  }

  predicate NoTagSeparator(s: string) {
    forall m :: 0 <= m < |s| ==> !IsTagSeparator(s[m])
  }

  /** The commas of `s`, in order, each as a one-character string. */
  function TagSeps(s: string): (r: seq<string>)
    ensures forall t :: t in r ==> |t| == 1 && IsTagSeparator(t[0])
    decreases |s|
  {
    if s == [] then []
    else (if IsTagSeparator(s[0]) then [[s[0]]] else []) + TagSeps(s[1..])
  }

  lemma {:induction false} NoTagSeps(s: string)
    requires NoTagSeparator(s)
    ensures TagSeps(s) == []
    decreases |s|
  {
    if s != [] {
      assert NoTagSeparator(s[1..]) by {
        forall m | 0 <= m < |s[1..]| ensures !IsTagSeparator(s[1..][m]) { assert s[1..][m] == s[m + 1]; }
      }
      NoTagSeps(s[1..]);
    }
  }

  /** The commas of `s` are its first comma, at `k`, followed by the commas after it. */
  lemma {:induction false} TagSepsAtFirst(s: string, k: nat)
    requires k < |s| && IsTagSeparator(s[k])
    requires forall m :: 0 <= m < k ==> !IsTagSeparator(s[m])
    ensures TagSeps(s) == [[s[k]]] + TagSeps(s[k + 1..])
    decreases k
  {
    if k > 0 {
      assert !IsTagSeparator(s[0]);
      forall m | 0 <= m < k - 1 ensures !IsTagSeparator(s[1..][m]) { assert s[1..][m] == s[m + 1]; }
      TagSepsAtFirst(s[1..], k - 1);
      assert s[1..][k - 1] == s[k];
      assert s[1..][k..] == s[k + 1..];
    }
  }

  /** `re.split(r'[,，]', s)`: the pieces between commas, one more than there are commas,
      which put back between the pieces give `s` again. */
  function SplitTagText(s: string): (r: seq<string>)
    ensures |r| == |TagSeps(s)| + 1
    ensures Weave(r, TagSeps(s)) == s
    ensures forall p :: p in r ==> NoTagSeparator(p)
    decreases |s|
  {
    if NoTagSeparator(s) then
      NoTagSeps(s);
      [s]
    else
      var k := FirstTagSeparator(s);
      var rest := SplitTagText(s[k + 1..]);
      SplitAtFirstTag(s, k, rest);
      BeforeFirstTag(s, k);
      [s[..k]] + rest
  }

  /** Cutting at the first comma `k` in front of the pieces of the text after it gives
      pieces that the commas of `s` weave back into `s`. */
  lemma SplitAtFirstTag(s: string, k: nat, rest: seq<string>)
    requires k < |s| && IsTagSeparator(s[k])
    requires forall m :: 0 <= m < k ==> !IsTagSeparator(s[m])
    requires |rest| == |TagSeps(s[k + 1..])| + 1 && Weave(rest, TagSeps(s[k + 1..])) == s[k + 1..]
    ensures |[s[..k]] + rest| == |TagSeps(s)| + 1
    ensures Weave([s[..k]] + rest, TagSeps(s)) == s
  {
    TagSepsAtFirst(s, k);
    calc {
      Weave([s[..k]] + rest, TagSeps(s));
    ==
      Weave([s[..k]] + rest, [[s[k]]] + TagSeps(s[k + 1..]));
    == { WeaveCons(s[..k], [s[k]], rest, TagSeps(s[k + 1..])); }
      s[..k] + [s[k]] + s[k + 1..];
    == { CutAt(s, k); }
      s;
    }
  }

  lemma CutAt(s: string, k: nat)
    requires k < |s|
    ensures s[..k] + [s[k]] + s[k + 1..] == s
  {
  }

  /** The text before the first comma holds no comma. */
  lemma BeforeFirstTag(s: string, k: nat)
    requires k <= |s| && forall m :: 0 <= m < k ==> !IsTagSeparator(s[m])
    ensures NoTagSeparator(s[..k])
  {
    forall m | 0 <= m < k ensures !IsTagSeparator(s[..k][m]) { assert s[..k][m] == s[m]; }
  }

  function StripAll(ts: seq<string>): (r: seq<string>)
    ensures |r| == |ts|
    ensures forall k :: 0 <= k < |r| ==> r[k] == Strip(ts[k])
    decreases |ts|
  {
    if ts == [] then [] else [Strip(ts[0])] + StripAll(ts[1..])
  }

  /** The tag list of a block: the stripped comma-separated pieces of the `Tags:` field,
      or none when the block has no such field. */
  function BlockTags(block: string): seq<string> {
    match Capture(block, "Tags:", None)
    case None => []
    case Some(t) => StripAll(SplitTagText(Strip(t)))
  }

  /** The provenance tag, added when the metadata names a non-empty file. */
  function SourceTags(fileName: Option<string>): seq<string> {
    if fileName.Some? && fileName.value != "" then ["source:" + fileName.value] else []
  }

  /** One iteration of the parsing loop: a card for a non-blank block with both a `Q:` and
      an `A:` field. */
  function ParseBlock(block: string, fileName: Option<string>): Option<Flashcard> {
    if Strip(block) == [] then None
    else
      var q := Capture(block, "Q:", Some("A:"));
      var a := Capture(block, "A:", Some("Tags:"));
      if q.None? || a.None? then None
      else Some(Flashcard(Strip(q.value), Strip(a.value), BlockTags(block) + SourceTags(fileName), ""))
  }

  /** Cards of the blocks, in block order. */
  function ParseBlocks(blocks: seq<string>, fileName: Option<string>): seq<Flashcard>
    decreases |blocks|
  {
    if blocks == [] then []
    else
      ParseBlocks(blocks[..|blocks| - 1], fileName) + CardsOf(ParseBlock(blocks[|blocks| - 1], fileName))
  }

  function CardsOf(card: Option<Flashcard>): seq<Flashcard> {
    if card.Some? then [card.value] else []
  }

  lemma ParseBlocksStep(blocks: seq<string>, i: nat, fileName: Option<string>)
    requires i < |blocks|
    ensures ParseBlocks(blocks[..i + 1], fileName) == ParseBlocks(blocks[..i], fileName) + CardsOf(ParseBlock(blocks[i], fileName))
  {
    assert blocks[..i + 1][..i] == blocks[..i];
  }

  /** `_parse_flashcards`: one pass over the blocks. */
  method ParseFlashcards(response: string, fileName: Option<string>) returns (cards: seq<Flashcard>)
    ensures cards == ParseBlocks(SplitBlocks(response), fileName)
  {
    var blocks := SplitBlocks(response);
    cards := [];
    for i := 0 to |blocks|
      invariant cards == ParseBlocks(blocks[..i], fileName)
    {
      ParseBlocksStep(blocks, i, fileName);
      var card := ParseBlock(blocks[i], fileName);
      if card.Some? {
        cards := cards + [card.value];
      }
    }
    assert blocks[..|blocks|] == blocks;
  }

  /** Properties every parsed card has. */
  ghost predicate WellFormedCard(c: Flashcard, fileName: Option<string>) {
    && IsStripped(c.question) && IsStripped(c.answer) && c.notes == ""
    && (forall k :: 0 <= k < |c.tags| - |SourceTags(fileName)| ==> IsStripped(c.tags[k]))
    && |c.tags| >= |SourceTags(fileName)|
    && c.tags[|c.tags| - |SourceTags(fileName)|..] == SourceTags(fileName)
  }

  /** No more cards than blocks; every card is the card of one of the blocks, every block
      that yields a card contributes it, and every card is well formed. */
  lemma ParseBlocksSpec(blocks: seq<string>, fileName: Option<string>)
    ensures |ParseBlocks(blocks, fileName)| <= |blocks|
    ensures forall c :: c in ParseBlocks(blocks, fileName) ==>
      exists b :: b in blocks && ParseBlock(b, fileName) == Some(c)
    ensures forall b :: b in blocks && ParseBlock(b, fileName).Some? ==>
      ParseBlock(b, fileName).value in ParseBlocks(blocks, fileName)
    ensures forall c :: c in ParseBlocks(blocks, fileName) ==> WellFormedCard(c, fileName)
  {
    ParseBlocksShape(blocks, fileName);
    ParseBlocksOrigin(blocks, fileName);
  }

  lemma {:induction false} ParseBlocksShape(blocks: seq<string>, fileName: Option<string>)
    ensures |ParseBlocks(blocks, fileName)| <= |blocks|
    ensures forall c :: c in ParseBlocks(blocks, fileName) ==> WellFormedCard(c, fileName)
    decreases |blocks|
  {
    if blocks != [] {
      var last := blocks[|blocks| - 1];
      ParseBlocksShape(blocks[..|blocks| - 1], fileName);
      if ParseBlock(last, fileName).Some? {
        ParseBlockWellFormed(last, fileName);
      }
    }
  }

  lemma {:induction false} ParseBlocksOrigin(blocks: seq<string>, fileName: Option<string>)
    ensures forall c :: c in ParseBlocks(blocks, fileName) ==>
      exists b :: b in blocks && ParseBlock(b, fileName) == Some(c)
    ensures forall b :: b in blocks && ParseBlock(b, fileName).Some? ==>
      ParseBlock(b, fileName).value in ParseBlocks(blocks, fileName)
    decreases |blocks|
  {
    if blocks != [] {
      var init := blocks[..|blocks| - 1];
      var last := blocks[|blocks| - 1];
      ParseBlocksOrigin(init, fileName);
      var cards := ParseBlocks(blocks, fileName);
      var earlier := ParseBlocks(init, fileName);
      assert cards == earlier + CardsOf(ParseBlock(last, fileName));
      assert blocks == init + [last];
      forall c | c in cards ensures exists b :: b in blocks && ParseBlock(b, fileName) == Some(c) {
        if c !in earlier {
          assert ParseBlock(last, fileName) == Some(c);
        }
      }
      forall b | b in blocks && ParseBlock(b, fileName).Some?
        ensures ParseBlock(b, fileName).value in cards
      {
        if b != last {
          assert b in init;
        }
      }
    }
  }

  /** A parsed card holds the stripped `Q:` and `A:` captures, the block's tags followed by
      the provenance tag, and no notes; hence it is well formed. */
  lemma ParseBlockWellFormed(block: string, fileName: Option<string>)
    requires ParseBlock(block, fileName).Some?
    ensures var c := ParseBlock(block, fileName).value;
      && Capture(block, "Q:", Some("A:")).Some? && Capture(block, "A:", Some("Tags:")).Some?
      && c.question == Strip(Capture(block, "Q:", Some("A:")).value)
      && c.answer == Strip(Capture(block, "A:", Some("Tags:")).value)
      && c.tags == BlockTags(block) + SourceTags(fileName)
    ensures WellFormedCard(ParseBlock(block, fileName).value, fileName)
  {
    var c := ParseBlock(block, fileName).value;
    var bt := BlockTags(block);
    assert c.tags == bt + SourceTags(fileName);
    assert c.tags[|bt|..] == SourceTags(fileName);
    forall k | 0 <= k < |bt| ensures IsStripped(c.tags[k]) {
      assert c.tags[k] == bt[k];
    }
  }

  /** A block yields a card exactly when it is not blank and both the `Q:` and the `A:`
      capture succeed. */
  lemma ParseBlockSome(block: string, fileName: Option<string>)
    ensures ParseBlock(block, fileName).Some? <==>
      HasNonSpace(block) && Capture(block, "Q:", Some("A:")).Some? && Capture(block, "A:", Some("Tags:")).Some?
  {
    assert Strip(block) == [] <==> AllSpace(block);
  }

  /** A block without `A:` is skipped. */
  lemma NoAnswerNoCard(block: string, fileName: Option<string>)
    requires forall q :: 0 <= q <= |block| ==> !LabelAt(block, q, "A:")
    ensures ParseBlock(block, fileName).None?
  {
    assert FindLabel(block, "A:", 0).None?;
  }

  /** A block without `Tags:` gets only the provenance tag. */
  lemma NoTagsField(block: string, fileName: Option<string>)
    requires forall q :: 0 <= q <= |block| ==> !LabelAt(block, q, "Tags:")
    requires ParseBlock(block, fileName).Some?
    ensures ParseBlock(block, fileName).value.tags == SourceTags(fileName)
  {
    assert FindLabel(block, "Tags:", 0).None?;
  }

  /** An empty or space-only `Tags:` field still yields one empty tag. */
  lemma BlankTagsField(t: string)
    requires AllSpace(t)
    ensures StripAll(SplitTagText(Strip(t))) == [""]
  {
    assert NoTagSeparator([]);
  }
}
