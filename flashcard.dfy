/** The flashcard entity of src/Entity/flashcard.py (and its copy in
    Anki_flashcards_creator.py): the card itself, its Anki line, its validity test and
    its quality score, which asks an external judge for a 0-10 mark. */
module Flashcards {
  import opened Common

  datatype Flashcard = Flashcard(question: string, answer: string, tags: seq<string>, notes: string)

  /** Construction with optional arguments: an omitted `tags` (or, in the legacy class, an
      explicit `None`, which `__post_init__` replaces) gives no tags, an omitted `notes`
      gives empty notes. */
  function NewFlashcard(question: string, answer: string, tags: Option<seq<string>>, notes: Option<string>): (c: Flashcard)
    ensures c.question == question && c.answer == answer
    ensures tags.None? ==> c.tags == []
    ensures tags.Some? ==> c.tags == tags.value
    ensures notes.None? ==> c.notes == ""
    ensures notes.Some? ==> c.notes == notes.value
  {
    Flashcard(question, answer, if tags.Some? then tags.value else [], if notes.Some? then notes.value else "")
  }

  /** A card built from a question and an answer alone has no tags and empty notes. */
  lemma BareCardDefaults(question: string, answer: string)
    ensures NewFlashcard(question, answer, None, None).tags == []
    ensures NewFlashcard(question, answer, None, None).notes == ""
    ensures ToAnkiFormat(NewFlashcard(question, answer, None, None)) == question + "\t" + answer + "\t"
  {
  }

  /** `is_valid`: both question and answer are non-empty once stripped. */
  predicate IsValid(c: Flashcard) {
    Strip(c.question) != [] && Strip(c.answer) != []
  }

  predicate HasNonSpace(s: string) {
    exists k :: 0 <= k < |s| && !IsSpace(s[k])
  }

  /** A card is valid exactly when question and answer each hold a non-whitespace character. */
  lemma IsValidIff(c: Flashcard)
    ensures IsValid(c) <==> HasNonSpace(c.question) && HasNonSpace(c.answer)
  {
    assert Strip(c.question) == [] <==> AllSpace(c.question);
    assert Strip(c.answer) == [] <==> AllSpace(c.answer);
  }

  /** `to_anki_format`: question, answer and the space-joined tags, separated by tabs. */
  function ToAnkiFormat(c: Flashcard): string {
    c.question + "\t" + c.answer + "\t" + JoinWith(" ", c.tags)
  }

  predicate TabFree(s: string) { '\t' !in s }

  /** The inverse of `ToAnkiFormat` on lines of exactly three tab-separated fields. */
  function ParseAnkiLine(line: string): Option<Flashcard> {
    var fields := SplitOn(line, '\t');
    if |fields| != 3 then None
    else Some(Flashcard(fields[0], fields[1], if fields[2] == [] then [] else SplitOn(fields[2], ' '), ""))
  }

  /** An Anki line always has three fields when question, answer and tags hold no tab: the
      tag field is empty exactly when there are no tags. */
  lemma {:induction false} AnkiFields(c: Flashcard)
    requires TabFree(c.question) && TabFree(c.answer) && forall t :: t in c.tags ==> TabFree(t)
    ensures SplitOn(ToAnkiFormat(c), '\t') == [c.question, c.answer, JoinWith(" ", c.tags)]
  {
    var t := JoinWith(" ", c.tags);
    if '\t' in t {
      JoinWithChars(" ", c.tags, '\t');
    }
    var parts := [c.question, c.answer, t];
    assert JoinWith("\t", parts) == ToAnkiFormat(c) by {
      assert parts[1..][1..] == [t];
      assert JoinWith("\t", parts[1..]) == c.answer + "\t" + t;
      assert JoinWith("\t", parts) == c.question + "\t" + (c.answer + "\t" + t);
    }
    SplitJoinRoundTrip(parts, '\t');
  }

  /** Reading an Anki line back gives the card, for cards whose fields are tab-free, whose
      tags are non-empty and space-free, and without notes (notes are not exported). */
  lemma AnkiRoundTrip(c: Flashcard)
    requires TabFree(c.question) && TabFree(c.answer)
    requires forall t :: t in c.tags ==> t != [] && TabFree(t) && ' ' !in t
    requires c.notes == ""
    ensures ParseAnkiLine(ToAnkiFormat(c)) == Some(c)
  {
    AnkiFields(c);
    TagFieldRoundTrip(c.tags);
  }

  /** The tag field reads back as the tags: empty for no tags, split on spaces otherwise. */
  lemma TagFieldRoundTrip(tags: seq<string>)
    requires forall t :: t in tags ==> t != [] && ' ' !in t
    ensures (if JoinWith(" ", tags) == [] then [] else SplitOn(JoinWith(" ", tags), ' ')) == tags
  {
    if tags != [] {
      SplitJoinRoundTrip(tags, ' ');
      assert tags[0] in tags;
      assert JoinWith(" ", tags) != [] by { JoinWithFirst(tags); }
    }
  }

  lemma JoinWithFirst(parts: seq<string>)
    requires |parts| >= 1
    ensures |JoinWith(" ", parts)| >= |parts[0]|
  {
  }

  /** A card without tags ends in a tab. */
  lemma AnkiNoTagsTrailingTab(c: Flashcard)
    requires c.tags == []
    ensures ToAnkiFormat(c) == c.question + "\t" + c.answer + "\t"
  {
  }

  // ---------------------------------------------------------------------------
  // calculate_quality_score
  // ---------------------------------------------------------------------------

  /** What the judge did with the validation prompt: it raised, or it replied. */
  datatype JudgeReply = Raised | Replied(text: string)

  const JudgeSystemPrompt: string := "당신은 교육 콘텐츠 품질 평가 전문가입니다."

  /** The fixed pieces of the scoring request around the question and the answer. */
  const ScoringHead: string := "\n다음 플래시카드의 품질을 0-10 점수로 평가해주세요.\n\n질문: "
  const ScoringMiddle: string := "\n답변: "
  const ScoringTail: string := "\n\n평가 기준:\n- 질문이 명확하고 구체적인가?\n- 답변이 질문에 정확히 대답하는가?\n"
    + "- 답변이 의미있고 학습에 도움이 되는가?\n"
    + "- 답변이 \"모르겠다\", \"언급되지 않음\" 같은 무의미한 내용인가?\n\n"
    + "점수만 숫자로 답변하세요 (예: 8).\n"

  /** The user message sent to the judge: the scoring request with the card's question and
      answer embedded. */
  function ValidationPrompt(c: Flashcard): string {
    ScoringHead + c.question + ScoringMiddle + c.answer + ScoringTail
  }

  /** The judge sees the card's question and answer. */
  lemma ValidationPromptEmbedsCard(c: Flashcard)
    ensures IsInfix(c.question, ValidationPrompt(c)) && IsInfix(c.answer, ValidationPrompt(c))
  {
    SlotsEmbedded(ScoringHead, c.question, ScoringMiddle, c.answer, ScoringTail);
  }

  /** Fixed pieces `a`, `c`, `e` around slots `b` and `d`: both slots occur in the whole. */
  lemma SlotsEmbedded(a: string, b: string, c: string, d: string, e: string)
    ensures IsInfix(b, a + b + c + d + e) && IsInfix(d, a + b + c + d + e)
  {
    var p := a + b + c + d + e;
    assert p[|a|..|a| + |b|] == b;
    assert p[|a| + |b| + |c|..|a| + |b| + |c| + |d|] == d;
  }

  /** End of the digit run starting at `i`. */
  function DigitRunEnd(s: string, i: nat): (j: nat)
    requires i <= |s|
    ensures i <= j <= |s|
    ensures forall k :: i <= k < j ==> IsDigit(s[k])
    ensures j == |s| || !IsDigit(s[j])
    decreases |s| - i
  {
    if i < |s| && IsDigit(s[i]) then DigitRunEnd(s, i + 1) else i
  }

  /** Index of the first digit at or after `i`. */
  function FirstDigitFrom(s: string, i: nat): (r: Option<nat>)
    requires i <= |s|
    ensures r.Some? ==> i <= r.value < |s| && IsDigit(s[r.value])
    ensures r.Some? ==> forall k :: i <= k < r.value ==> !IsDigit(s[k])
    ensures r.None? ==> forall k :: i <= k < |s| ==> !IsDigit(s[k])
    decreases |s| - i
  {
    if i == |s| then None
    else if IsDigit(s[i]) then Some(i)
    else FirstDigitFrom(s, i + 1)
  }

  /** `re.search(r'\d+', s).group()`: the leftmost, longest digit run. */
  function SearchDigits(s: string): (r: Option<string>)
    ensures r.Some? ==> r.value != [] && AllDigits(r.value)
  {
    match FirstDigitFrom(s, 0)
    case None => None
    case Some(i) =>
      var d := s[i..DigitRunEnd(s, i)];
      assert AllDigits(d) by {
        forall k | 0 <= k < |d| ensures IsDigit(d[k]) { assert d[k] == s[i + k]; }
      }
      Some(d)
  }

  /** The search finds nothing exactly when there is no digit; otherwise it finds a
      non-empty maximal digit run with no digit before it. */
  lemma SearchDigitsSpec(s: string)
    ensures SearchDigits(s).None? <==> forall k :: 0 <= k < |s| ==> !IsDigit(s[k])
    ensures SearchDigits(s).Some? ==>
      exists i, j :: 0 <= i < j <= |s| && s[i..j] == SearchDigits(s).value
        && AllDigits(s[i..j]) && (forall k :: 0 <= k < i ==> !IsDigit(s[k]))
        && (j == |s| || !IsDigit(s[j]))
  {
    match FirstDigitFrom(s, 0)
    case None =>
    case Some(i) =>
      var j := DigitRunEnd(s, i);
  }

  /** `min(max(x, 0.0), 1.0)`. */
  function Clamp01(x: real): real {
    if x < 0.0 then 0.0 else if x > 1.0 then 1.0 else x
  }

  /** Score read from a reply: the first number divided by ten and clamped to [0, 1];
      0.5 when the reply holds no digit. */
  function ScoreFromReply(text: string): (score: real)
    ensures 0.0 <= score <= 1.0
  {
    match SearchDigits(text)
    case None => 0.5
    case Some(d) => Clamp01(DecimalValue(d) as real / 10.0)
  }

  /** `calculate_quality_score`: 0.5 without a judge or when the judge raises, else the
      score read from its reply; always within [0, 1]. */
  function QualityScore(c: Flashcard, judge: Option<string -> JudgeReply>): (score: real)
    ensures 0.0 <= score <= 1.0
    ensures judge.None? ==> score == 0.5
    ensures judge.Some? && judge.value(ValidationPrompt(c)).Raised? ==> score == 0.5
    ensures judge.Some? && judge.value(ValidationPrompt(c)).Replied? ==>
      score == ScoreFromReply(judge.value(ValidationPrompt(c)).text)
  {
    match judge
    case None => 0.5
    case Some(j) =>
      match j(ValidationPrompt(c))
      case Raised => 0.5
      case Replied(text) => ScoreFromReply(text)
  }

  /** A reply that is the decimal mark `n` scores `n / 10`, capped at 1. */
  lemma ScoreOfMark(n: nat)
    ensures ScoreFromReply(NatToString(n)) == if n >= 10 then 1.0 else n as real / 10.0
  {
    var s := NatToString(n);
    assert FirstDigitFrom(s, 0) == Some(0);
    DigitsRunToEnd(s, 0);
    assert s[0..|s|] == s;
    DecimalRoundTrip(n);
  }

  lemma {:induction false} DigitsRunToEnd(s: string, i: nat)
    requires i <= |s| && AllDigits(s)
    ensures DigitRunEnd(s, i) == |s|
    decreases |s| - i
  {
    if i < |s| {
      DigitsRunToEnd(s, i + 1);
    }
  }

  /** Text before the first digit does not change the score: "Score: 8" scores 0.8. */
  lemma ScoreIgnoresPrefix(prefix: string, n: nat)
    requires forall k :: 0 <= k < |prefix| ==> !IsDigit(prefix[k])
    ensures ScoreFromReply(prefix + NatToString(n)) == if n >= 10 then 1.0 else n as real / 10.0
  {
    var m := NatToString(n);
    var s := prefix + m;
    FirstDigitSkips(s, prefix, 0);
    assert FirstDigitFrom(s, |prefix|) == Some(|prefix|);
    DigitsRunTo(s, |prefix|, |s|);
    assert s[|prefix|..|s|] == m;
    DecimalRoundTrip(n);
  }

  /** Text after the number does not change the score either, once a non-digit ends the
      number: "8/10" scores 0.8. */
  lemma ScoreIgnoresSuffix(prefix: string, n: nat, suffix: string)
    requires forall k :: 0 <= k < |prefix| ==> !IsDigit(prefix[k])
    requires suffix == [] || !IsDigit(suffix[0])
    ensures ScoreFromReply(prefix + NatToString(n) + suffix) == if n >= 10 then 1.0 else n as real / 10.0
  {
    var m := NatToString(n);
    var s := prefix + m + suffix;
    var e := |prefix| + |m|;
    FirstDigitSkips(s, prefix, 0);
    assert s[|prefix|] == m[0];
    assert FirstDigitFrom(s, |prefix|) == Some(|prefix|);
    forall k | |prefix| <= k < e ensures IsDigit(s[k]) { assert s[k] == m[k - |prefix|]; }
    if suffix != [] { assert s[e] == suffix[0]; }
    DigitsRunTo(s, |prefix|, e);
    assert s[|prefix|..e] == m;
    DecimalRoundTrip(n);
  }

  lemma ScoreOfEightOutOfTen()
    ensures ScoreFromReply("8/10") == 0.8
  {
    assert NatToString(8) == "8";
    assert "" + NatToString(8) + "/10" == "8/10";
    ScoreIgnoresSuffix("", 8, "/10");
  }

  lemma {:induction false} FirstDigitSkips(s: string, prefix: string, i: nat)
    requires i <= |prefix| <= |s| && s[..|prefix|] == prefix
    requires forall k :: 0 <= k < |prefix| ==> !IsDigit(prefix[k])
    ensures FirstDigitFrom(s, i) == FirstDigitFrom(s, |prefix|)
    decreases |prefix| - i
  {
    if i < |prefix| {
      assert s[i] == prefix[i];
      FirstDigitSkips(s, prefix, i + 1);
    }
  }

  /** A digit run from `i` that a non-digit or the end of the text stops at `e`. */
  lemma {:induction false} DigitsRunTo(s: string, i: nat, e: nat)
    requires i <= e <= |s| && forall k :: i <= k < e ==> IsDigit(s[k])
    requires e == |s| || !IsDigit(s[e])
    ensures DigitRunEnd(s, i) == e
    decreases e - i
  {
    if i < e {
      DigitsRunTo(s, i + 1, e);
    }
  }

  /** A reply without digits scores 0.5. */
  lemma ScoreWithoutDigits(text: string)
    requires forall k :: 0 <= k < |text| ==> !IsDigit(text[k])
    ensures ScoreFromReply(text) == 0.5
  {
    SearchDigitsSpec(text);
  }

  /** The legacy score: `.group()` on a failed search raises, and the bare `except` turns
      that, like any failure of the judge, into 0.5. */
  datatype Attempted = Failed | Value(x: real)

  /** The raw reading fails exactly when the search finds no number; otherwise it is that
      number divided by ten, not yet clamped. */
  function LegacyReadScore(text: string): (r: Attempted)
    ensures r.Failed? <==> SearchDigits(text).None?
    ensures r.Value? ==> r.x == DecimalValue(SearchDigits(text).value) as real / 10.0
  {
    match FirstDigitFrom(text, 0)
    case None => Failed
    case Some(i) =>
      var d := text[i..DigitRunEnd(text, i)];
      assert AllDigits(d) by {
        forall k | 0 <= k < |d| ensures IsDigit(d[k]) { assert d[k] == text[i + k]; }
      }
      Value(DecimalValue(d) as real / 10.0)
  }

  /** The legacy `calculate_quality_score`: within [0, 1], and 0.5 without a judge, when the
      judge raises, or when the reply holds no number. */
  function LegacyQualityScore(c: Flashcard, judge: Option<string -> JudgeReply>): (score: real)
    ensures 0.0 <= score <= 1.0
    ensures judge.None? ==> score == 0.5
    ensures judge.Some? && judge.value(ValidationPrompt(c)).Raised? ==> score == 0.5
    ensures (judge.Some? && judge.value(ValidationPrompt(c)).Replied?
      && SearchDigits(judge.value(ValidationPrompt(c)).text).None?) ==> score == 0.5
  {
    match judge
    case None => 0.5
    case Some(j) =>
      match j(ValidationPrompt(c))
      case Raised => 0.5
      case Replied(text) =>
        match LegacyReadScore(text)
        case Failed => 0.5
        case Value(x) => Clamp01(x)
  }

  /** Both versions of the score agree on every card and every judge. */
  lemma LegacyScoreAgrees(c: Flashcard, judge: Option<string -> JudgeReply>)
    ensures LegacyQualityScore(c, judge) == QualityScore(c, judge)
  {
  }
}
