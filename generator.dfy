/** `FlashcardGeneratorService` of src/Service/flashcard_generator_service.py (and
    `FlashcardGenerator` / `process_pdf` of Anki_flashcards_creator.py): the registry of
    card keys, the per-section generate-parse-filter step and the document-level run
    over the first sections. The LLM service is a function from messages to the outcome
    of `call_api_with_retry`; the thread pool becomes a sequential fold in section order. */
module Generator {
  import opened Common
  import opened Flashcards
  import opened TextProcessor
  import opened ResponseParser
  import opened LlmService

  /** The registry key of a card; `hashlib.md5` of it is left out, which assumes the
      hash injective. */
  function CardKey(c: Flashcard): string {
    c.question + ":" + c.answer
  }

  /** Distinct question/answer pairs can share a key, and are then treated as duplicates. */
  lemma KeyCollision()
    ensures CardKey(Flashcard("a:b", "c", [], "")) == CardKey(Flashcard("a", "b:c", [], ""))
  {
    assert "a:b" + ":" + "c" == "a" + ":" + "b:c";
  }

  /** The judge used by `calculate_quality_score(self.llm_service)`: the service asked with
      the scoring messages; anything but a reply counts as a raise (the legacy `None`
      makes `re.search` raise). */
  function Judge(service: seq<Message> -> RetryResult): string -> JudgeReply {
    (prompt: string) =>
      match service(GeneratePrompt(JudgeSystemPrompt, prompt))
      case Returned(text) => Replied(text)
      case _ => JudgeReply.Raised
  }

  // ---------------------------------------------------------------------------
  // The filter loop of generate_cards_from_section
  // ---------------------------------------------------------------------------

  /** Accepted cards so far and the registry of keys. */
  datatype FilterState = FilterState(accepted: seq<Flashcard>, registry: set<string>)

  /** A card passes when it is valid and its score reaches the threshold. */
  predicate Passes(c: Flashcard, minQuality: real, judge: string -> JudgeReply) {
    IsValid(c) && QualityScore(c, Some(judge)) >= minQuality
  }

  /** The acceptance test of a configuration and a service, as a function value. */
  function Keep(config: LlmConfig, service: seq<Message> -> RetryResult): Flashcard -> bool {
    (c: Flashcard) => Passes(c, config.minCardQuality, Judge(service))
  }

  /** A card is kept when it passes and its key is not registered yet. */
  predicate Eligible(c: Flashcard, registry: set<string>, keep: Flashcard -> bool) {
    keep(c) && CardKey(c) !in registry
  }

  function FilterStep(st: FilterState, c: Flashcard, keep: Flashcard -> bool): FilterState {
    if Eligible(c, st.registry, keep) then FilterState(st.accepted + [c], st.registry + {CardKey(c)})
    else st
  }

  /** The loop over the parsed cards, from the registry as it was before the call. */
  function Filter(cards: seq<Flashcard>, registry: set<string>, keep: Flashcard -> bool): FilterState
    decreases |cards|
  {
    if cards == [] then FilterState([], registry)
    else FilterStep(Filter(cards[..|cards| - 1], registry, keep), cards[|cards| - 1], keep)
  }

  function Keys(cs: seq<Flashcard>): set<string> {
    set i | 0 <= i < |cs| :: CardKey(cs[i])
  }

  lemma KeysAppend(a: seq<Flashcard>, b: seq<Flashcard>)
    ensures Keys(a + b) == Keys(a) + Keys(b)
  {
    forall x | x in Keys(a + b) ensures x in Keys(a) + Keys(b) {
      var i :| 0 <= i < |a + b| && CardKey((a + b)[i]) == x;
      if i < |a| { assert (a + b)[i] == a[i]; } else { assert (a + b)[i] == b[i - |a|]; }
    }
    forall x | x in Keys(a) + Keys(b) ensures x in Keys(a + b) {
      if x in Keys(a) {
        var i :| 0 <= i < |a| && CardKey(a[i]) == x;
        assert (a + b)[i] == a[i];
      } else {
        var i :| 0 <= i < |b| && CardKey(b[i]) == x;
        assert (a + b)[|a| + i] == b[i];
      }
    }
  }

  predicate DistinctKeys(cs: seq<Flashcard>) {
    forall i, j :: 0 <= i < j < |cs| ==> CardKey(cs[i]) != CardKey(cs[j])
  }

  /** Every card of `cs` passes and carries a key outside `registry`. */
  predicate AllFresh(cs: seq<Flashcard>, registry: set<string>, keep: Flashcard -> bool) {
    forall c :: c in cs ==> keep(c) && CardKey(c) !in registry
  }

  /** The accepted cards keep their original order. */
  lemma {:induction false} FilterOrder(cards: seq<Flashcard>, registry: set<string>, keep: Flashcard -> bool)
    ensures Subseq(Filter(cards, registry, keep).accepted, cards)
    decreases |cards|
  {
    if cards != [] {
      var init := cards[..|cards| - 1];
      var c := cards[|cards| - 1];
      var st := Filter(init, registry, keep);
      FilterOrder(init, registry, keep);
      assert cards == init + [c];
      if Eligible(c, st.registry, keep) {
        SubseqExtend(st.accepted, init, c);
      } else {
        SubseqWeaken(st.accepted, init, c);
      }
    }
  }

  /** The registry grows by exactly the accepted cards' keys, so a rejected card is not
      registered. */
  lemma {:induction false} FilterRegistry(cards: seq<Flashcard>, registry: set<string>, keep: Flashcard -> bool)
    ensures Filter(cards, registry, keep).registry
      == registry + Keys(Filter(cards, registry, keep).accepted)
    decreases |cards|
  {
    if cards == [] {
      assert Keys([]) == {};
    } else {
      var init := cards[..|cards| - 1];
      var c := cards[|cards| - 1];
      var st := Filter(init, registry, keep);
      FilterRegistry(init, registry, keep);
      if Eligible(c, st.registry, keep) {
        KeysAppend(st.accepted, [c]);
        KeysSingleton(c);
      }
    }
  }

  lemma KeysSingleton(c: Flashcard)
    ensures Keys([c]) == {CardKey(c)}
  {
    assert [c][0] == c;
    assert CardKey([c][0]) in Keys([c]);
  }

  lemma FilterPrefixStep(cards: seq<Flashcard>, i: nat, registry: set<string>, keep: Flashcard -> bool)
    requires i < |cards|
    ensures Filter(cards[..i + 1], registry, keep) == FilterStep(Filter(cards[..i], registry, keep), cards[i], keep)
  {
    assert cards[..i + 1][..i] == cards[..i];
  }

  /** Every accepted card is valid, scores at least the threshold and carries a key that
      was not registered before; no two accepted cards share a key, so a duplicate later
      in the same call is rejected. */
  lemma {:induction false} FilterAccepted(cards: seq<Flashcard>, registry: set<string>, keep: Flashcard -> bool)
    ensures AllFresh(Filter(cards, registry, keep).accepted, registry, keep)
    ensures DistinctKeys(Filter(cards, registry, keep).accepted)
    decreases |cards|
  {
    if cards != [] {
      var init := cards[..|cards| - 1];
      var c := cards[|cards| - 1];
      var st := Filter(init, registry, keep);
      FilterAccepted(init, registry, keep);
      FilterRegistry(init, registry, keep);
      if Eligible(c, st.registry, keep) {
        var acc := st.accepted + [c];
        forall i, j | 0 <= i < j < |acc| ensures CardKey(acc[i]) != CardKey(acc[j]) {
          if j == |acc| - 1 {
            assert acc[i] == st.accepted[i];
            assert CardKey(acc[i]) in Keys(st.accepted);
          } else {
            assert acc[i] == st.accepted[i] && acc[j] == st.accepted[j];
          }
        }
      }
    }
  }

  /** Every card that passes ends up with its key registered: it was accepted, or a card
      with the same key was registered before it. */
  lemma {:induction false} FilterComplete(cards: seq<Flashcard>, registry: set<string>, keep: Flashcard -> bool)
    ensures forall c :: c in cards && keep(c) ==>
      CardKey(c) in Filter(cards, registry, keep).registry
    decreases |cards|
  {
    if cards != [] {
      var init := cards[..|cards| - 1];
      var c := cards[|cards| - 1];
      FilterComplete(init, registry, keep);
      FilterGrows(init, c, registry, keep);
      assert cards == init + [c];
    }
  }

  /** Of several parsed cards with the same key, the first one that passes is the one kept:
      when no earlier passing card shares the key of card `i` and the key was not
      registered before, card `i` is accepted and is the only accepted card with that key. */
  lemma FilterKeepsFirst(cards: seq<Flashcard>, i: nat, registry: set<string>, keep: Flashcard -> bool)
    requires i < |cards| && keep(cards[i]) && CardKey(cards[i]) !in registry
    requires forall j :: 0 <= j < i && keep(cards[j]) ==> CardKey(cards[j]) != CardKey(cards[i])
    ensures cards[i] in Filter(cards, registry, keep).accepted
    ensures forall d :: d in Filter(cards, registry, keep).accepted && CardKey(d) == CardKey(cards[i]) ==>
      d == cards[i]
  {
    var c := cards[i];
    var st := Filter(cards[..i], registry, keep);
    FilterRegistry(cards[..i], registry, keep);
    FilterAccepted(cards[..i], registry, keep);
    FilterOrder(cards[..i], registry, keep);
    SubseqMembers(st.accepted, cards[..i]);
    forall a | 0 <= a < |st.accepted| ensures CardKey(st.accepted[a]) != CardKey(c) {
      assert st.accepted[a] in cards[..i];
    }
    FilterPrefixStep(cards, i, registry, keep);
    FilterExtends(cards, i + 1, registry, keep);
    var acc := Filter(cards, registry, keep).accepted;
    assert Filter(cards[..i + 1], registry, keep).accepted == st.accepted + [c];
    assert acc[|st.accepted|] == c;
    FilterAccepted(cards, registry, keep);
    forall d | d in acc && CardKey(d) == CardKey(c) ensures d == c {
      var a :| 0 <= a < |acc| && acc[a] == d;
    }
  }

  /** What a prefix of the cards accepts stays accepted, in front, after the rest. */
  lemma {:induction false} FilterExtends(cards: seq<Flashcard>, k: nat, registry: set<string>, keep: Flashcard -> bool)
    requires k <= |cards|
    ensures Filter(cards[..k], registry, keep).accepted <= Filter(cards, registry, keep).accepted
    decreases |cards| - k
  {
    if k == |cards| {
      assert cards[..k] == cards;
    } else {
      FilterExtends(cards, k + 1, registry, keep);
      FilterPrefixStep(cards, k, registry, keep);
    }
  }

  lemma FilterGrows(init: seq<Flashcard>, c: Flashcard, registry: set<string>, keep: Flashcard -> bool)
    ensures Filter(init, registry, keep).registry <= Filter(init + [c], registry, keep).registry
  {
    assert (init + [c])[..|init + [c]| - 1] == init;
  }

  // ---------------------------------------------------------------------------
  // Prompts
  // ---------------------------------------------------------------------------

  /** The fixed texts of the generation messages: the system prompt of
      `_get_system_prompt` and the pieces of the `_create_generation_prompt` template
      around its three slots. */
  datatype Prompts = Prompts(system: string, head: string, concepts: string, textIntro: string, tail: string)

  const ServicePrompts: Prompts := Prompts(
    "당신은 효과적인 학습을 위한 Anki 플래시카드 전문가입니다.\n        \n        고품질 플래시카드 생성 원칙:\n        1. 하나의 개념에 하나의 카드 (최소 정보 원칙)\n        2. 명확하고 구체적인 질문\n        3. 간결하고 정확한 답변 - 반드시 텍스트에서 답을 찾을 수 있어야 함\n        4. 문맥 독립적 (카드만 봐도 이해 가능)\n        5. 능동적 회상을 유도하는 질문\n        \n        중요: 텍스트에서 명확한 답변을 찾을 수 없는 질문은 생성하지 마세요.\n        \"모르겠다\", \"언급되지 않음\", \"정의가 나와있지 않음\" 같은 답변은 금지입니다.\n        \n        형식: 각 카드는 다음 형식으로 작성\n        Q: [질문]\n        A: [답변]\n        Tags: [태그1, 태그2, ...]\n        ---",
    "다음 텍스트에서 ",
    "개의 Anki 플래시카드를 생성하세요.\n\n주요 개념: ",
    "\n\n텍스트:\n",
    "\n\n중요한 지침:\n1. 질문을 만들기 전에 텍스트에서 명확한 답변을 먼저 찾으세요\n2. 답변이 텍스트에 명시되어 있지 않으면 해당 질문을 만들지 마세요\n3. 모든 답변은 주어진 텍스트를 기반으로 해야 합니다\n4. \"모르겠다\", \"언급되지 않음\" 같은 답변은 절대 사용하지 마세요\n\n각 카드는 위에서 설명한 형식을 정확히 따라주세요.")

  /** The key-concept line: the concepts joined by ", ", or the "detect automatically"
      placeholder when there are none. */
  function ConceptLine(text: string): string {
    var concepts := ExtractKeyConcepts(text);
    if concepts != [] then JoinWith(", ", concepts) else "자동 감지"
  }

  /** `_create_generation_prompt`. */
  function GenerationPrompt(p: Prompts, cardsPerSection: int, text: string): string {
    p.head + IntToString(cardsPerSection) + p.concepts + ConceptLine(text) + p.textIntro + text + p.tail
  }

  /** The user prompt embeds the requested card count, the key-concept line and the
      section text. */
  lemma GenerationPromptEmbeds(p: Prompts, cardsPerSection: int, text: string)
    ensures IsInfix(IntToString(cardsPerSection), GenerationPrompt(p, cardsPerSection, text))
    ensures IsInfix(ConceptLine(text), GenerationPrompt(p, cardsPerSection, text))
    ensures IsInfix(text, GenerationPrompt(p, cardsPerSection, text))
  {
    TemplateEmbeds(p.head, IntToString(cardsPerSection), p.concepts, ConceptLine(text), p.textIntro, text, p.tail);
  }

  /** A template of fixed pieces `a`, `c`, `e`, `g` around slots `b`, `d`, `f` contains
      each slot. */
  lemma TemplateEmbeds(a: string, b: string, c: string, d: string, e: string, f: string, g: string)
    ensures IsInfix(b, a + b + c + d + e + f + g)
    ensures IsInfix(d, a + b + c + d + e + f + g)
    ensures IsInfix(f, a + b + c + d + e + f + g)
  {
    var p := a + b + c + d + e + f + g;
    var i0 := |a|;
    var i1 := i0 + |b| + |c|;
    var i2 := i1 + |d| + |e|;
    assert p[i0..i0 + |b|] == b;
    assert p[i1..i1 + |d|] == d;
    assert p[i2..i2 + |f|] == f;
  }

  function SectionMessages(prompts: Prompts, config: LlmConfig, text: string): seq<Message> {
    GeneratePrompt(prompts.system, GenerationPrompt(prompts, config.cardsPerSection, text))
  }

  /** `generate_cards_from_section` from a given registry: `None` when the service call
      raises (or, in the legacy client, returns `None`, which makes the parser raise). */
  function SectionSpec(registry: set<string>, text: string, fileName: Option<string>,
                       prompts: Prompts, config: LlmConfig, service: seq<Message> -> RetryResult): Option<FilterState> {
    match service(SectionMessages(prompts, config, text))
    case Returned(response) =>
      Some(Filter(ParseBlocks(SplitBlocks(response), fileName), registry, Keep(config, service)))
    case _ => None
  }

  // ---------------------------------------------------------------------------
  // The document run of generate_cards_from_pdf
  // ---------------------------------------------------------------------------

  /** Only the first three sections unless every section is asked for. */
  function SelectSections(sections: seq<string>, processAll: bool): (r: seq<string>)
    ensures processAll ==> r == sections
    ensures !processAll ==> |r| == if |sections| < 3 then |sections| else 3
    ensures r == sections[..|r|]
  {
    if processAll || |sections| <= 3 then sections else sections[..3]
  }

  /** One section: its accepted cards are appended; a raising section is skipped. */
  function DocStep(st: FilterState, section: string, fileName: Option<string>,
                   prompts: Prompts, config: LlmConfig, service: seq<Message> -> RetryResult): FilterState {
    match SectionSpec(st.registry, section, fileName, prompts, config, service)
    case None => st
    case Some(r) => FilterState(st.accepted + r.accepted, r.registry)
  }

  /** `DocStep` in terms of the section's outcome. */
  lemma DocStepOutcome(st: FilterState, section: string, fileName: Option<string>, prompts: Prompts,
                       config: LlmConfig, service: seq<Message> -> RetryResult, out: Option<FilterState>)
    requires SectionSpec(st.registry, section, fileName, prompts, config, service) == out
    ensures DocStep(st, section, fileName, prompts, config, service)
      == if out.None? then st else FilterState(st.accepted + out.value.accepted, out.value.registry)
  {
  }

  function DocFold(st: FilterState, sections: seq<string>, fileName: Option<string>,
                   prompts: Prompts, config: LlmConfig, service: seq<Message> -> RetryResult): FilterState
    decreases |sections|
  {
    if sections == [] then st
    else DocStep(DocFold(st, sections[..|sections| - 1], fileName, prompts, config, service),
                 sections[|sections| - 1], fileName, prompts, config, service)
  }

  lemma DocFoldPrefixStep(st: FilterState, sections: seq<string>, i: nat, fileName: Option<string>,
                          prompts: Prompts, config: LlmConfig, service: seq<Message> -> RetryResult)
    requires i < |sections|
    ensures DocFold(st, sections[..i + 1], fileName, prompts, config, service)
      == DocStep(DocFold(st, sections[..i], fileName, prompts, config, service), sections[i], fileName, prompts, config, service)
  {
    assert sections[..i + 1][..i] == sections[..i];
  }

  lemma {:induction false} DocFoldAppend(st: FilterState, a: seq<string>, b: seq<string>, fileName: Option<string>,
                                         prompts: Prompts, config: LlmConfig, service: seq<Message> -> RetryResult)
    ensures DocFold(st, a + b, fileName, prompts, config, service)
      == DocFold(DocFold(st, a, fileName, prompts, config, service), b, fileName, prompts, config, service)
    decreases |b|
  {
    if b == [] {
      assert a + b == a;
    } else {
      assert (a + b)[..|a + b| - 1] == a + b[..|b| - 1];
      assert (a + b)[|a + b| - 1] == b[|b| - 1];
      DocFoldAppend(st, a, b[..|b| - 1], fileName, prompts, config, service);
    }
  }

  /** A section whose generation raises contributes no card and leaves the registry, and
      hence every other section's outcome, as it was. */
  lemma FailingSectionSkipped(st: FilterState, a: seq<string>, s: string, b: seq<string>, fileName: Option<string>,
                              prompts: Prompts, config: LlmConfig, service: seq<Message> -> RetryResult)
    requires SectionSpec(DocFold(st, a, fileName, prompts, config, service).registry, s, fileName, prompts, config, service).None?
    ensures DocFold(st, a + [s] + b, fileName, prompts, config, service) == DocFold(st, a + b, fileName, prompts, config, service)
  {
    DocFoldAppend(st, a + [s], b, fileName, prompts, config, service);
    DocFoldAppend(st, a, [s], fileName, prompts, config, service);
    DocFoldAppend(st, a, b, fileName, prompts, config, service);
    assert [s][..0] == [];
  }

  /** Across the whole document: every collected card is valid and scores at least the
      threshold, none was registered before the run, no two collected cards share a key,
      and the registry grows by exactly the collected cards' keys. */
  ghost predicate DocPost(registry0: set<string>, keep: Flashcard -> bool, st: FilterState) {
    && st.registry == registry0 + Keys(st.accepted)
    && AllFresh(st.accepted, registry0, keep)
    && DistinctKeys(st.accepted)
  }

  lemma {:induction false} DocFoldSpec(registry0: set<string>, sections: seq<string>, fileName: Option<string>,
                                       prompts: Prompts, config: LlmConfig, service: seq<Message> -> RetryResult)
    ensures DocPost(registry0, Keep(config, service),
                    DocFold(FilterState([], registry0), sections, fileName, prompts, config, service))
    decreases |sections|
  {
    var st0 := FilterState([], registry0);
    if sections == [] {
      assert Keys([]) == {};
    } else {
      var init := sections[..|sections| - 1];
      var s := sections[|sections| - 1];
      var st := DocFold(st0, init, fileName, prompts, config, service);
      DocFoldSpec(registry0, init, fileName, prompts, config, service);
      var reply := service(SectionMessages(prompts, config, s));
      if reply.Returned? {
        var cards := ParseBlocks(SplitBlocks(reply.text), fileName);
        FilterRegistry(cards, st.registry, Keep(config, service));
        FilterAccepted(cards, st.registry, Keep(config, service));
        DocStepCombine(registry0, Keep(config, service), st,
                       Filter(cards, st.registry, Keep(config, service)));
      }
    }
  }

  lemma DocStepCombine(registry0: set<string>, keep: Flashcard -> bool, st: FilterState, r: FilterState)
    requires DocPost(registry0, keep, st)
    requires r.registry == st.registry + Keys(r.accepted)
    requires AllFresh(r.accepted, st.registry, keep)
    requires DistinctKeys(r.accepted)
    ensures DocPost(registry0, keep, FilterState(st.accepted + r.accepted, r.registry))
  {
    var all := st.accepted + r.accepted;
    var n := |st.accepted|;
    KeysAppend(st.accepted, r.accepted);
    forall c | c in all ensures keep(c) && CardKey(c) !in registry0 {
      if c !in st.accepted { assert c in r.accepted; }
    }
    forall i, j | 0 <= i < j < |all| ensures CardKey(all[i]) != CardKey(all[j]) {
      if j >= n {
        assert all[j] == r.accepted[j - n];
        assert all[j] in r.accepted;
        if i < n {
          assert all[i] == st.accepted[i];
          assert CardKey(all[i]) in Keys(st.accepted);
        } else {
          assert all[i] == r.accepted[i - n];
        }
      } else {
        assert all[i] == st.accepted[i] && all[j] == st.accepted[j];
      }
    }
  }

  /** The service as `call_api_with_retry` over a backend whose per-attempt outcomes
      depend on the messages sent. */
  function RetryingService(config: LlmConfig, backend: seq<Message> -> ((Request, nat) -> CallOutcome),
                           variant: Variant): seq<Message> -> RetryResult {
    (messages: seq<Message>) => Retry(config, messages, backend(messages), variant).result
  }

  lemma UnsupportedNeverReturns(config: LlmConfig, messages: seq<Message>, respond: (Request, nat) -> CallOutcome, variant: Variant)
    requires !SupportedProvider(config.provider)
    ensures !Retry(config, messages, respond, variant).result.Returned?
  {
    BuildRequestSpec(config.provider, messages);
    RetryReturnsFirstSuccess(config, messages, respond, variant);
  }

  /** With an unsupported provider name every section's call raises (or, in the legacy
      client, yields `None`), so a document run collects no card and registers no key. */
  lemma {:induction false} UnsupportedProviderCollectsNothing(registry0: set<string>, sections: seq<string>, fileName: Option<string>,
                                                              prompts: Prompts, config: LlmConfig, backend: seq<Message> -> ((Request, nat) -> CallOutcome),
                                                              variant: Variant)
    requires !SupportedProvider(config.provider)
    ensures DocFold(FilterState([], registry0), sections, fileName, prompts, config, RetryingService(config, backend, variant))
      == FilterState([], registry0)
    decreases |sections|
  {
    if sections != [] {
      var s := sections[|sections| - 1];
      UnsupportedProviderCollectsNothing(registry0, sections[..|sections| - 1], fileName, prompts, config, backend, variant);
      var messages := SectionMessages(prompts, config, s);
      UnsupportedNeverReturns(config, messages, backend(messages), variant);
    }
  }

  // ---------------------------------------------------------------------------
  // The service object
  // ---------------------------------------------------------------------------

  class FlashcardGenerator {
    /** The texts of `_get_system_prompt` and `_create_generation_prompt`. */
    const prompts: Prompts
    const config: LlmConfig
    const service: seq<Message> -> RetryResult
    /** `generated_cards`: keys of every card accepted so far. */
    var generated: set<string>

    constructor(config: LlmConfig, service: seq<Message> -> RetryResult)
      ensures prompts == ServicePrompts
      ensures this.config == config && this.service == service && generated == {}
    {
      prompts := ServicePrompts;
      this.config := config;
      this.service := service;
      generated := {};
    }

    /** `_is_unique`. */
    predicate IsUnique(card: Flashcard)
      reads this
    {
      CardKey(card) !in generated
    }

    /** `_add_to_generated`: afterwards no card with the same question and answer is unique. */
    method AddToGenerated(card: Flashcard)
      modifies this
      ensures generated == old(generated) + {CardKey(card)}
      ensures forall d: Flashcard :: d.question == card.question && d.answer == card.answer ==> !IsUnique(d)
    {
      generated := generated + {CardKey(card)};
    }

    /** `generate_cards_from_section`: `None` when the service call raises, in which case
        the registry is untouched. */
    method GenerateCardsFromSection(text: string, fileName: Option<string>) returns (cards: Option<seq<Flashcard>>)
      modifies this
      ensures SectionSpec(old(generated), text, fileName, prompts, config, service)
        == if cards.None? then None else Some(FilterState(cards.value, generated))
      ensures cards.None? ==> generated == old(generated)
    {
      var response := service(SectionMessages(prompts, config, text));
      if !response.Returned? {
        return None;
      }
      var parsed := ParseFlashcards(response.text, fileName);
      ghost var keep := Keep(config, service);
      ghost var start := generated;
      var valid: seq<Flashcard> := [];
      for i := 0 to |parsed|
        invariant FilterState(valid, generated) == Filter(parsed[..i], start, keep)
      {
        FilterPrefixStep(parsed, i, start, keep);
        var card := parsed[i];
        if IsValid(card) && IsUnique(card) {
          var score := QualityScore(card, Some(Judge(service)));
          if score >= config.minCardQuality {
            valid := valid + [card];
            AddToGenerated(card);
          }
        }
      }
      assert parsed[..|parsed|] == parsed;
      return Some(valid);
    }

    /** `generate_cards_from_pdf` on the extracted text: divide it, keep the first three
        sections unless `processAll`, and collect the cards of every kept section. */
    method GenerateCardsFromDocument(text: string, fileName: Option<string>, processAll: bool, estimate: string -> nat)
      returns (allCards: seq<Flashcard>)
      modifies this
      ensures FilterState(allCards, generated)
        == DocFold(FilterState([], old(generated)),
                   SelectSections(JoinSections(Pack(SplitSentences(text), DefaultMaxTokens, estimate)), processAll),
                   fileName, prompts, config, service)
    {
      var sections := SmartDivideText(text, DefaultMaxTokens, estimate);
      if !processAll {
        sections := if |sections| <= 3 then sections else sections[..3];
      }
      allCards := CollectCards(sections, fileName);
    }

    /** The per-section loop of `generate_cards_from_pdf`: the cards of every section that
        does not raise, in section order, each section filtered against the registry left
        by the sections before it. */
    method CollectCards(sections: seq<string>, fileName: Option<string>) returns (allCards: seq<Flashcard>)
      modifies this
      ensures FilterState(allCards, generated)
        == DocFold(FilterState([], old(generated)), sections, fileName, prompts, config, service)
    {
      allCards := [];
      for i := 0 to |sections|
        invariant FilterState(allCards, generated)
          == DocFold(FilterState([], old(generated)), sections[..i], fileName, prompts, config, service)
      {
        DocFoldPrefixStep(FilterState([], old(generated)), sections, i, fileName, prompts, config, service);
        ghost var before := FilterState(allCards, generated);
        var cards := GenerateCardsFromSection(sections[i], fileName);
        DocStepOutcome(before, sections[i], fileName, prompts, config, service,
                       if cards.None? then None else Some(FilterState(cards.value, generated)));
        if cards.Some? {
          allCards := allCards + cards.value;
        }
      }
      assert sections[..|sections|] == sections;
    }
  }
}
