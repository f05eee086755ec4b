/** The LLM service of src/Service/llm_service.py (and `LLMClient` of
    Anki_flashcards_creator.py): the configuration record, the two-message prompt, the
    flattening of a chat transcript for Ollama, the dispatch on the provider name and
    the retry loop with linear back-off. The HTTP calls become a `respond` function that
    gives the outcome of attempt `k`; the sleeps are recorded instead of performed. */
module LlmService {
  import opened Common

  /** The settings the core reads from `LLMConfig`. */
  datatype LlmConfig = LlmConfig(
    provider: string,
    maxRetries: int,
    retryDelay: int,
    temperature: real,
    maxTokens: int,
    cardsPerSection: int,
    minCardQuality: real)

  /** The values `LLMConfig` falls back to when the environment sets nothing. */
  const DefaultConfig: LlmConfig := LlmConfig("ollama", 3, 2, 0.3, 2048, 5, 0.7)

  datatype Message = Message(role: string, content: string)

  /** `generate_prompt`: the system message, then the user message. */
  function GeneratePrompt(systemPrompt: string, userPrompt: string): seq<Message> {
    [Message("system", systemPrompt), Message("user", userPrompt)]
  }

  // ---------------------------------------------------------------------------
  // _format_messages_to_prompt
  // ---------------------------------------------------------------------------

  predicate KnownRole(role: string) {
    role == "system" || role == "user" || role == "assistant"
  }

  /** Label of a role in the flattened transcript. */
  function RoleLabel(role: string): string
    requires KnownRole(role)
  {
    if role == "system" then "System: " else if role == "user" then "User: " else "Assistant: "
  }

  /** The transcript line of one message: empty for any other role. */
  function Line(m: Message): string {
    if KnownRole(m.role) then RoleLabel(m.role) + m.content + "\n\n" else ""
  }

  /** The flattened transcript of a message list, in message order. */
  function Transcript(messages: seq<Message>): string
    decreases |messages|
  {
    if messages == [] then ""
    else Transcript(messages[..|messages| - 1]) + Line(messages[|messages| - 1])
  }

  /** `_format_messages_to_prompt`: the string accumulated over the messages. */
  method FormatMessagesToPrompt(messages: seq<Message>) returns (prompt: string)
    ensures prompt == Transcript(messages)
  {
    prompt := "";
    for i := 0 to |messages|
      invariant prompt == Transcript(messages[..i])
    {
      TranscriptStep(messages, i);
      var msg := messages[i];
      LineCases(msg);
      if msg.role == "system" {
        prompt := prompt + ("System: " + msg.content + "\n\n");
      } else if msg.role == "user" {
        prompt := prompt + ("User: " + msg.content + "\n\n");
      } else if msg.role == "assistant" {
        prompt := prompt + ("Assistant: " + msg.content + "\n\n");
      }
    }
    assert messages[..|messages|] == messages;
  }

  lemma LineCases(m: Message)
    ensures m.role == "system" ==> Line(m) == "System: " + m.content + "\n\n"
    ensures m.role == "user" ==> Line(m) == "User: " + m.content + "\n\n"
    ensures m.role == "assistant" ==> Line(m) == "Assistant: " + m.content + "\n\n"
    ensures !KnownRole(m.role) ==> Line(m) == ""
  {
  }

  lemma TranscriptStep(messages: seq<Message>, i: nat)
    requires i < |messages|
    ensures Transcript(messages[..i + 1]) == Transcript(messages[..i]) + Line(messages[i])
  {
    assert messages[..i + 1][..i] == messages[..i];
  }

  /** The transcript of a concatenation is the concatenation of the transcripts. */
  lemma {:induction false} TranscriptAppend(a: seq<Message>, b: seq<Message>)
    ensures Transcript(a + b) == Transcript(a) + Transcript(b)
    decreases |b|
  {
    if b != [] {
      var init := b[..|b| - 1];
      assert (a + b)[..|a + b| - 1] == a + init;
      assert (a + b)[|a + b| - 1] == b[|b| - 1];
      TranscriptAppend(a, init);
      assert Transcript(a + b) == Transcript(a + init) + Line(b[|b| - 1]);
      assert Transcript(b) == Transcript(init) + Line(b[|b| - 1]);
    } else {
      assert a + b == a;
    }
  }

  function OnlyKnown(messages: seq<Message>): (r: seq<Message>)
    ensures forall m :: m in r ==> m in messages && KnownRole(m.role)
    decreases |messages|
  {
    if messages == [] then []
    else
      var init := OnlyKnown(messages[..|messages| - 1]);
      var m := messages[|messages| - 1];
      if KnownRole(m.role) then init + [m] else init
  }

  /** Messages with any other role contribute nothing: the transcript is that of the
      messages with a known role. */
  lemma {:induction false} TranscriptDropsUnknownRoles(messages: seq<Message>)
    ensures Transcript(messages) == Transcript(OnlyKnown(messages))
    decreases |messages|
  {
    if messages != [] {
      var init := messages[..|messages| - 1];
      var m := messages[|messages| - 1];
      TranscriptDropsUnknownRoles(init);
      if KnownRole(m.role) {
        TranscriptAppend(OnlyKnown(init), [m]);
        assert [m][..0] == [];
      }
    }
  }

  /** The two-message prompt carries its contents unchanged and flattens to the system
      part followed by the user part. */
  lemma GeneratePromptSpec(systemPrompt: string, userPrompt: string)
    ensures |GeneratePrompt(systemPrompt, userPrompt)| == 2
    ensures GeneratePrompt(systemPrompt, userPrompt)[0].content == systemPrompt
    ensures GeneratePrompt(systemPrompt, userPrompt)[1].content == userPrompt
    ensures Transcript(GeneratePrompt(systemPrompt, userPrompt))
      == "System: " + systemPrompt + "\n\n" + "User: " + userPrompt + "\n\n"
  {
    var ms := GeneratePrompt(systemPrompt, userPrompt);
    assert ms[..1][..0] == [];
    assert ms[..1] == [Message("system", systemPrompt)];
    assert Transcript(ms[..1]) == "System: " + systemPrompt + "\n\n";
    assert Transcript(ms) == Transcript(ms[..1]) + Line(ms[1]);
  }

  // ---------------------------------------------------------------------------
  // Provider dispatch
  // ---------------------------------------------------------------------------

  /** What each backend is sent: the chat backends get the messages, Ollama the flattened
      transcript. */
  datatype Request = OpenAiChat(messages: seq<Message>) | OllamaGenerate(prompt: string) | OpenRouterChat(messages: seq<Message>)

  predicate SupportedProvider(provider: string) {
    provider == "openai" || provider == "ollama" || provider == "openrouter"
  }

  /** The `if`/`elif` chain on the provider name; `None` stands for the `ValueError`. */
  function BuildRequest(provider: string, messages: seq<Message>): Option<Request> {
    if provider == "openai" then Some(OpenAiChat(messages))
    else if provider == "ollama" then Some(OllamaGenerate(Transcript(messages)))
    else if provider == "openrouter" then Some(OpenRouterChat(messages))
    else None
  }

  /** Each supported name selects exactly one backend, only Ollama is sent the transcript,
      and every other name is rejected. */
  lemma BuildRequestSpec(provider: string, messages: seq<Message>)
    ensures BuildRequest(provider, messages).Some? <==> SupportedProvider(provider)
    ensures BuildRequest(provider, messages) == Some(OllamaGenerate(Transcript(messages))) <==> provider == "ollama"
    ensures BuildRequest(provider, messages) == Some(OpenAiChat(messages)) <==> provider == "openai"
    ensures BuildRequest(provider, messages) == Some(OpenRouterChat(messages)) <==> provider == "openrouter"
  {
  }

  // ---------------------------------------------------------------------------
  // call_api_with_retry
  // ---------------------------------------------------------------------------

  /** Outcome of one backend call. */
  datatype CallOutcome = Reply(text: string) | CallError(reason: string)

  /** The exceptions the retry loop can end with. */
  datatype Failure =
    | ApiError(reason: string)            // re-raised from the last attempt
    | UnsupportedProvider(name: string)   // the ValueError of the dispatch, re-raised
    | NegativeSleep                       // time.sleep given a negative delay
    | AllAttemptsFailed                   // the RuntimeError after an empty loop

  /** How the call ends: a reply, an exception, or (legacy client only) `None`. */
  datatype RetryResult = Returned(text: string) | Raised(error: Failure) | ReturnedNone

  /** The two copies differ only in what follows the loop. */
  datatype Variant = Service | Legacy

  datatype AttemptResult = Succeeded(text: string) | Failed(error: Failure)

  /** Attempt `k`: dispatch on the provider, then the backend's outcome for that attempt. */
  function Attempt(config: LlmConfig, messages: seq<Message>, respond: (Request, nat) -> CallOutcome, k: nat): AttemptResult {
    match BuildRequest(config.provider, messages)
    case None => Failed(UnsupportedProvider(config.provider))
    case Some(request) =>
      match respond(request, k)
      case Reply(text) => Succeeded(text)
      case CallError(reason) => Failed(ApiError(reason))
  }

  /** What follows the loop when it runs to completion. */
  function FallThrough(variant: Variant): RetryResult {
    if variant == Service then Raised(AllAttemptsFailed) else ReturnedNone
  }

  /** The delays `retry_delay * 1, ..., retry_delay * n`. */
  function LinearDelays(retryDelay: int, n: nat): (r: seq<int>)
    ensures |r| == n
    ensures forall k :: 0 <= k < n ==> r[k] == retryDelay * (k + 1)
    decreases n
  {
    if n == 0 then [] else LinearDelays(retryDelay, n - 1) + [retryDelay * n]
  }

  /** A run of the retry loop: its result, the sleeps requested and the attempts made. */
  datatype RetryRun = RetryRun(result: RetryResult, delays: seq<int>, attempts: nat)

  /** The loop from attempt `k` on, with `delays` slept so far. */
  function RetryFrom(config: LlmConfig, messages: seq<Message>, respond: (Request, nat) -> CallOutcome,
                     variant: Variant, k: nat, delays: seq<int>): RetryRun
    decreases config.maxRetries - k
  {
    if k >= config.maxRetries then RetryRun(FallThrough(variant), delays, k)
    else
      match Attempt(config, messages, respond, k)
      case Succeeded(text) => RetryRun(Returned(text), delays, k + 1)
      case Failed(error) =>
        if k < config.maxRetries - 1 then
          var d := config.retryDelay * (k + 1);
          if d < 0 then RetryRun(Raised(NegativeSleep), delays, k + 1)
          else RetryFrom(config, messages, respond, variant, k + 1, delays + [d])
        else RetryRun(Raised(error), delays, k + 1)
  }

  function Retry(config: LlmConfig, messages: seq<Message>, respond: (Request, nat) -> CallOutcome, variant: Variant): RetryRun {
    RetryFrom(config, messages, respond, variant, 0, [])
  }

  /** `call_api_with_retry`. */
  method CallApiWithRetry(config: LlmConfig, messages: seq<Message>, respond: (Request, nat) -> CallOutcome, variant: Variant)
    returns (result: RetryResult, delays: seq<int>, attempts: nat)
    ensures RetryRun(result, delays, attempts) == Retry(config, messages, respond, variant)
  {
    delays := [];
    attempts := 0;
    var attempt: nat := 0;
    while attempt < config.maxRetries
      invariant attempts == attempt
      invariant Retry(config, messages, respond, variant) == RetryFrom(config, messages, respond, variant, attempt, delays)
      decreases config.maxRetries - attempt
    {
      var outcome := Attempt(config, messages, respond, attempt);
      attempts := attempts + 1;
      if outcome.Succeeded? {
        return Returned(outcome.text), delays, attempts;
      }
      if attempt < config.maxRetries - 1 {
        var d := config.retryDelay * (attempt + 1);
        if d < 0 {
          return Raised(NegativeSleep), delays, attempts;
        }
        delays := delays + [d];
      } else {
        return Raised(outcome.error), delays, attempts;
      }
      attempt := attempt + 1;
    }
    result := FallThrough(variant);
  }

  /** Attempts before the last one made all failed, no more than `max_retries` attempts
      are made, and a returned reply is the one of the last attempt made. */
  lemma {:induction false} RetryFromShape(config: LlmConfig, messages: seq<Message>, respond: (Request, nat) -> CallOutcome,
                                          variant: Variant, k: nat, delays: seq<int>)
    ensures var run := RetryFrom(config, messages, respond, variant, k, delays);
      && k <= run.attempts
      && (k < config.maxRetries ==> k < run.attempts)
      && (k < config.maxRetries ==> run.attempts <= config.maxRetries)
      && (forall j :: k <= j < run.attempts - 1 ==> Attempt(config, messages, respond, j).Failed?)
      && (run.result.Returned? ==>
            run.attempts > k && Attempt(config, messages, respond, run.attempts - 1) == Succeeded(run.result.text))
    decreases config.maxRetries - k
  {
    if k < config.maxRetries && Attempt(config, messages, respond, k).Failed? && k < config.maxRetries - 1
       && config.retryDelay * (k + 1) >= 0 {
      RetryFromShape(config, messages, respond, variant, k + 1, delays + [config.retryDelay * (k + 1)]);
    }
  }

  /** At most `max_retries` attempts; a reply is returned only from a successful attempt
      all of whose predecessors failed. */
  lemma RetryReturnsFirstSuccess(config: LlmConfig, messages: seq<Message>, respond: (Request, nat) -> CallOutcome, variant: Variant)
    ensures var run := Retry(config, messages, respond, variant);
      && (config.maxRetries >= 1 ==> 1 <= run.attempts <= config.maxRetries)
      && (run.result.Returned? ==>
            Attempt(config, messages, respond, run.attempts - 1) == Succeeded(run.result.text)
            && forall j :: 0 <= j < run.attempts - 1 ==> Attempt(config, messages, respond, j).Failed?)
  {
    RetryFromShape(config, messages, respond, variant, 0, []);
  }

  /** With a non-negative delay, the first successful attempt within the budget is the one
      whose reply is returned, after sleeping `retry_delay * 1 ... retry_delay * s`. */
  lemma {:induction false} RetryFromSuccess(config: LlmConfig, messages: seq<Message>, respond: (Request, nat) -> CallOutcome,
                                            variant: Variant, k: nat, s: nat)
    requires config.retryDelay >= 0
    requires k <= s < config.maxRetries
    requires Attempt(config, messages, respond, s).Succeeded?
    requires forall j :: k <= j < s ==> Attempt(config, messages, respond, j).Failed?
    ensures RetryFrom(config, messages, respond, variant, k, LinearDelays(config.retryDelay, k))
      == RetryRun(Returned(Attempt(config, messages, respond, s).text), LinearDelays(config.retryDelay, s), s + 1)
    decreases s - k
  {
    if k < s {
      assert config.retryDelay * (k + 1) >= 0;
      RetryFromSuccess(config, messages, respond, variant, k + 1, s);
    }
  }

  lemma RetrySuccess(config: LlmConfig, messages: seq<Message>, respond: (Request, nat) -> CallOutcome, variant: Variant, s: nat)
    requires config.retryDelay >= 0
    requires s < config.maxRetries
    requires Attempt(config, messages, respond, s).Succeeded?
    requires forall j :: 0 <= j < s ==> Attempt(config, messages, respond, j).Failed?
    ensures Retry(config, messages, respond, variant)
      == RetryRun(Returned(Attempt(config, messages, respond, s).text), LinearDelays(config.retryDelay, s), s + 1)
  {
    RetryFromSuccess(config, messages, respond, variant, 0, s);
  }

  lemma {:induction false} RetryFromAllFail(config: LlmConfig, messages: seq<Message>, respond: (Request, nat) -> CallOutcome,
                                            variant: Variant, k: nat)
    requires config.retryDelay >= 0
    requires k < config.maxRetries
    requires forall j :: k <= j < config.maxRetries ==> Attempt(config, messages, respond, j).Failed?
    ensures RetryFrom(config, messages, respond, variant, k, LinearDelays(config.retryDelay, k))
      == RetryRun(Raised(Attempt(config, messages, respond, config.maxRetries - 1).error),
                  LinearDelays(config.retryDelay, config.maxRetries - 1), config.maxRetries)
    decreases config.maxRetries - k
  {
    if k < config.maxRetries - 1 {
      assert config.retryDelay * (k + 1) >= 0;
      RetryFromAllFail(config, messages, respond, variant, k + 1);
    }
  }

  /** When every attempt fails, the last attempt's error is re-raised after `max_retries`
      attempts and the sleeps `retry_delay * 1 ... retry_delay * (max_retries - 1)`; there
      is no sleep after the last attempt. */
  lemma RetryAllFail(config: LlmConfig, messages: seq<Message>, respond: (Request, nat) -> CallOutcome, variant: Variant)
    requires config.retryDelay >= 0 && config.maxRetries >= 1
    requires forall j :: 0 <= j < config.maxRetries ==> Attempt(config, messages, respond, j).Failed?
    ensures Retry(config, messages, respond, variant)
      == RetryRun(Raised(Attempt(config, messages, respond, config.maxRetries - 1).error),
                  LinearDelays(config.retryDelay, config.maxRetries - 1), config.maxRetries)
  {
    RetryFromAllFail(config, messages, respond, variant, 0);
  }

  /** An unsupported provider name fails every attempt, so it is retried like a network
      error and its `ValueError` is raised only after the last attempt. */
  lemma RetryUnsupportedProvider(config: LlmConfig, messages: seq<Message>, respond: (Request, nat) -> CallOutcome, variant: Variant)
    requires !SupportedProvider(config.provider)
    requires config.retryDelay >= 0 && config.maxRetries >= 1
    ensures Retry(config, messages, respond, variant)
      == RetryRun(Raised(UnsupportedProvider(config.provider)),
                  LinearDelays(config.retryDelay, config.maxRetries - 1), config.maxRetries)
  {
    BuildRequestSpec(config.provider, messages);
    RetryAllFail(config, messages, respond, variant);
  }

  /** With `max_retries <= 0` no attempt is made: the service raises its `RuntimeError`,
      the legacy client returns `None`. */
  lemma RetryNoAttempts(config: LlmConfig, messages: seq<Message>, respond: (Request, nat) -> CallOutcome, variant: Variant)
    requires config.maxRetries <= 0
    ensures Retry(config, messages, respond, variant).attempts == 0
    ensures Retry(config, messages, respond, variant).delays == []
    ensures variant == Service ==> Retry(config, messages, respond, variant).result == Raised(AllAttemptsFailed)
    ensures variant == Legacy ==> Retry(config, messages, respond, variant).result == ReturnedNone
  {
  }

  /** A negative delay makes the first sleep raise, right after the first failed attempt. */
  lemma RetryNegativeDelay(config: LlmConfig, messages: seq<Message>, respond: (Request, nat) -> CallOutcome, variant: Variant)
    requires config.retryDelay < 0 && config.maxRetries >= 2
    requires Attempt(config, messages, respond, 0).Failed?
    ensures Retry(config, messages, respond, variant) == RetryRun(Raised(NegativeSleep), [], 1)
  {
  }
}
