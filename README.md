# Anki flashcard generator — verified model of the deterministic core

This project models the core of the Anki flashcard generator. That core is everything between "document text in hand" and "list of accepted cards", plus the two small entities around it. It covers:

- **Text processing** (`TextProcessor`):
  - splitting into sentences with `(?<=[.!?])\s+`;
  - greedy packing of sentences into sections under a token budget;
  - capitalised key-concept extraction;
  - `clean_text`.
- **The flashcard entity** (`Flashcards`):
  - construction defaults and the validity test;
  - the tab-separated Anki line;
  - the quality score, read from a judge's 0–10 reply.
- **The response parser** (`ResponseParser`):
  - blocks cut at runs of three or more hyphens;
  - the lazy `Q:` / `A:` / `Tags:` captures;
  - the `[,，]` tag split;
  - the `source:` provenance tag.
- **The LLM service** (`LlmService`):
  - `generate_prompt` and the transcript flattener;
  - the provider dispatch;
  - the `call_api_with_retry` loop with linear back-off. Both copies are modelled: the packaged one raises after an empty loop, the single-file one returns `None`.
- **The generator service** (`Generator`):
  - the class `FlashcardGenerator`, whose `generated` set holds the key `question + ":" + answer` of every accepted card;
  - the per-section generate, parse and filter step, as a loop;
  - the document run: the first three sections unless all are requested, with a raising section skipped.
- **Custom-API messages** (`CustomApiMessages`): construction-time validation, and the latest / user / agent queries of a response.
- **Statistics** (`Statistics`): card count, tag-occurrence distribution and average lengths, computed by nested loops.

Each stateful or looping operation is a `method` proved equal to a specification function:

- `SmartDivideText` ↔ `Pack`
- `ParseFlashcards` ↔ `ParseBlocks`
- `FormatMessagesToPrompt` ↔ `Transcript`
- `CallApiWithRetry` ↔ `Retry`
- `GenerateCardsFromSection` ↔ `SectionSpec`
- `GenerateCardsFromDocument` ↔ `DocFold`
- `GenerateStatistics` ↔ `TagCounts`

The properties the code promises are then proved about those functions as lemmas.

External effects are parameters:

- The per-sentence token estimator is `estimate: string -> nat`.
- An LLM backend is a per-attempt outcome function `(Request, nat) -> CallOutcome`. The sleeps it would take are returned as a list of requested delays.
- The generator's LLM service is a function from messages to the outcome of `call_api_with_retry`. `RetryingService` builds one from a backend.
- The quality judge is that same service asked with the scoring messages.
- `hashlib.md5` is replaced by its input string, the card key.
- The thread pool is replaced by a sequential fold in section order.

An unsupported provider name does not fail at once. The `ValueError` for it is raised inside the `try` (src/Service/llm_service.py:26-40), so it is retried like any other failure and re-raised only after the last attempt. That is `LlmService.RetryUnsupportedProvider`.

Files:

| file | module |
|---|---|
| common.dfy | `Common` — Python whitespace set, `str.strip`, `sep.join`, splitting on a character, decimal rendering, `Count`, `Subseq`, `Dedup` |
| text_processor.dfy | `TextProcessor` |
| flashcard.dfy | `Flashcards` |
| response_parser.dfy | `ResponseParser` |
| llm_service.dfy | `LlmService` |
| generator.dfy | `Generator` |
| custom_api_message.dfy | `CustomApiMessages` |
| statistics.dfy | `Statistics` |

## Model

| member | source | states |
|---|---|---|
| TextProcessor.SplitSentences | src/Utils/text_processor.py:26 | The sentences, re-woven with the separators, give back the text. Every separator is a non-empty whitespace run. No sentence has a boundary inside it. Every sentence but the last ends with `.`, `!` or `?`. Every later sentence starts with a non-space. There is always at least one piece. |
| TextProcessor.SentencesFromWeave | src/Utils/text_processor.py:26 | The scan from any position re-weaves to the rest of the text: nothing is dropped except the consumed whitespace separators. |
| TextProcessor.SentencesFromNoBoundary | src/Utils/text_processor.py:26 | A boundary (a terminator followed by whitespace) never falls inside a produced sentence. |
| TextProcessor.SentencesFromEnds | src/Utils/text_processor.py:26 | Each non-final sentence ends with a terminator, and every later piece starts with a non-space, so the whole whitespace run is consumed. |
| TextProcessor.SeparatorsFrom | src/Utils/text_processor.py:26 | Every separator removed by the split is a non-empty run of whitespace. |
| TextProcessor.SentencesFrom | src/Utils/text_processor.py:26 | Splitting yields exactly one more piece than separators. |
| TextProcessor.SmartDivideText | src/Utils/text_processor.py:23-46 | The loop over sentences, with its `sections` / `current_section` / `current_tokens` state, returns the joined groups of the greedy packing of the split sentences, and at least one section. |
| TextProcessor.Pack | src/Utils/text_processor.py:32-44 | The greedy packing of sentences into groups. Its partners are `TextProcessor.PackPreservesSentences`, `TextProcessor.PackWithinBudget`, `TextProcessor.PackGreedy` and the method `TextProcessor.SmartDivideText`. |
| TextProcessor.PackPreservesSentences | src/Utils/text_processor.py:32-44 | The groups, flattened in order, are exactly the split sentences. Every group is non-empty, and there is a group exactly when there is a sentence. |
| TextProcessor.PackWithinBudget | src/Utils/text_processor.py:33-41 | Each group either stays within the budget or is a single sentence. |
| TextProcessor.PackFitsWhenSentencesFit | src/Utils/text_processor.py:33-41 | If every sentence's estimate is at most `max_tokens`, then every group's sum of estimates is at most `max_tokens`. |
| TextProcessor.PackOversizedAlone | src/Utils/text_processor.py:35-38 | A sentence whose estimate exceeds the budget forms a group of its own. |
| TextProcessor.PackGreedy | src/Utils/text_processor.py:35-36 | A group is closed only when adding the next group's first sentence would exceed the budget. |
| TextProcessor.PackPrefixInv | src/Utils/text_processor.py:32-41 | The loop invariant: after any prefix of sentences, the closed groups plus the open one flatten to that prefix, and the running total is the sum of the open group's estimates. |
| TextProcessor.PackStepInv | src/Utils/text_processor.py:35-41 | One iteration of the loop preserves that invariant. |
| TextProcessor.TokensAtLeastMember | src/Utils/text_processor.py:33-41 | A group's token sum is at least the estimate of each of its sentences. |
| TextProcessor.JoinSections | src/Utils/text_processor.py:36-44 | `' '.join` is applied once per group, so there are as many sections as groups. |
| TextProcessor.ExtractKeyConcepts | src/Utils/text_processor.py:49-54 | At most 10 pairwise distinct matches of the concept pattern. The count is min(10, number of distinct matches). |
| TextProcessor.KeyConceptsArePhrases | src/Utils/text_processor.py:52-53 | Every returned concept is a run of capitalised words separated by whitespace, and occurs in the text. |
| TextProcessor.FindConcepts | src/Utils/text_processor.py:52 | The `findall` of the concept pattern. Its partners are `TextProcessor.FindConceptsSound` and `TextProcessor.ExtractKeyConcepts`. |
| TextProcessor.FindConceptsSound | src/Utils/text_processor.py:52 | Every `findall` match of `\b[A-Z][a-z]+(?:\s+[A-Z][a-z]+)*\b` is such a phrase and occurs in the text. |
| TextProcessor.FindConceptsFromSound | src/Utils/text_processor.py:52 | The same, for the scan from any position. |
| TextProcessor.ChainFrom | src/Utils/text_processor.py:52 | The repetition `(?:\s+[A-Z][a-z]+)*` never ends before its start or past the text. |
| TextProcessor.ChainPhrases | src/Utils/text_processor.py:52 | The repetition, with its backtracking to the last word followed by a word boundary, only extends a phrase. |
| TextProcessor.MatchEndPhrase | src/Utils/text_processor.py:52 | A successful match ends at a word boundary and spans a phrase. |
| TextProcessor.WordEnd | src/Utils/text_processor.py:52 | `[A-Z][a-z]+` spans at least two characters. |
| TextProcessor.WordEndPhrase | src/Utils/text_processor.py:52 | A single capitalised word is a phrase. |
| TextProcessor.NextWordEnd | src/Utils/text_processor.py:52 | A further `\s+[A-Z][a-z]+` step moves strictly forward. |
| TextProcessor.NextWordPhrase | src/Utils/text_processor.py:52 | Another whitespace-separated capitalised word extends the phrase. |
| TextProcessor.PhraseSpanSlice | src/Utils/text_processor.py:52 | The matched slice of a phrase span is a concept phrase. |
| TextProcessor.LowerRunEnd | src/Utils/text_processor.py:52 | `[a-z]+` is matched greedily to the end of the lower-case run. |
| TextProcessor.CleanText | src/Utils/text_processor.py:57-66 | `clean_text`: the whitespace collapse, the newline collapse, the character filter and the strip, in that order. Its partner `TextProcessor.CleanTextShape` proves the newline step a no-op and the result stripped and limited to word characters, spaces and `.!?`. |
| TextProcessor.CollapseWhitespace | src/Utils/text_processor.py:60 | `re.sub(r'\s+', ' ', …)`. Its partners are `TextProcessor.CollapseWhitespaceSpec` (the same whitespace-free pieces, in order, joined by one `' '` per maximal whitespace run) and `TextProcessor.CollapsedSpaces` (no whitespace but `' '` remains). |
| TextProcessor.CollapseNewlines | src/Utils/text_processor.py:62 | `re.sub(r'\n+', ' ', …)`, written as a scan over newline runs. Its partner `TextProcessor.CollapseNewlinesNoop` proves it changes nothing on a newline-free text, as every text is after the whitespace collapse. |
| TextProcessor.CleanTextShape | src/Utils/text_processor.py:57-66 | `clean_text` equals stripping the filtered whitespace collapse, since the newline substitution changes nothing in between. The result has no leading or trailing whitespace. Every character is a word character, a space, `.`, `!` or `?`, so no newline or tab remains. |
| TextProcessor.CollapseWhitespaceSpec | src/Utils/text_processor.py:60 | `re.sub(r'\s+', ' ', s)`: `s` is its whitespace-free pieces woven with its whitespace runs. Every run is non-empty whitespace, and every piece strictly between two runs is non-empty, so the runs are maximal. The result is the same pieces, unchanged and in order, woven with one `' '` per run. |
| TextProcessor.SpaceSplitWeave | src/Utils/text_processor.py:60 | The pieces and runs scanned from a position weave back to the rest of the text. |
| TextProcessor.SpaceSplitShape | src/Utils/text_processor.py:60 | Scanned pieces hold no whitespace, runs are non-empty whitespace, and no piece between two runs is empty. |
| TextProcessor.CollapseFrom | src/Utils/text_processor.py:60 | The collapse of the rest of the text is its scanned pieces joined by single spaces. |
| TextProcessor.CollapseKeepsPrefix | src/Utils/text_processor.py:60 | A whitespace-free prefix passes through the collapse unchanged. |
| TextProcessor.CollapseAtRun | src/Utils/text_processor.py:60 | A whitespace run at the front becomes one space. |
| TextProcessor.SpaceRunsFrom | src/Utils/text_processor.py:60 | There is exactly one more piece than runs. |
| TextProcessor.CollapsedSpaces | src/Utils/text_processor.py:60 | After `re.sub(r'\s+', ' ', …)` the only whitespace left is the plain space. |
| TextProcessor.CollapseNewlinesNoop | src/Utils/text_processor.py:62 | Once whitespace is collapsed, `re.sub(r'\n+', ' ', …)` changes nothing. |
| TextProcessor.KeepAllowed | src/Utils/text_processor.py:64 | `re.sub(r'[^\w\s.!?가-힣]', '', s)` is a subsequence of `s`. It holds every allowed character exactly as often as `s` does, and no other character. |
| TextProcessor.StripMembers | src/Utils/text_processor.py:66 | `strip` introduces no character. |
| TextProcessor.NewlineRunEnd | src/Utils/text_processor.py:62 | The `\n+` run ends within the text. |
| TextProcessor.TerminatorNotSpace | src/Utils/text_processor.py:26 | A sentence terminator is never whitespace. |
| TextProcessor.SliceNoBoundary | src/Utils/text_processor.py:26 | A slice scanned without finding a boundary has none inside it. |
| Common.Strip | src/Entity/flashcard.py:24 | `str.strip()`: the result is a slice with only whitespace cut from both ends, starts and ends with a non-space, and is empty exactly for an all-whitespace string. |
| Common.SplitJoinRoundTrip | src/Entity/flashcard.py:19-20 | Splitting `sep.join(parts)` on the separator gives back `parts` when no part contains it. |
| Common.Dedup | src/Utils/text_processor.py:53 | `list(set(words))` in first-occurrence order: the same members as the input, pairwise distinct. |
| Common.DistinctCard | src/Utils/text_processor.py:53 | A duplicate-free list has as many elements as its set. |
| Common.DecimalRoundTrip | src/Entity/flashcard.py:53-55 | The decimal rendering of a number reads back as that number. |
| Flashcards.NewFlashcard | src/Entity/flashcard.py:12-15 | An omitted `tags` gives `[]` and omitted `notes` give `""`. Given values are kept. |
| Flashcards.BareCardDefaults | Anki_flashcards_creator.py:40-42 | A card built from a question and an answer alone has no tags and empty notes, and its Anki line ends with a tab. |
| Flashcards.IsValid | src/Entity/flashcard.py:22-24 | `is_valid`. Its partner is `Flashcards.IsValidIff`. |
| Flashcards.IsValidIff | src/Entity/flashcard.py:22-24 | `is_valid` holds exactly when both the question and the answer contain a non-whitespace character. |
| Flashcards.ToAnkiFormat | src/Entity/flashcard.py:17-20 | `to_anki_format`. Its partners are `Flashcards.AnkiFields`, `Flashcards.AnkiRoundTrip` and `Flashcards.AnkiNoTagsTrailingTab`. |
| Flashcards.AnkiFields | src/Entity/flashcard.py:17-20 | With tab-free fields, the Anki line splits on tabs into exactly the question, the answer and the space-joined tags. |
| Flashcards.AnkiRoundTrip | src/Entity/flashcard.py:17-20 | With tab-free fields and non-empty tags free of spaces, parsing the Anki line gives back the card. |
| Flashcards.AnkiNoTagsTrailingTab | src/Entity/flashcard.py:19-20 | An empty tag list leaves a trailing tab. |
| Flashcards.ValidationPromptEmbedsCard | src/Entity/flashcard.py:31-44 | The scoring prompt contains the card's question and answer. |
| Flashcards.QualityScore | src/Entity/flashcard.py:26-59 | The score lies in [0, 1]. With no judge it is exactly 0.5, and it is also 0.5 when the judge's call raises. When the judge replies, the score is the one read from the reply. |
| Flashcards.ScoreFromReply | src/Entity/flashcard.py:53-57 | The score read from a reply lies in [0, 1]. |
| Flashcards.ScoreOfMark | src/Entity/flashcard.py:53-56 | The reply `n` gives `n/10` clamped to 1, so "15" gives 1.0. |
| Flashcards.ScoreIgnoresPrefix | src/Entity/flashcard.py:53-56 | A digit-free prefix is skipped: "Score: 8" gives 0.8. |
| Flashcards.ScoreIgnoresSuffix | src/Entity/flashcard.py:53-56 | Text after the number is ignored once a non-digit ends it. With a digit-free prefix, the reply gives `n/10`, capped at 1. |
| Flashcards.ScoreOfEightOutOfTen | src/Entity/flashcard.py:53-56 | The reply "8/10" scores 0.8: only the first number is read. |
| Flashcards.ScoreWithoutDigits | src/Entity/flashcard.py:57 | A reply without digits gives 0.5. |
| Flashcards.SearchDigits | src/Entity/flashcard.py:53 | A found number is a non-empty digit string. Its partner is `Flashcards.SearchDigitsSpec`. |
| Flashcards.SearchDigitsSpec | src/Entity/flashcard.py:53 | `re.search(r'\d+')` fails exactly when there is no digit. Otherwise it is the first maximal digit run. |
| Flashcards.FirstDigitFrom | src/Entity/flashcard.py:53 | Finds the first digit position from a start point, or reports that there is none. |
| Flashcards.DigitRunEnd | src/Entity/flashcard.py:53 | `\d+` extends to the end of the digit run. |
| Flashcards.FirstDigitSkips | src/Entity/flashcard.py:53 | The digit search passes over a digit-free prefix. |
| Flashcards.DigitsRunToEnd | src/Entity/flashcard.py:53 | In an all-digit string the run reaches the end. |
| Flashcards.DigitsRunTo | src/Entity/flashcard.py:53 | A digit run that a non-digit or the end of the text stops at `e` ends at `e`. |
| Flashcards.LegacyReadScore | Anki_flashcards_creator.py:80 | `float(re.search(r'\d+', response).group()) / 10.0` fails, because `.group()` is called on `None`, exactly when the search finds no number. Otherwise it is that number divided by ten, not yet clamped. |
| Flashcards.LegacyQualityScore | Anki_flashcards_creator.py:53-83 | The legacy score lies in [0, 1]. It is 0.5 with no judge, when the judge raises, and when the reply holds no number. Its partner is `Flashcards.LegacyScoreAgrees`. |
| Flashcards.LegacyScoreAgrees | Anki_flashcards_creator.py:53-83 | The legacy score, where `.group()` on `None` raises into the bare `except`, equals the packaged one on every card and judge. |
| ResponseParser.SplitBlocks | src/Service/flashcard_generator_service.py:140 | `re.split(r'---+')`: the blocks, re-woven with the hyphen runs, give back the response. No block contains `---`. Every separator is a run of at least three hyphens. No block after a separator starts with a hyphen, and no block before one ends with a hyphen, so each run is maximal at both ends. Every block between two separators is non-empty. There is at least one block. |
| ResponseParser.BlocksFromWeave | src/Service/flashcard_generator_service.py:140 | The block scan re-weaves to the rest of the response. |
| ResponseParser.BlocksFromShape | src/Service/flashcard_generator_service.py:140 | Scanned blocks contain no separator. A block after a separator does not start with a hyphen, and a block before one does not end with a hyphen, so runs are maximal at both ends. Blocks between two separators are non-empty. |
| ResponseParser.PieceBeforeRun | src/Service/flashcard_generator_service.py:140 | A piece scanned up to the first `---` does not end with a hyphen, because that `---` starts at the first hyphen of its run. |
| ResponseParser.BlockSeparatorsFrom | src/Service/flashcard_generator_service.py:140 | Every separator removed is a run of three or more hyphens. |
| ResponseParser.BlocksFrom | src/Service/flashcard_generator_service.py:140 | There is exactly one more block than separators. |
| ResponseParser.HyphenRunEnd | src/Service/flashcard_generator_service.py:140 | `---+` is matched greedily to the end of the hyphen run. |
| ResponseParser.SliceNoSeparator | src/Service/flashcard_generator_service.py:140 | A slice scanned without finding `---` contains none. |
| ResponseParser.Capture | src/Service/flashcard_generator_service.py:147-149 | Group 1 of the `Q:`, `A:` and `Tags:` searches. Its partner is `ResponseParser.CaptureSpec`. |
| ResponseParser.CaptureSpec | src/Service/flashcard_generator_service.py:147-149 | A capture fails exactly when every occurrence of the marker ends the text, since `.+?` needs one character. When it succeeds, the search matched at the marker's first occurrence `p`, which some character follows. Let `j` be the end of the whitespace run after the marker. If a character follows the run, the group starts at `j`, is non-empty, and ends at the least `k > j` where the look-ahead (the next marker, or `$`) holds. If the run reaches the end of the text, the group is the run's last character, given back by `\s*`. |
| ResponseParser.CaptureAbsent | src/Service/flashcard_generator_service.py:147-149 | The failure half of `CaptureSpec`. |
| ResponseParser.CapturePresent | src/Service/flashcard_generator_service.py:147-149 | The success half of `CaptureSpec`. |
| ResponseParser.CaptureFound | src/Service/flashcard_generator_service.py:147-149 | A capture comes from the first occurrence of the marker, and some character follows it. |
| ResponseParser.CaptureAtFirst | src/Service/flashcard_generator_service.py:147-149 | At that first occurrence the capture is non-empty and is the lazy capture after the whitespace run. |
| ResponseParser.CaptureValue | src/Service/flashcard_generator_service.py:147-149 | At a first occurrence that some character follows, the capture is the lazy group after the whitespace run following the marker. |
| ResponseParser.LazyGroup | src/Service/flashcard_generator_service.py:147-149 | What the lazy group `(.+?)` takes after the whitespace run: non-empty, and the lazy capture that `CaptureSpec` describes. |
| ResponseParser.FoundIsFirst | src/Service/flashcard_generator_service.py:147-149 | The position `re.search` finds is the marker's first occurrence. |
| ResponseParser.FindLabel | src/Service/flashcard_generator_service.py:147-149 | `re.search` finds the marker's first occurrence, or reports that there is none. |
| ResponseParser.LazyEnd | src/Service/flashcard_generator_service.py:147-149 | The lazy group stops at the first position where the look-ahead (the next marker, or `$`) holds. |
| ResponseParser.ParseFlashcards | src/Service/flashcard_generator_service.py:135-171 | The loop over blocks returns exactly `ParseBlocks` of the split response. |
| ResponseParser.ParseBlocksStep | src/Service/flashcard_generator_service.py:142-169 | One block adds its card, if any, at the end. |
| ResponseParser.ParseBlocks | src/Service/flashcard_generator_service.py:142-169 | The cards of the blocks, in block order. Its partners are `ResponseParser.ParseBlocksSpec` and `ResponseParser.ParseFlashcards`. |
| ResponseParser.ParseBlocksSpec | src/Service/flashcard_generator_service.py:142-169 | There are no more cards than blocks. Every card is the card of some block, and every block that yields a card contributes it. Every card is well formed: its question and answer are stripped, its notes are empty, the tags before the provenance part are stripped, and its tags end with `SourceTags(file_name)`. That suffix is `["source:" + name]` for a non-empty file name, and empty otherwise. |
| ResponseParser.ParseBlocksShape | src/Service/flashcard_generator_service.py:142-169 | The count bound and well-formedness, by induction over the blocks. |
| ResponseParser.ParseBlocksOrigin | src/Service/flashcard_generator_service.py:142-169 | Both directions of the block/card correspondence, by induction over the blocks. |
| ResponseParser.ParseBlock | src/Service/flashcard_generator_service.py:143-168 | One iteration of the block loop. Its partners are `ResponseParser.ParseBlockSome` and `ResponseParser.ParseBlockWellFormed`. |
| ResponseParser.ParseBlockWellFormed | src/Service/flashcard_generator_service.py:151-168 | A card from a block holds the stripped `Q:` capture as question and the stripped `A:` capture as answer. Its tags are exactly `BlockTags(block) + SourceTags(file_name)`, and its notes are empty. So it is well formed. |
| ResponseParser.BlockTags | src/Service/flashcard_generator_service.py:155-158 | The stripped comma-separated pieces of the `Tags:` capture, or none without it. Its partners are `ResponseParser.NoTagsField`, `ResponseParser.BlankTagsField` and `ResponseParser.SplitTagText`. |
| ResponseParser.SourceTags | src/Service/flashcard_generator_service.py:161-162 | The `source:` tag for a non-empty file name. Its partner is `ResponseParser.ParseBlockWellFormed`. |
| ResponseParser.ParseBlockSome | src/Service/flashcard_generator_service.py:143-151 | A block yields a card exactly when it is not blank and both the `Q:` and the `A:` capture succeed. |
| ResponseParser.NoAnswerNoCard | src/Service/flashcard_generator_service.py:148-151 | A block without `A:` yields no card, and nothing raises. |
| ResponseParser.NoTagsField | src/Service/flashcard_generator_service.py:155-162 | Without `Tags:` the card's tags are only the provenance tag. |
| ResponseParser.BlankTagsField | src/Service/flashcard_generator_service.py:157-158 | A blank `Tags:` span still yields one empty tag. |
| ResponseParser.SplitTagText | src/Service/flashcard_generator_service.py:158 | `re.split(r'[,，]')` yields one more piece than there are commas (ASCII or full-width). No piece contains a comma. Weaving the commas back between the pieces gives the text again. |
| ResponseParser.TagSeps | src/Service/flashcard_generator_service.py:158 | The commas of a text in order, each a one-character string that is `,` or `，`. |
| ResponseParser.NoTagSeps | src/Service/flashcard_generator_service.py:158 | A comma-free text has no commas to list. |
| ResponseParser.TagSepsAtFirst | src/Service/flashcard_generator_service.py:158 | The commas of a text are its first comma followed by the commas after it. |
| ResponseParser.FirstTagSeparator | src/Service/flashcard_generator_service.py:158 | Finds the first `,` or `，`. |
| ResponseParser.StripAll | src/Service/flashcard_generator_service.py:158 | Each tag is stripped, one for one. |
| LlmService.Transcript | src/Service/llm_service.py:102-112 | The flattened transcript. Its partners are the method `LlmService.FormatMessagesToPrompt`, `LlmService.LineCases`, `LlmService.TranscriptAppend` and `LlmService.TranscriptDropsUnknownRoles`. |
| LlmService.FormatMessagesToPrompt | src/Service/llm_service.py:102-112 | The accumulating loop returns exactly `Transcript(messages)`. |
| LlmService.LineCases | src/Service/llm_service.py:106-111 | Each message line is `"System: "`, `"User: "` or `"Assistant: "` + content + `"\n\n"`. A message with any other role contributes nothing. |
| LlmService.TranscriptStep | src/Service/llm_service.py:105-111 | One iteration appends one message's line. |
| LlmService.TranscriptAppend | src/Service/llm_service.py:102-112 | The transcript of a concatenation is the concatenation of the transcripts, so message order is kept. |
| LlmService.TranscriptDropsUnknownRoles | src/Service/llm_service.py:106-111 | Messages with unknown roles are dropped: the transcript equals that of the known-role messages. |
| LlmService.OnlyKnown | src/Service/llm_service.py:106-111 | The known-role filter keeps only input messages with a known role. |
| LlmService.GeneratePrompt | src/Service/llm_service.py:45-50 | `generate_prompt`. Its partner is `LlmService.GeneratePromptSpec`. |
| LlmService.GeneratePromptSpec | src/Service/llm_service.py:45-50 | There are exactly two messages, system first and then user, carrying the contents unchanged. |
| LlmService.BuildRequest | src/Service/llm_service.py:26-33 | The provider dispatch. Its partner is `LlmService.BuildRequestSpec`. |
| LlmService.BuildRequestSpec | src/Service/llm_service.py:26-33 | `openai`, `ollama` and `openrouter` each select exactly one backend. Only `ollama` gets the flattened transcript. Any other name has no backend. |
| LlmService.Retry | src/Service/llm_service.py:22-43 | The retry loop as a function of the per-attempt outcomes. Its partners are the method `LlmService.CallApiWithRetry`, `LlmService.RetryReturnsFirstSuccess`, `LlmService.RetrySuccess` and `LlmService.RetryAllFail`. |
| LlmService.CallApiWithRetry | src/Service/llm_service.py:22-43 | The attempt loop returns exactly the result, sleeps and attempt count of `Retry`. |
| LlmService.LinearDelays | src/Service/llm_service.py:37-38 | The k-th sleep is `retry_delay * (k+1)`. |
| LlmService.RetryFromShape | src/Service/llm_service.py:24-40 | At most `max_retries` attempts are made, every attempt but the last failed, and a returned reply comes from the last attempt. |
| LlmService.RetryReturnsFirstSuccess | src/Service/llm_service.py:24-34 | With at least one retry allowed, between 1 and `max_retries` attempts are made. A reply is the first successful attempt's. |
| LlmService.RetryFromSuccess | src/Service/llm_service.py:24-38 | From any attempt on: the first success within the budget is returned, after the linear sleeps. |
| LlmService.RetrySuccess | src/Service/llm_service.py:24-38 | If attempt s is the first success, its reply is returned after sleeping `retry_delay*1 … retry_delay*s`, with s+1 attempts. |
| LlmService.RetryFromAllFail | src/Service/llm_service.py:35-40 | From any attempt on, all failures: the last error is raised. |
| LlmService.RetryAllFail | src/Service/llm_service.py:35-40 | When every attempt fails, the last attempt's error is raised after `max_retries` attempts. The sleeps are `retry_delay*1 … retry_delay*(max_retries-1)`, with no sleep after the last attempt. |
| LlmService.RetryUnsupportedProvider | src/Service/llm_service.py:32-40 | An unsupported provider is retried like any failure, and its error is raised only at the end. |
| LlmService.RetryNoAttempts | src/Service/llm_service.py:24-43 | With `max_retries <= 0` no attempt is made and no sleep is taken. The service raises `RuntimeError`, the legacy client returns `None`. |
| LlmService.RetryNegativeDelay | src/Service/llm_service.py:37-38 | A negative delay makes the first sleep raise. |
| Generator.CardKey | src/Service/flashcard_generator_service.py:173-181 | The registry key `question + ":" + answer`. Its partners are `Generator.KeyCollision` and `Generator.FlashcardGenerator.AddToGenerated`. |
| Generator.FlashcardGenerator.IsUnique | src/Service/flashcard_generator_service.py:173-176 | `_is_unique`: the card's key is not registered. Its partner is `Generator.FlashcardGenerator.AddToGenerated`. |
| Generator.Judge | src/Service/flashcard_generator_service.py:44 | The scoring judge built from the generator's service. Its partners are `Flashcards.QualityScore` and `Generator.UnsupportedNeverReturns`. |
| Generator.KeyCollision | src/Service/flashcard_generator_service.py:173-181 | Distinct question/answer pairs can share the joined key string, and are then treated as duplicates. |
| Generator.FlashcardGenerator.constructor | src/Service/flashcard_generator_service.py:21-25 | The registry starts empty. The configuration and service are kept. The prompts are the service's fixed system prompt and template texts. |
| Generator.FlashcardGenerator.AddToGenerated | src/Service/flashcard_generator_service.py:173-181 | The registry grows by exactly the card's key. Afterwards no card with the same question and answer, whatever its tags, is unique. |
| Generator.FlashcardGenerator.GenerateCardsFromSection | src/Service/flashcard_generator_service.py:27-51 | The call and filter loop agree with `SectionSpec` from the registry as it was: `None` when the service does not reply, in which case the registry is unchanged. Otherwise the returned cards and the new registry are the result of `Filter`. |
| Generator.SectionSpec | src/Service/flashcard_generator_service.py:27-51 | One section from a given registry. Its partners are the method `Generator.FlashcardGenerator.GenerateCardsFromSection` and `Generator.FailingSectionSkipped`. |
| Generator.Filter | src/Service/flashcard_generator_service.py:40-51 | The filter loop from a given registry. Its partners are `Generator.FilterOrder`, `Generator.FilterRegistry`, `Generator.FilterAccepted`, `Generator.FilterComplete` and `Generator.FilterKeepsFirst`. |
| Generator.FilterOrder | src/Service/flashcard_generator_service.py:40-51 | The accepted cards are an order-preserving subsequence of the parsed cards. |
| Generator.FilterRegistry | src/Service/flashcard_generator_service.py:40-51 | The registry grows by exactly the accepted cards' keys, so rejected cards are not registered. |
| Generator.FilterAccepted | src/Service/flashcard_generator_service.py:41-47 | Every accepted card passes. That is, it is valid and scores at least `min_card_quality`. Its key was absent beforehand, and no two accepted cards share a key, so a duplicate later in the same call is rejected. |
| Generator.FilterComplete | src/Service/flashcard_generator_service.py:41-47 | Every parsed card that passes ends with its key registered: it was accepted, or its key was already taken. |
| Generator.FilterKeepsFirst | src/Service/flashcard_generator_service.py:41-47 | Of several parsed cards with the same key, the first that passes is kept. If card `i` passes, its key was not registered beforehand, and no earlier passing card shares its key, then card `i` is accepted and is the only accepted card with that key. |
| Generator.FilterExtends | src/Service/flashcard_generator_service.py:41-47 | The cards accepted from a prefix of the parsed cards are a prefix of those accepted from all of them. |
| Generator.FilterGrows | src/Service/flashcard_generator_service.py:47 | The registry never shrinks. |
| Generator.FilterPrefixStep | src/Service/flashcard_generator_service.py:41-47 | One loop iteration is one `FilterStep`. |
| Generator.KeysAppend | src/Service/flashcard_generator_service.py:47 | The keys of a concatenation are the union of the keys. |
| Generator.GenerationPrompt | src/Service/flashcard_generator_service.py:114-133 | `_create_generation_prompt`. Its partner is `Generator.GenerationPromptEmbeds`. |
| Generator.GenerationPromptEmbeds | src/Service/flashcard_generator_service.py:114-133 | The user prompt contains the card count, the key-concept line and the section text. |
| Generator.SelectSections | src/Service/flashcard_generator_service.py:66-67 | Without `process_all`, only the first min(3, n) sections are kept. With it, all are kept. It is always a prefix. |
| Generator.DocFold | src/Service/flashcard_generator_service.py:70-89 | The per-section loop of the document run. Its partners are the method `Generator.FlashcardGenerator.CollectCards`, `Generator.DocFoldSpec`, `Generator.DocFoldAppend` and `Generator.FailingSectionSkipped`. |
| Generator.FlashcardGenerator.GenerateCardsFromDocument | src/Service/flashcard_generator_service.py:53-92 | Dividing, selecting and the per-section loop give exactly the cards and registry of `DocFold` over the selected sections. |
| Generator.FlashcardGenerator.CollectCards | src/Service/flashcard_generator_service.py:70-89 | The per-section loop gives exactly the cards and registry of `DocFold` over the given sections, from the registry as it was. |
| Generator.DocFoldPrefixStep | src/Service/flashcard_generator_service.py:82-89 | One loop iteration is one `DocStep`. |
| Generator.DocFoldAppend | src/Service/flashcard_generator_service.py:82-89 | The document fold composes over concatenated section lists. |
| Generator.FailingSectionSkipped | src/Service/flashcard_generator_service.py:84-89 | A section whose generation raises contributes no card and leaves the registry, and so every later section's outcome, as it was. |
| Generator.DocFoldSpec | src/Service/flashcard_generator_service.py:40-89 | Across the document, every collected card passes and was not registered before the run. No two collected cards share a key. The registry grows by exactly their keys. |
| Generator.DocStepCombine | src/Service/flashcard_generator_service.py:86 | Extending the collected cards with one section's keeps those properties. |
| Generator.UnsupportedNeverReturns | src/Service/llm_service.py:26-43 | With an unsupported provider the retrying service never returns a reply. |
| Generator.UnsupportedProviderCollectsNothing | src/Service/flashcard_generator_service.py:82-89 | With an unsupported provider every section is skipped, so a document run collects no card and registers no key. |
| CustomApiMessages.NewMessage | src/Entity/custom_api_message.py:17-24 | Construction succeeds exactly when the id is an `int` (including `bool`), the content is not blank and the role is `user` or `agent`. Otherwise the first failing check, in source order, names the error. |
| CustomApiMessages.GetLatestMessage | src/Entity/custom_api_message.py:33-37 | `get_latest_message`. Its partner is `CustomApiMessages.GetLatestMessageSpec`. |
| CustomApiMessages.GetLatestMessageSpec | src/Entity/custom_api_message.py:33-37 | `None` exactly for an empty list. Otherwise the result is a member whose `time` is greatest in string order, and the first such member. |
| CustomApiMessages.LatestIndex | src/Entity/custom_api_message.py:37 | `max(..., key=time)` picks an index whose time is at least every time and strictly greater than every earlier time. |
| CustomApiMessages.LatestStep | src/Entity/custom_api_message.py:37 | A strictly greater time replaces the candidate. |
| CustomApiMessages.LexTotal | src/Entity/custom_api_message.py:37 | Python string comparison is a strict total order. |
| CustomApiMessages.LexTransitive | src/Entity/custom_api_message.py:37 | It is transitive. |
| CustomApiMessages.LeTransitive | src/Entity/custom_api_message.py:37 | Its reflexive closure is transitive. |
| CustomApiMessages.LexLessIrreflexive | src/Entity/custom_api_message.py:37 | It is irreflexive. |
| CustomApiMessages.GetUserMessages | src/Entity/custom_api_message.py:39-41 | `get_user_messages`. It is `WithRole(messages, "user")`, and its partners are `CustomApiMessages.WithRole` and `CustomApiMessages.UserAgentPartition`. |
| CustomApiMessages.GetAgentMessages | src/Entity/custom_api_message.py:43-45 | `get_agent_messages`. It is `WithRole(messages, "agent")`, and its partners are `CustomApiMessages.WithRole` and `CustomApiMessages.UserAgentPartition`. |
| CustomApiMessages.WithRole | src/Entity/custom_api_message.py:39-45 | These are the messages of one role, in original order. Every message of that role appears as often as in the input, and no other message appears. |
| CustomApiMessages.WithRoleCount | src/Entity/custom_api_message.py:41-45 | Appending a message raises its count by one. |
| CustomApiMessages.RolesPartition | src/Entity/custom_api_message.py:23-45 | For validly constructed messages, the user and agent filters together have as many messages as the list. |
| CustomApiMessages.UserAgentPartition | src/Entity/custom_api_message.py:23-45 | The same, for `get_user_messages` and `get_agent_messages` of a response. |
| Statistics.GenerateStatistics | src/main.py:77-99 | `total_cards` is the number of cards and the distribution is `TagCounts` of all tags. For no cards, the distribution is empty and both averages are 0.0. Otherwise the averages are the length sums over the card count. |
| Statistics.CountTags | src/main.py:94-98 | The nested counting loops produce exactly `TagCounts` of every card's tags in order. |
| Statistics.DistributionSpec | src/main.py:93-98 | The keys are exactly the tags some card carries. Each count is that tag's number of occurrences, repeats within a card included. The counts, summed over the distinct tags, equal the total number of tags. |
| Statistics.TagCounts | src/main.py:93-98 | The tag distribution as a function of the tags counted. Its partners are the method `Statistics.CountTags`, `Statistics.TagCountsSpec` and `Statistics.TagCountsSum`. |
| Statistics.TagCountsSpec | src/main.py:93-98 | After counting a tag list, the keys are its members and each value is the occurrence count. |
| Statistics.TagCountsSum | src/main.py:93-98 | The counts, summed over the distinct tags, equal the number of tags counted. |
| Statistics.TagCountsAppend | src/main.py:95-98 | One more tag is one increment, creating the entry at 0. |
| Statistics.AllTagsMembers | src/main.py:93-94 | A tag occurs in the flattened tag lists exactly when some card carries it. |
| Statistics.AllTagsAppend | src/main.py:93-94 | One more card appends its tags. |
| Statistics.SumOverBump | src/main.py:97-98 | Incrementing one listed key raises the sum by one. |
| Statistics.SumOverFrame | src/main.py:97-98 | The sum depends only on the listed keys' counts. |

The single-file copy `Anki_flashcards_creator.py` is covered by the same members, with these differences:

- `Flashcard` (Anki_flashcards_creator.py:32-83): `post_init` is covered by `Flashcards.NewFlashcard` and `Flashcards.BareCardDefaults`. The score is covered by `Flashcards.LegacyScoreAgrees`.
- `TextProcessor.smart_divide_text` and `extract_key_concepts` (Anki_flashcards_creator.py:173-204) are the same code as the packaged ones.
- `LLMClient.call_api_with_retry` (Anki_flashcards_creator.py:214-232) is the `Legacy` variant. It falls off the loop with `None` (`LlmService.RetryNoAttempts`). That `None` makes the section's `re.split` raise, and the score's `re.search` raise into its `except`, so `Generator.SectionSpec` and `Generator.Judge` treat it like a raise.
- `_format_messages_to_prompt` (Anki_flashcards_creator.py:284-294) is the same code as the packaged one.
- `FlashcardGenerator` (Anki_flashcards_creator.py:296-417) has the same prompts, parser, key and filter.
- `process_pdf` (Anki_flashcards_creator.py:470-509) has the same selection (line 484) and skips a raising section (lines 505-506).
- `generate_statistics` (Anki_flashcards_creator.py:529-550) is the same loop. Its only difference is that the averages start at the integer 0 rather than 0.0, which has the same value.

## Left out

- The LLM HTTP and SDK calls (`_call_openai`, `_call_ollama`, `_call_openrouter`): network and foreign libraries. Each attempt's outcome is a parameter.
- `time.sleep`: the requested delays are recorded instead of slept. A negative delay, which makes Python's `sleep` raise, is modelled as the `NegativeSleep` failure.
- `tiktoken` token counting is an uninterpreted `estimate: string -> nat`. The budget bound is therefore on the sum of per-sentence estimates, as in the code.
- `hashlib.md5`: the key string itself is used, which is injective where md5 is assumed to be.
- The `ThreadPoolExecutor` / `as_completed` fan-out: modelled as a sequential fold in section order, which is one admissible schedule. No claim is made about the order of cards across sections, and the unsynchronised shared registry is not modelled.
- Generator.FlashcardGenerator.GenerateCardsFromDocument: starts from the extracted text. PDF reading (PyPDF2, file I/O) and its metadata are not modelled; the metadata's `file_name` is an `Option<string>` parameter.
- Export writers (CSV, JSON, Anki text files), interactive menus and logging: file and terminal I/O. The Anki line itself is modelled.
- `LLMConfig` reads the environment. It is an immutable record (`LlmService.LlmConfig`) whose `DefaultConfig` holds the documented defaults.
- `CustomApiService`: an asynchronous HTTP client, not modelled.
- Demo and smoke scripts, abstract interfaces and `__init__` re-exports hold no logic of their own.
- Generator.Judge: the LLM service is a deterministic function of the messages sent, so the same scoring prompt always gets the same reply.
- Flashcards.QualityScore: scores, thresholds and averages are exact `real` values. IEEE floating-point rounding is not modelled.
- Statistics.GenerateStatistics: the averages are exact `real` quotients. The sums are taken by specification functions rather than by the source's list comprehensions, and dictionary insertion order is not modelled (the distribution is a `map`).
- TextProcessor.IsWordChar: `\w` is approximated by ASCII letters, digits and `_`, Latin-1 and Latin Extended letters, Hangul and CJK ideographs, rather than the full Unicode categories. Likewise `\d` in the score is ASCII digits only.
- TextProcessor.ExtractKeyConcepts: `list(set(words))` has an unspecified order. The model keeps the first-occurrence order, and its contract states only what holds for every order.
- TextProcessor.ExtractKeyConcepts: the example of the `extract_key_concepts` unit test (src/test/test_text_processor.py:23-29) is not proved as an instance, because evaluating the regular-expression scan over an 80-character literal is beyond what the verifier unfolds. `TextProcessor.KeyConceptsArePhrases` states the general soundness.
- The concrete example pinned by the `clean_text` unit test is not proved as a separate instance. `TextProcessor.CleanTextShape` states the general shape.
- `re.DOTALL` captures and `\s` use Python's `str.isspace` set. Unicode normalisation is not modelled.
