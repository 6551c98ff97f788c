# AI Text Analyzer: the analysis request pipeline in Dafny

This project models `analyzeTextAction`, the server action of the AI Text
Analyzer. The action takes a user's text and checks that the Gemini API key is
configured. It then trims and validates the text and counts its words and
characters. Next it asks the model for a JSON analysis (sentiment, topics,
summary) and cleans code fences from the reply. It parses the reply with
field-by-field defaults, or falls back to a truncated raw reply. Finally it
assembles the result record and maps failures to errors.

The action has no loops and no mutable state. Its one mutation, three `let`
variables that are set to defaults and then overwritten once, is an
if-then-else. So the model is made of functions and lemmas:

- `wrappers.dfy`, module `Wrappers`: `Option` and `Result`.
- `whitespace.dfy`, module `Whitespace`: `trim` and the word count
  `text.split(/\s+/).filter(Boolean).length`. The split follows the
  ECMAScript RegExp split algorithm, so leading or trailing whitespace gives an
  empty piece. There is a reference definition of "number of maximal
  non-whitespace runs", plus lemmas tying the two together.
- `fence.dfy`, module `Fence`: the two global regular-expression replacements,
  of "```json" + whitespace and of "```" + whitespace, followed by `trim`.
- `response.dfy`, module `Response`: the two-tier normalisation of the reply.
- `analysis.dfy`, module `Analysis`: validation, local metrics, result
  assembly, error messages and the whole action, `Analyze`.

The outside world enters as parameters of `Analysis.Analyze`:

- the API key (`Option<string>`; unset and empty both count as missing);
- the input (`Option<string>`, because of `inputText ?? ""`);
- the outcome of the model call (`Reply(content)` or `InvokeFailed`);
- `parse: string -> Option<FieldMap>` in place of `JSON.parse` plus property
  access. `None` means the parse threw or gave `null`. With `null`, reading
  `.sentiment` throws inside the same inner `try`.
- the completion time `now`, which becomes the result's `timestamp`.

Whitespace is one predicate, `IsWs`, shared by `trim` and `\s`. Its body lists
the ECMAScript WhiteSpace and LineTerminator code points. The trimming and
word-count proofs hold for any choice of characters. The code-fence proofs rest
on exactly two facts about the set: a line feed is whitespace and a backtick is
not. The lemma `Whitespace.NewlineIsWsBacktickIsNot` states both, and the fence
lemmas call it.

Three behaviours of the code that the model keeps as written:

- A missing API key throws its own message ("GEMINI_API_KEY not found in
  environment variables") before the `try` (src/app/actions.ts:45-47). It is
  not turned into the generic analysis failure.
- An empty model reply is not an upstream error. `JSON.parse("")` throws, so
  the result gets the fallback, with summary `""`.
- A fenced reply normalises like the bare payload only when the payload
  parses. The fallback summary is cut from the raw reply, so on a parse
  failure it keeps the fence (`Response.WrappedFallbackKeepsFence`).

## Model

| member | source | states |
|---|---|---|
| `Whitespace.TrimStart` | src/app/actions.ts:49 | the result is a suffix of the input and is empty or starts with a non-whitespace character |
| `Whitespace.TrimStartDropsWs` | src/app/actions.ts:49 | everything the leading trim drops is whitespace, so the result starts at the first non-whitespace character |
| `Whitespace.TrimEnd` | src/app/actions.ts:49 | the result is a prefix of the input and is empty or ends with a non-whitespace character |
| `Whitespace.TrimEndDropsWs` | src/app/actions.ts:49 | everything the trailing trim drops is whitespace, so the result ends at the last non-whitespace character |
| `Whitespace.Trim` | src/app/actions.ts:49 | `trim()` returns a contiguous slice of the input that neither starts nor ends with whitespace |
| `Whitespace.TrimRemovesOnlyWs` | src/app/actions.ts:49 | everything `trim()` removes on either side is whitespace |
| `Whitespace.TrimEmptyIffAllWs` | src/app/actions.ts:49-52 | the trimmed text is empty exactly when the input is all whitespace |
| `Whitespace.TrimIdempotent` | src/app/actions.ts:49 | trimming an already trimmed text changes nothing |
| `Whitespace.SplitWs` | src/app/actions.ts:58 | `split(/\s+/)` yields at least one piece; no piece contains whitespace; the first piece is empty exactly when the text is empty or starts with whitespace |
| `Whitespace.NonEmpty` | src/app/actions.ts:58 | `filter(Boolean)` keeps no more pieces than it is given; each one kept is non-empty and comes from the input, and every non-empty piece is kept (order and repetitions: `NonEmptyConcat`, `NonEmptySingleton`) |
| `Whitespace.NonEmptyConcat` | src/app/actions.ts:58 | filtering a concatenation is the concatenation of the filtered parts, so order and every repeated piece are kept |
| `Whitespace.NonEmptySingleton` | src/app/actions.ts:58 | a single piece is kept exactly when it is non-empty |
| `Whitespace.Tokens` | src/app/actions.ts:58 | `split(/\s+/).filter(Boolean)`: every word is non-empty and free of whitespace |
| `Whitespace.WordCount` | src/app/actions.ts:58 | no contract of its own; `WordCountIsRunCount` and `WordCountBounds` state what it counts |
| `Whitespace.WordCountIsRunCount` | src/app/actions.ts:58 | the word count equals the number of positions that start a maximal non-whitespace run |
| `Whitespace.TokensAreTheRuns` | src/app/actions.ts:58 | every word is non-empty and free of whitespace; the words, concatenated, are exactly the text's non-whitespace characters in order; there are as many words as runs |
| `Whitespace.RunCountCons` | src/app/actions.ts:58 | a character put in front of a text adds a run unless it is whitespace or extends the text's first run |
| `Whitespace.WordCountBounds` | src/app/actions.ts:49-59 | on a trimmed non-empty text, 1 <= word count <= character count |
| `Fence.RemoveMarker` | src/app/actions.ts:74-75 | one global replacement of marker + `\s*` never makes the text longer; `RemoveAbsentMarker`, `KeepPrefix` and `RemoveAtMatch` together fix its result on every input |
| `Fence.CleanReply` | src/app/actions.ts:73-76 | the cleaned reply is never longer than the raw one; `CleanReplyHasNoFence`, `CleanUnfenced`, `CleanReplyIdempotent` and `CleanWrapped` state the rest |
| `Fence.RemoveAtMatch` | src/app/actions.ts:74-75 | at the first occurrence of the marker, the marker and the whole whitespace run after it are deleted, and the scan goes on at the first non-whitespace character after the run |
| `Fence.RemoveAbsentMarker` | src/app/actions.ts:74-75 | a replacement whose marker does not occur leaves the text unchanged |
| `Fence.KeepPrefix` | src/app/actions.ts:74-75 | a prefix in which no marker occurrence starts passes through the replacement unchanged |
| `Fence.RemoveBackticksLeavesNone` | src/app/actions.ts:75 | after the second replacement no "```" is left, not even one formed by joining kept text |
| `Fence.CleanReplyHasNoFence` | src/app/actions.ts:73-76 | the cleaned reply never contains "```" |
| `Fence.CleanUnfenced` | src/app/actions.ts:73-76 | a reply without "```" is only trimmed |
| `Fence.CleanReplyIdempotent` | src/app/actions.ts:73-76 | cleaning an already cleaned reply changes nothing |
| `Fence.CleanWrapped` | src/app/actions.ts:73-76 | for any payload without "```", cleaning "```json\n" + payload + "\n```" gives the same text as cleaning the payload |
| `Response.Slice` | src/app/actions.ts:85 | `slice(0, n)` is the prefix of length min(n, length) |
| `Response.Coalesce` | src/app/actions.ts:79-81 | no contract of its own; `Normalize` states the `??` behaviour per field |
| `Response.Normalize` | src/app/actions.ts:67-86 | if the cleaned reply parses, each field is the parsed string when present and not null (an empty string is kept, and nothing is truncated); otherwise it gets its default ("Unknown", "", ""). If parsing fails, sentiment is "Unknown", topics is "", and the summary is the prefix of the raw, uncleaned reply of length min(120, length) |
| `Response.WrappedReplyParsesAsPayload` | src/app/actions.ts:73-81 | when the payload parses, a reply fenced in a ```json block normalises exactly like the bare payload |
| `Response.WrappedFallbackKeepsFence` | src/app/actions.ts:73-86 | when the payload does not parse, the fenced reply's fallback summary starts with "```" and differs from the bare reply's |
| `Analysis.Message` | src/app/actions.ts:45-118 | only the failure inside the outer `try` has the generic "Failed to analyze text. Please try again." |
| `Analysis.MessageInjective` | src/app/actions.ts:46-54 | each error has its own message: equal messages mean equal errors |
| `Analysis.HasApiKey` | src/app/actions.ts:45 | no contract of its own; `Validate` and `Analyze` state that an unset or empty key fails first |
| `Analysis.OrEmpty` | src/app/actions.ts:49 | no contract of its own; `Validate` states that the trimmed `inputText ?? ""` is what is checked and returned |
| `Analysis.Validate` | src/app/actions.ts:45-55 | a missing key gives the configuration error whatever the input; then all-whitespace input gives "Text is required" and a trimmed length over 5000 gives "too long"; it succeeds exactly when the key is set and 0 < trimmed length <= 5000 (so 5000 is accepted), and it returns the trimmed text |
| `Analysis.LocalMetrics` | src/app/actions.ts:57-59 | the word count is the number of maximal non-whitespace runs; the character count is the length; on a trimmed non-empty text, 1 <= words <= characters |
| `Analysis.Analyze` | src/app/actions.ts:38-119 | the configuration and validation errors keep their own messages and come before anything else; the call succeeds exactly when the key is set, the trimmed text has 1..5000 characters and the model replied; after validation the generic failure happens exactly when the model call fails, so a reply that does not parse never fails the call; on success charCount is the trimmed length, wordCount is the run count with 1 <= wordCount <= charCount <= 5000, timestamp is `now`, and the three analysis fields are the normalised reply |
| `Analysis.CountsIgnoreReply` | src/app/actions.ts:58-91 | two successful runs on the same input report the same counts, whatever the reply, parser or time |
| `Analysis.UnparsableReplyDegrades` | src/app/actions.ts:82-95 | with a valid request and a reply that does not parse, the call still succeeds, with sentiment "Unknown", topics "" and, as summary, the prefix of the raw reply of length min(120, length) |

## Left out

- Model construction and the `chain.invoke` call (src/app/actions.ts:16-20, 63-64): a remote LLM reached through LangChain. The model takes its outcome as the `reply` parameter. The outcome is either a string or a failure, so retries, timeouts and the temperature setting are not modelled.
- The prompt template (src/app/actions.ts:23-36): its rendering follows LangChain `PromptTemplate` rules (`{{`/`}}` escaping, variable substitution), and that code is not part of this model. The model never looks at the prompt.
- `JSON.parse`: a foreign parser, kept as the uninterpreted `parse` parameter. In the code, a parsed property that is neither a string nor null (a number, say) passes through `??` unchanged. The model's `Value` has only strings and null, so it does not capture that case.
- `String(aiResult.content)` for non-string content (an array of message parts, `undefined`): the model takes the already stringified content.
- The webhook `fetch` (src/app/actions.ts:97-112): fire-and-forget network I/O. It never changes the returned value, and it is not modelled.
- Console logging (src/app/actions.ts:42-44, 83, 109, 116). This includes line 42's logging of the API key, which is deliberately not reproduced.
- The clock (`new Date().toISOString()`, src/app/actions.ts:94, 106): the timestamp is the `now` parameter, and its ISO-8601 format is not checked.
- UTF-16 code units: JavaScript's `length` and `slice` count UTF-16 code units, while the model counts characters. So a 120-unit slice that splits a surrogate pair, and the 5000 limit for text outside the Basic Multilingual Plane, are not modelled exactly.
- Fence.RemoveMarker: its own contract states only that the text does not grow. What it copies and what it deletes are stated by `KeepPrefix`, `RemoveAbsentMarker` and `RemoveAtMatch`, which together determine its result.
- The React component src/components/TextAnalyzer.tsx and the static pages src/app/page.tsx and src/app/layout.tsx: presentation only. One detail is not modelled: the component's button guard checks the untrimmed length, while the action checks the trimmed length.
