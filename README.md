# Pediatric textbook assistant: chunker and citation extractor

This is a Dafny model of the logic at the core of a retrieval-augmented
question-answering assistant built on a pediatrics textbook.

**Offline ingestion** (`Chunker`).
- `chunkText` cuts the textbook into chunks of at most 1000 characters.
  - It tentatively takes `chunkSize` characters.
  - It moves the cut left until the character before the cut is whitespace.
  - It pushes the trimmed slice and continues from the cut.
- `chunkAndEmbed` then inserts one row per chunk, numbered by its position.

**Online chat** (`Citations`, `ChatApi`, `ChatRoute`, `ChatComponent`).
- The language model is asked to cite sources as `[Citation Text: Reference]`.
- `extractCitations` turns every match of `/\[(.*?)\]/g` in the answer into a `{text, reference}` record.
  - This function exists as three identical copies: in the request handler, in the HTTP route and in the chat component.
  - All three are modelled by the one function `Citations.ExtractCitations`.
- Around it, the model covers:
  - the step order of `handleChatRequest`;
  - the response mapping of the route's `POST`;
  - the state transition of the component's `handleSubmit`.

**Supporting modules.**
- `Results`: `Option` and `Result`. A `Failure` stands for a thrown exception.
  - `MapOrThrow` is `Array.prototype.map` with a callback that can throw.
- `Text`: the JavaScript string built-ins the code relies on.
  - The `\s` class and `trim()`.
  - Line terminators, the characters `.` does not match.
  - `split` with a one-character separator.
- `ChatTypes`: the records of src/types/index.ts, and the `chat_messages` row.
- Each of these modules has its own file, as does each modelled source file.

**How the regular expression is modelled.** `Citations.SpansFrom` is an explicit left-to-right scanner.
- A match starts at a `[` and ends at the first `]` after it, provided no line terminator comes first.
- If the `[` has no such close, the scan moves on by one character.
- After a match, the scan resumes after the `]`.

**Parameters.** The chain, the embedding request and `uuidv4()` are parameters of the model. A `None` from the chain or from the embedding stands for a call that throws.

**Edge-case behaviour of the code, as modelled:**
- A whitespace-free window of `chunkSize` characters makes the cut fall back to `startIndex`.
  - An empty chunk is then pushed and the loop repeats forever from the same position.
  - The same happens when `chunkSize` is 0, and at the end of a text that does not end in whitespace.
  - `Chunker.ChunkText` therefore requires `Chunkable`.
  - `Chunker.StallUnlessChunkable` proves that on every other input the loop stalls.
- A bracket with no `:` leaves `reference` `undefined`, so `reference.trim()` throws.
  - The extraction then fails as a whole.
- The reference is the trimmed text between the first and the second `:`: `[A: p:12]` gives reference `p`.
- A throwing `getEmbedding` ends the run of `chunkAndEmbed`, and the rows already inserted stay.

## Model

| member | source | states |
|---|---|---|
| Text.TrimSpec | scripts/chunk-and-embed.ts:51 | `trim()` keeps the contiguous part between the leading and the trailing whitespace. That part has no whitespace at either end, and it is empty exactly when the input is all whitespace. |
| Text.Split | src/api/chat.ts:49 | `split(':')` gives at least one field, more than one exactly when `:` occurs, and no field contains `:`. |
| Text.JoinSplit | src/api/chat.ts:49 | The fields of `split` joined by the separator give the input back. |
| Text.SplitJoin | src/api/chat.ts:49 | Splitting separator-free fields joined by the separator gives those fields back. |
| Chunker.TentativeEnd | scripts/chunk-and-embed.ts:43-44 | The tentative end is `startIndex + chunkSize` capped at the text's length. It is never before the start and never more than `chunkSize` past it. |
| Chunker.Retract | scripts/chunk-and-embed.ts:47-49 | The retracted cut lies between the start and the tentative end. It is the start or follows whitespace, and no whitespace lies between it and the tentative end. |
| Chunker.RetractIsLargestCut | scripts/chunk-and-embed.ts:47-49 | Those conditions determine the retracted cut: it is the largest admissible position. |
| Chunker.AdjustEnd | scripts/chunk-and-embed.ts:47-49 | The retraction `while` loop ends at exactly the retracted cut. |
| Chunker.CutAdvances | scripts/chunk-and-embed.ts:42-52 | On a `Chunkable` text every round moves `startIndex` forward. |
| Chunker.ChunkText | scripts/chunk-and-embed.ts:38-56 | The result is the trimmed greedy slices. An empty text gives no chunks. Each chunk is at most `chunkSize` long and has no whitespace at either end. |
| Chunker.ChunkStep | scripts/chunk-and-embed.ts:51-52 | One round pushes the trimmed slice up to the cut and continues from the cut, which lies after the start. |
| Chunker.TrimmedChunks | scripts/chunk-and-embed.ts:51 | The trimmed slices are at most `chunkSize` long, have no whitespace at either end, and there are none for an empty text. |
| Chunker.SlicesConcat | scripts/chunk-and-embed.ts:51-52 | The untrimmed slices are contiguous: they concatenate to the text. |
| Chunker.SlicesBounded | scripts/chunk-and-embed.ts:43-49 | Every untrimmed slice is non-empty, at most `chunkSize` long, and ends with whitespace, so every cut sits right after whitespace. |
| Chunker.SlicesGreedy | scripts/chunk-and-embed.ts:42-52 | Slice `k` starts where the earlier slices end and stops at the greedy cut taken from there. |
| Chunker.StallUnlessChunkable | scripts/chunk-and-embed.ts:42-52 | On a text that is not `Chunkable`, `startIndex` reaches a position below the end where the cut does not move, so the loop runs forever. |
| Chunker.InsertChunks | scripts/chunk-and-embed.ts:23-33 | Row `k` holds chunk `k`, `metadata.index = k` and the chunk's embedding. Rows are inserted in order. The run stops at the first embedding request that throws. |
| Chunker.ChunkAndEmbed | scripts/chunk-and-embed.ts:17-33 | Row `k` holds the `k`-th 1000-character chunk of the text, `metadata.index = k` and that chunk's embedding, whose request succeeded. The rows stop at the first chunk whose embedding request throws. |
| Citations.CloseAt | src/api/chat.ts:42 | The lazy `(.*?)\]` ends at the first `]` with no line terminator before it, and fails when there is none. |
| Citations.SpansFrom | app/api/chat/route.ts:66-67 | Every match the scan reports lies inside the text, after the scan's starting position. |
| Citations.SpansAreMatches | src/api/chat.ts:42-43 | Every reported span is a match: a `[`, then characters that are neither `]` nor a line terminator, then `]`. |
| Citations.SpansOrdered | src/api/chat.ts:42-43 | The matches come left to right and do not overlap. |
| Citations.SpansCoverMatches | app/api/chat/route.ts:66-67 | No match is missed. Every position where a match could begin lies inside a reported match. |
| Citations.SpansOverUnclosed | app/api/chat/route.ts:66-67 | A `[` whose line ends before any `]` starts no match, and the scan goes on with the next character. |
| Citations.MatchShape | src/components/Chat.tsx:140-146 | Every match is `[`, a content without `]` or line terminator, and `]`. `slice(1, -1)` removes exactly the two brackets. |
| Citations.InnerBracketed | src/components/Chat.tsx:146 | `slice(1, -1)` of a bracketed content gives that content. |
| Citations.MatchesEmptyIff | src/components/Chat.tsx:141-143 | `match` finds nothing exactly when no match exists anywhere in the text. |
| Citations.NoMatchNoCitations | src/api/chat.ts:43-45 | A text without a match gives the empty list. |
| Citations.ContentFields | src/api/chat.ts:48-50 | The label is the trimmed text before the first `:`. The reference is the trimmed text between the first and the second `:`. Anything after a second `:` is dropped. |
| Citations.ContentWithoutColon | app/api/chat/route.ts:73-74 | The callback throws exactly when the content has no `:`. |
| Results.MapSucceeds | app/api/chat/route.ts:71-75 | `map` with a callback that can throw succeeds exactly when the callback succeeds on every element. |
| Results.MapValues | src/components/Chat.tsx:145-149 | A successful `map` gives one value per element, in order, each the callback's result on that element. |
| Results.MapFirstError | src/api/chat.ts:47-51 | A failed `map` carries the error of the first element whose callback throws, and every callback before it succeeded. |
| Citations.ExtractCitationsSpec | src/api/chat.ts:41-52 | Extraction succeeds exactly when every match's content holds `:`. It then gives one citation per match, in order of appearance, duplicates kept, each parsed from its own match. |
| Citations.ExtractCitationsError | app/api/chat/route.ts:64-76 | A failed extraction fails on the first match without `:`, and its error names that content. |
| Citations.MatchesSingle | app/api/chat/route.ts:66-67 | A text with one bracketed part and no other `[` has exactly that match. |
| Citations.MatchesPair | src/api/chat.ts:42-43 | A text with two bracketed parts and no other `[` has exactly those two matches, in order. |
| Citations.ExtractSingle | src/components/Chat.tsx:145-149 | A lone `[a:b...]` gives the one citation (trimmed `a`, trimmed `b`). |
| Citations.ExtractSingleColonless | src/components/Chat.tsx:146-148 | A lone bracket without `:`, `[]` included, makes the extraction fail with that content. |
| Citations.ExtractPair | src/api/chat.ts:47-51 | Two bracketed citations give both, in order of appearance. |
| Citations.ExampleInnerOpenBracket | app/api/chat/route.ts:66 | `[a[b:c]` is a single match whose content keeps the second `[`. |
| Citations.ExampleUnclosedLine | app/api/chat/route.ts:66-67 | In `[x` + newline + `[A: p]`, the unclosed `[` gives nothing and the later match is still found. |
| ChatApi.HandleChatRequestSucceeds | src/api/chat.ts:4-34 | The request succeeds exactly when the chain answers and extraction succeeds. It then stores the user's message and then the answer with its citations, both under the request's session and user ids, and returns the answer and citations. |
| ChatApi.HandleChatRequestFails | src/api/chat.ts:5-38 | Extraction comes before both inserts, so a failed request stores nothing. It rethrows the chain's or the extraction's error. |
| ChatApi.ColonlessAnswerStoresNothing | src/api/chat.ts:12-29 | An answer with any match whose content has no `:`, wherever it stands, stores neither message. The error names the content of the first such match. |
| ChatRoute.PostResponds | app/api/chat/route.ts:42-62 | `POST` gives a 200 response with the answer and its citations exactly when the body is read, the chain answers and extraction succeeds. Otherwise it gives a 500 response with `Internal Server Error`. |
| ChatRoute.ColonlessAnswerIsServerError | app/api/chat/route.ts:58-61 | An answer with any match whose content has no `:` gives the 500 response. |
| ChatRoute.PlainAnswerHasNoCitations | app/api/chat/route.ts:52-57 | An answer without a match is sent with an empty citation list. |
| ChatComponent.SubmitIgnored | src/components/Chat.tsx:51 | A blank input, or a missing or empty user or session id, changes nothing and stores nothing. |
| ChatComponent.StartedShowsUserMessage | src/components/Chat.tsx:53-64 | While the answer is awaited, the user's message is appended, the spinner is on and the input box is empty. |
| ChatComponent.SubmitSettles | src/components/Chat.tsx:49-107 | An accepted submit always stores and shows the user's message first, clears the input and ends with the spinner off. The answer is stored and shown after it exactly when the chain answers and extraction succeeds. |
| ChatComponent.ColonlessAnswerKeepsUserMessage | src/components/Chat.tsx:66-106 | With any match whose content has no `:`, the user's row is already stored and shown. The catch only turns the spinner off, so no answer is stored or shown. |

## Left out

- Network and foreign libraries are not modelled: Supabase, LangChain's `RetrievalQAChain`, OpenAI and embeddings.
  - They are outside the repository.
  - They appear only as parameters: `chain` and `embed` return `None` for a call that throws.
  - `chain` and `embed` are not modelled further.
- The results of the Supabase inserts are not modelled. The client resolves with an `{error}` object instead of throwing, and the code never reads it, so every insert is modelled as the row it writes.
- `console.log` and `console.error` output is left out, because it does not change any state.
- The environment-variable checks, reading the textbook file and the prompt template are not part of this model. They are configuration and I/O.
- No vector index is modelled. The similarity search happens inside a database function that is not part of this model.
- Rendering, `useEffect`, session creation and scrolling in the chat component are left out. They are presentation and network glue.
- `ChatComponent.HandleSubmit` is modelled from the state before a submit to the state once it has settled, plus the intermediate awaiting state in `Started`.
  - Interleaving of two submits whose awaits overlap is not modelled.
- Characters are Unicode code points, whereas JavaScript string lengths and indices count UTF-16 code units.
  - The two agree on text within the Basic Multilingual Plane.
  - Outside it, a 1000-unit chunk in the script can hold fewer code points than here.
- `Chunker.ChunkText` requires `Chunkable`: the text is empty, or `chunkSize` is positive, the text ends in whitespace and no whitespace-free run is `chunkSize` long.
  - `chunkText` has no such check.
  - Off that condition `chunkText` loops forever, as `Chunker.StallUnlessChunkable` shows.
- `Chunker.AdjustEnd`: the inner retraction loop is its own method, called by `ChunkText`, instead of being nested in its loop.
- `Chunker.InsertChunks`: the embedding parameter also receives the chunk's index. `getEmbedding` is called with the chunk only; the index only lets the model describe which call failed.
- The examples that follow a text all the way to `ExtractCitations`, such as `[A: p:12]` giving `Citation("A", "p")`, are stated for texts built from parts, not for literal strings.
  - `Citations.ExtractSingle`, `ExtractSingleColonless` and `ExtractPair` are the lemmas stated this way.
  - On literal strings only the scanner examples are stated: `ExampleInnerOpenBracket` and `ExampleUnclosedLine`.
