# benefits-rag-agent: the retrieval pipeline in Dafny

This project models the retrieval core of the benefits question-answering
service in `main.py`. Four steps are covered:

- **Ingestion.** `load_and_chunk_pdfs` cuts each PDF's text into windows of
  `CHUNK_SIZE = 1000` characters. Window starts advance by
  `CHUNK_SIZE - CHUNK_OVERLAP = 800` while the start is inside the text. Each
  chunk is tagged with the basename of its file.
- **Embedding.** `embed_texts` sends the chunks to the embedding service in
  consecutive batches of 16 and appends the returned vectors in order.
- **The `/chat` handler.** It reads the query from the JSON body, rejects a
  missing or blank one with 400, gathers the hit chunks, builds the context
  string with 1-based `[i]` markers and the two prompt messages, and returns
  the stripped answer with the list of source files. Any exception inside
  its `try` block becomes a 500 carrying the exception's message.
- **The Python string operations it relies on.** `str.strip`,
  `os.path.basename`, `str(int)` and `str.join`.

Layout:

| file | module | contents |
|---|---|---|
| `windows.dfy` | `Windows` | generic sliding windows over `seq<T>`: count, starts, lengths, overlap, reconstruction, partition |
| `text.dfy` | `Text` | `Strip`, `Basename`, `NatToDecimal`, `Join` |
| `results.dfy` | `Results` | `Result<T>`: a service's value (`Success`) or the message of the exception it raised (`Failure`) |
| `ingest.dfy` | `Ingest` | the chunking loop, `ChunkText` at 1000/200, `LoadAndChunk` over the listed files |
| `embedder.dfy` | `Embedder` | batching by 16 and the appending of the service's answers |
| `chat.dfy` | `Chat` | the JSON body, the query guard, hit gathering, context and prompt, the response |

How the pieces fit:

- **One windowing function.** The chunker and the batcher are the same
  function, `Windows.Slide`: one with overlap 200, the other with overlap 0.
- **Two forms of the chunker.** The chunking loop is modelled twice: as the
  `while` loop itself (`Ingest.ChunkLoop`) and as a recursive function
  (`Windows.Slide`). `Ingest.ChunkDocument` proves that the two agree.
- **Services are parameters.** External services are function-typed
  parameters. These are the embedding service, the query embedding with the
  index search (`retrieve`), and the chat model (`complete`). Each returns
  a `Result`: a value, or the message of the exception the call raised.

Three behaviours of the code are modelled as written:

- **Bodies that are not JSON objects.** A body that is not JSON counts as
  `null`. After `get_json(silent=True) or {}`, any falsy body becomes `{}`
  and is rejected with 400. A truthy body that is not an object, or a
  `query` that is not a string, raises before the `try` block. The handler
  then does not answer, and the framework's own 500 page is returned
  (`Unhandled`).
- **Hit indices are Python list indices.** An index from `-len` to `len - 1`
  selects an element, so a negative index counts from the end. Any other
  index raises `IndexError` inside the `try` block, which gives a 500 with
  "list index out of range". The index pads its answer with -1 when it holds
  fewer than `TOP_K` vectors, so such a hit cites the last chunk and names
  the last chunk's file (`Chat.PaddingHitCitesLastChunk`).
- **The chunking test's expectation.** The repository's chunking test
  (test_main.py:38-46) gives both files the 22-character text
  "Page 1 text" + "Page 2 text" and expects every file name twice in the
  metadata. The code produces one chunk per file, because 22 characters fit
  in one window. So the metadata is `["file1.pdf", "file2.pdf"]`, which
  `Ingest.ChunkingTestFixture` proves. The model follows the code.

## Model

| member | source | states |
|---|---|---|
| Windows.WindowsFrom | main.py:49-55 | the `while start < len(text)` loop as recursion on the start; no contract of its own: `Windows.WindowsFromCount` and `Windows.WindowsFromAt` state its count and its windows |
| Windows.Window | main.py:51-52 | `xs[start:start + size]`: at most `size` elements, inside `xs`, and shorter than `size` only when it reaches the end of `xs` |
| Windows.Slide | main.py:49-55 | the windows at starts 0, stride, 2·stride, … while the start is inside `xs`; there are ceil(len / stride) of them (its lemmas below give their contents) |
| Ingest.ChunkText | main.py:49-55 | the chunks of one text at 1000/200, ceil(len / 800) of them (`Ingest.ChunkTextClosedForm` gives their contents) |
| Ingest.ChunkLoop | main.py:49-55 | the loop takes chunk i at start i·(size − overlap); every start is below the text length; chunk i is `text[start : min(start + size, len)]`; and there are exactly ceil(len / stride) chunks, none for an empty text |
| Ingest.ChunkDocument | main.py:49-55 | the loop produces exactly the recursive windows `ChunkText(text)` |
| Windows.WindowsFromCount | main.py:50-55 | the windows from a start inside the text number ceil((len − start) / stride), and none from a start at or past the end |
| Windows.WindowsFromAt | main.py:50-55 | the i-th window from `start` begins at `start + i·stride`, inside the text |
| Windows.SlideShape | main.py:49-55 | closed form: ceil(len / stride) windows, window i is `xs[i·stride : min(i·stride + size, len)]` and starts inside `xs` |
| Windows.SlideStarts | main.py:49-55 | window i exists exactly when i·stride < len, and it is the window of `size` at that start |
| Windows.SlideCount | main.py:49-55 | no windows exactly for an empty sequence; otherwise (len + stride − 1) / stride of them |
| Windows.SlideShortInput | main.py:49-55 | a sequence no longer than one stride gives no window if empty and otherwise the single window holding all of it |
| Windows.SlideWindowLength | main.py:51-52 | every window holds at most `size` elements and is shorter exactly when start + size > len |
| Windows.SlideLastWindowEnds | main.py:50-55 | a non-empty sequence has a last window, and it runs from its start to the end of the sequence |
| Windows.SlideShortWindowsTrail | main.py:50-55 | once a window is short all later ones are, and the short windows lie within one `size` of the end |
| Windows.SlideOverlap | main.py:51-55 | after a full window with positive overlap there is a next window, and it begins with the last `overlap` elements of the full one |
| Windows.SlideReassembles | main.py:49-55 | the first `stride` elements of each window but the last, followed by the whole last window, give back the sequence |
| Windows.WindowCountIsCeiling | main.py:50-55 | the window count is the least c with c·stride ≥ len, i.e. ceil(len / stride) |
| Ingest.ChunkTextClosedForm | main.py:49-55 | at 1000/200 there are (len + 799) / 800 chunks, and chunk i is `text[800·i : min(800·i + 1000, len)]` with 800·i < len |
| Ingest.TwoChunksJustOverOneStride | main.py:49-55 | a text of 801 to 1000 characters gives two chunks: the whole text and its suffix from 800 |
| Ingest.AtMostTwoShortChunks | main.py:49-55 | at 1000/200 only the last two chunks can be shorter than 1000 |
| Ingest.ChunkAll | main.py:43-56 | whatever the per-text chunker, the chunk list and the file-name list have equal length |
| Ingest.LoadAndChunk | main.py:42-56 | the chunk list and the metadata list have equal length |
| Ingest.ChunkAllChunkAt | main.py:45-54 | chunk i of file j sits at that file's offset plus i in the corpus and is tagged with the basename of file j's path |
| Ingest.DocumentChunksContiguous | main.py:43-56 | file j's chunks fit in the corpus from its offset, file j + 1's chunks begin right after them, and the corpus ends after the last file's chunks |
| Ingest.ChunkAllSize | main.py:43-56 | the corpus size is the sum of the files' chunk counts |
| Ingest.ChunkAllNames | main.py:54 | every metadata entry is the basename of one of the listed paths |
| Ingest.CorpusNamesAreDocumentNames | main.py:54 | every metadata entry of the 1000/200 corpus is the basename of a listed path |
| Ingest.ChunkAllWholeTexts | main.py:43-56 | when every file yields its whole text as its one chunk, chunk j is file j's text, tagged with file j's basename |
| Ingest.SmallFilesOneChunkEach | main.py:49-55 | files of 1 to 800 characters give one chunk each, the whole text, tagged with the file's basename, in listing order |
| Ingest.TwoSmallFilesOneChunkEach | main.py:45-55 | two such files with plain names give the chunks `[t1, t2]` and the metadata `[p1, p2]` |
| Ingest.ChunkingTestFixture | test_main.py:38-46 | the test's two 22-character files give the metadata `["file1.pdf", "file2.pdf"]`, one entry per file |
| Windows.SlidePartitions | main.py:65-66 | without overlap the windows are non-empty, hold at most `size` elements, all but the last exactly `size`, and concatenate back to the input |
| Embedder.Batches | main.py:65-66 | the batches `texts[i:i + 16]` for i = 0, 16, 32, …, which concatenate back to the input |
| Embedder.EmbedBatches | main.py:65-69 | a failure carries the message of the first batch whose call failed, every earlier call having succeeded; a success means every batch call succeeded |
| Embedder.EmbedTexts | main.py:63-70 | `embed_texts`: a failure carries the message of the first of the batches of 16 whose call failed; a success means every batch call succeeded |
| Embedder.BatchesPartition | main.py:65-66 | the batches concatenate back to the input, number ceil(len / 16), hold 1 to 16 texts, all but the last exactly 16 |
| Embedder.EmbedBatchesFails | main.py:65-69 | embedding fails exactly when some batch call fails |
| Embedder.EmbedTextsFails | main.py:63-70 | `embed_texts` fails exactly when the service fails on one of the batches |
| Embedder.EmbedBatchesCount | main.py:65-69 | when every batch answer holds one vector per text, embedding succeeds with as many vectors as texts |
| Embedder.EmbedTextsCount | main.py:63-70 | under the same condition `embed_texts` returns exactly `len(texts)` vectors |
| Embedder.EmbedBatchesPointwise | main.py:65-69 | if the service embeds each text on its own, the appended answers are each text's vector in order |
| Embedder.EmbedTextsPointwise | main.py:63-70 | batch boundaries do not matter: the result is each input's vector in input order |
| Embedder.CorpusEmbeddingsAligned | main.py:59-73 | at start-up, provided the service answers every batch with one vector per text, embedding succeeds and the vectors, chunks and file names are three lists of the same length |
| Text.Basename | main.py:54 | `os.path.basename`: holds no '/' and is no longer than the path (`Text.BasenameIsLastSegment` places it at the end of the path) |
| Text.Join | main.py:106 | `sep.join(parts)`; no contract of its own: `Text.JoinPlacesPart` and `Text.JoinSeparatesParts` state its layout |
| Text.Strip | main.py:89 | `strip()` is no longer than its input, is empty exactly when the input is all whitespace, and otherwise neither starts nor ends with whitespace |
| Text.StripIsInfix | main.py:89 | the stripped text is the infix of the input between a whitespace-only prefix and a whitespace-only suffix |
| Text.StripIdempotent | main.py:89 | stripping twice gives what stripping once gives |
| Text.BasenameIsLastSegment | main.py:54 | the basename holds no '/', is a suffix of the path, and is the whole path or preceded by '/' |
| Text.NatToDecimal | main.py:106 | `str(n)` is a non-empty string of digits without a leading zero unless n is 0 |
| Text.DecimalRoundTrip | main.py:106 | reading back `str(n)` as a decimal gives n |
| Text.JoinPlacesPart | main.py:106 | part i of `sep.join(parts)` sits at its offset, and the joined string ends where the last part ends |
| Text.JoinSeparatesParts | main.py:106 | a separator follows every part but the last in `sep.join(parts)` |
| Chat.Truthy | main.py:88 | Python truthiness of the parsed body, which decides `or {}`; no contract of its own: `Chat.ReadQuery` and `Chat.EmptyBodyRejected` state its effect |
| Chat.ReadQuery | main.py:88-89 | a falsy body reads as a missing query; reading raises exactly for a truthy body that is not an object or whose "query" is not a string; a query passed on is non-empty with no whitespace at either end |
| Chat.QueryGuard | main.py:88-91 | with an object body, the request is rejected exactly when "query" is absent or whitespace-only; otherwise the query is passed on stripped, with no whitespace at either end |
| Chat.EmptyBodyRejected | main.py:88-91 | an empty object or absent body gets exactly `BadRequest("Missing 'query' field.")` whatever the services do |
| Chat.Gather | main.py:103 | the gathered list succeeds exactly when every hit is a valid Python index; then it has one element per hit, the element each hit selects; otherwise the error is "list index out of range" |
| Chat.Citation | main.py:106 | `f"[{rank}] {text}"`: '[' first, the chunk text last, and three characters plus the rank's digits longer than the text |
| Chat.CitedParts | main.py:106 | one citation per hit chunk, ranked from 1; its contract states only the count, `Chat.ContextCitesInRankOrder` states the rest |
| Chat.Prompt | main.py:107-110 | two messages: the fixed system prompt, then a user message made of "Context:", the context, " Question: " and the question, in that order and nothing else |
| Chat.AssembleContext | main.py:106 | the context is empty exactly when there are no hits |
| Chat.CitationReadsBack | main.py:106 | a citation reads as '[', the digits of its rank (which read back as the rank), "] ", then the chunk text |
| Chat.ContextCitesInRankOrder | main.py:106 | the i-th chunk appears with the marker of rank i + 1 at its offset in the context, followed by one space unless it is the last one, which ends the context |
| Chat.HandleChat | main.py:87-125 | 400 with the exact message exactly when the query is missing or blank, the framework's 500 exactly when reading the body raises, and on 200 one source per hit (the file of the hit's chunk) and the stripped completion of the prompt built from the hit chunks |
| Chat.ChatFailuresAreServerErrors | main.py:92-125 | a failed embedding or search, an index that selects no chunk, or a failed completion each give a 500 with that exception's message; when nothing fails the request is answered |
| Chat.PaddingHitCitesLastChunk | main.py:99-103 | a -1 hit in an answered request cites the last chunk and names the last chunk's file |
| Chat.SourcesNameCitedDocuments | main.py:121 | over a loaded corpus, source k and the chunk cited as [k + 1] are read at the same corpus position, and every source names a listed file |

## Left out

- Reading the PDF folder and extracting page text (`glob`, `PyPDF2`): file I/O. The documents arrive as (path, text) pairs in listing order, the page texts already joined, with a page without text contributing "".
- `os.path.basename` is modelled for POSIX paths ('/' as the only separator).
- The OpenAI embedding and chat-completion calls are parameters. The model names, `temperature` and `max_tokens` are not modelled. A completion whose content is `None` (its `.strip()` raises inside the `try` block) is one of the failures of `complete`.
- The float32 array conversion and `faiss.normalize_L2`: floating-point numerics. Vectors are opaque values.
- FAISS index construction and search. They are the `retrieve` parameter, which may return any list of integers. The index returns `TOP_K = 5` labels, but the model does not restrict the list's length.
- The start-up crash at `embeddings.shape[1]` when no chunk was produced: NumPy array shapes are not modelled.
- Embedder.EmbedTextsCount: holds only when every batch answer has one vector per text. The code never compares the number of vectors with the number of texts, so the model does not either.
- Embedder.CorpusEmbeddingsAligned: the same condition. A service that answers a batch with fewer or more vectors than texts leaves the vector list out of step with the chunk list, and nothing in the code notices.
- Flask routing, `jsonify` and logging. Responses are a datatype with their status codes.
- JSON numbers are reals: Python's distinction between `0` and `0.0` does not affect truthiness.
- `getenv_or_raise`, the client set-up and the `__main__` bootstrap: configuration.
- google_calendar_setup.py: OAuth and token storage, not part of this model.
- The glossary, cost and appointment functions imported by test_main.py:3-9: `main.py` does not define them, so there is nothing to model.
