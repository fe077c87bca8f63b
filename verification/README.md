# Diligent retrieval pipeline, modelled in Dafny

This project models the two Python modules at the core of the Diligent
retrieval-augmented question answering backend:

- `backend/ingest.py` is the ingestion job. It picks the `.txt` and `.md`
  files of the knowledge directory and reads each file with non-blank
  contents as a document. It cuts each document into overlapping chunks
  with `chunk_text` and writes one record per chunk (id, vector, metadata)
  to the vector index, in upserts of 100 records with a final flush of
  the rest.
- `backend/rag.py` is the query side:
  - `ensure_index` parses the environment string into a region and a cloud,
    and creates the index only when no index of that name exists;
  - `retrieve` projects the vector store's matches into passages, with
    defaults for missing metadata;
  - `_build_prompt` assembles the prompt;
  - `answer` strips the model's reply and lists each source once, at its
    first passage.

The Dafny files:

- `strings.dfy` (module `Strings`) holds the parts of Python's `str` the
  pipeline uses: `strip()`, `split` on one character, and `join`.
- `chunker.dfy` (module `Chunker`) holds `chunk_text` as written, with an
  iteration budget. It also holds the corrected loop.
- `ingest.dfy` (module `Ingest`) holds file selection, `read_files`, record
  generation and the batching loop of `main`. The index is a class that
  logs its upserts.
- `rag.dfy` (module `Rag`) holds placement parsing, `ensure_index`,
  `retrieve`, `_build_prompt`, source deduplication and `answer`.

Everything outside the process enters as a parameter:

- what the directory walk found, with each file's contents;
- the embedding model, as a function from text to vector;
- the k-th random record id;
- the chunker;
- the vector query's matches, or its error;
- the language model, as a function from prompt to reply or error.

Scores, vectors and ids are opaque type parameters.

`chunk_text` is modelled as the code is written. The loop's own `break`
(backend/ingest.py:32-33) is meant to end it once a window reaches the end
of the text, and `main` calls it with its defaults expecting it to return.
But the `break` fires only when the next start is at or past `len(text)`,
and for a positive overlap that never happens on a non-empty text (see
Findings).

## Model

| member | source | states |
|---|---|---|
| Strings.Strip | backend/rag.py:109 | the stripped string is the infix of the input starting where the leading whitespace ends, and is empty or begins and ends with a non-whitespace character (Python's `isspace` set) |
| Strings.StripInfix | backend/ingest.py:18 | what `strip()` cuts off before and after that infix is all whitespace |
| Strings.StripEmpty | backend/ingest.py:18-19 | the stripped text is empty exactly when the whole text is whitespace, i.e. when `read_files` skips the file |
| Strings.StripIdempotent | backend/rag.py:109 | stripping a stripped string changes nothing |
| Strings.Join | backend/rag.py:25 | `sep.join(parts)`: the parts in order with one separator between neighbours; characterised by JoinAppend, JoinLength, JoinPartAt and JoinSeparatorAt |
| Strings.Split | backend/rag.py:23 | `split('-')` gives one more part than there are dashes, no part holds a dash, and joining the parts with the dash gives the string back |
| Strings.SplitWithoutSeparator | backend/rag.py:23 | a string without a dash splits into itself alone |
| Strings.SplitAtSeparator | backend/rag.py:23 | splitting `x-y` gives the parts of `x` followed by the parts of `y` |
| Strings.SplitJoin | backend/rag.py:23-25 | dash-free parts joined with dashes split back into the same parts |
| Strings.JoinAppend | backend/rag.py:25 | joining one more part adds one separator and that part at the end |
| Strings.JoinLength | backend/rag.py:91 | a join of n parts is as long as the parts plus n - 1 separators |
| Strings.JoinPartAt | backend/rag.py:91 | each part sits in the join at the offset after all earlier parts and one separator each |
| Strings.JoinSeparatorAt | backend/rag.py:91 | exactly the separator lies between two neighbouring parts of a join |
| Chunker.Windows | backend/ingest.py:26-31 | the windows the loop emits within an iteration budget, at most one per iteration; characterised by WindowsShape, NeverExits, RepeatsFrom and NoOverlapTerminates |
| Chunker.Exits | backend/ingest.py:26-33 | whether the `while` test or the `break` (both `start >= len(text)`) fires within the budget; NeverExits and NoOverlapTerminates say when it does |
| Chunker.WindowsShape | backend/ingest.py:26-31 | every chunk is `text[start:end]` with `0 <= start < end <= len`, `end = min(len, start + chunk_size)` and at most `chunk_size` characters; the first starts at 0 and each next one at the previous end minus the overlap, clamped at 0; at most one window per iteration |
| Chunker.ChunkText | backend/ingest.py:23-34 | for any `chunk_size >= 0`, the loop run for a budget of iterations gives exactly the chunks of the window sequence and reports whether it left; empty text gives no chunk and leaves at once; with a positive overlap and non-empty text it never leaves and emits one chunk per iteration |
| Chunker.NeverExits | backend/ingest.py:26-33 | with overlap > 0 and start < len, neither the `while` test nor the `break` ever fires, however many iterations are allowed |
| Chunker.RepeatsFrom | backend/ingest.py:27-31 | from a start that the next iteration reproduces, the same window is emitted at every iteration |
| Chunker.FinalWindowRepeatsForever | backend/ingest.py:27-33 | once a window reaches the end (0 < overlap <= chunk_size), the next start is `max(0, len - overlap) < len`, and the window `[max(0, len - overlap), len)` repeats forever |
| Chunker.ZeroChunkSizeEmitsEmptyChunks | backend/ingest.py:26-31 | with `chunk_size = 0` on a non-empty text every window is `[0, 0)`: the loop emits empty chunks forever |
| Chunker.DefaultsNeverFinish | backend/ingest.py:23-33 | with the defaults 800 and 100, chunking any non-empty text never finishes |
| Chunker.DefaultsOnThousandCharacters | backend/ingest.py:23-33 | a 1000-character text with the defaults yields [0,800), [700,1000), then [900,1000) over and over |
| Chunker.NoOverlapTerminates | backend/ingest.py:26-34 | with overlap 0, ceil((len - start) / chunk_size) iterations suffice for the loop to leave, and its windows are exactly `[start, start+cs), [start+cs, start+2cs), …` |
| Chunker.NoOverlapChunksConcatenate | backend/ingest.py:26-34 | with overlap 0 the loop leaves and its chunks concatenate to the text |
| Chunker.SharedOverlap | backend/ingest.py:29-31 | two consecutive chunks whose second does not start at 0 share exactly `overlap` characters: the tail of the first is the head of the second |
| Chunker.FixedWindowsShape | backend/ingest.py:26-34 | corrected loop: first window at 0, last window ends at len, every window but the last holds exactly `chunk_size` characters, each next window starts `overlap` before the previous end |
| Chunker.FixedChunksReassemble | backend/ingest.py:26-34 | corrected loop: dropping each shared overlap once and concatenating the chunks gives the text back (no gap, no loss) |
| Chunker.ChunkTextFixed | backend/ingest.py:23-34 | the corrected loop terminates for `0 <= overlap < chunk_size`, emits the corrected windows, and its chunks reassemble to the text |
| Ingest.IsCorpusFile | backend/ingest.py:47 | `name.lower().endswith((".txt", ".md"))`; characterised character by character by CorpusFileByLastCharacters |
| Ingest.CorpusFileByLastCharacters | backend/ingest.py:47 | a name is selected exactly when it ends in `.txt` or `.md`, each letter in either case |
| Ingest.SelectFiles | backend/ingest.py:45-48 | the files the walk keeps, in walk order, never more than were found; SelectFilesExactly says which |
| Ingest.SelectFilesExactly | backend/ingest.py:45-48 | a file is kept exactly when its name passes the extension test |
| Ingest.CorpusPaths | backend/ingest.py:44-48 | the walk loop collects the selected files in walk order |
| Ingest.ReadDocuments | backend/ingest.py:15-20 | `read_files`: at most one document per file, in file order; ReadDocumentsNonBlank, ReadDocumentsComplete and ReadDocumentsSound say which |
| Ingest.ReadDocumentsNonBlank | backend/ingest.py:15-20 | every document has non-empty text with nothing left to strip, and there are no more documents than files |
| Ingest.ReadDocumentsComplete | backend/ingest.py:15-20 | every file with non-blank contents yields a document of its stripped text, named by the file |
| Ingest.ReadDocumentsSound | backend/ingest.py:15-20 | every document comes from a file, as that file's stripped text and name |
| Ingest.RecordsOfAppend | backend/ingest.py:55-62 | generating one more record appends the next id, the chunk's vector and its metadata |
| Ingest.Batches | backend/ingest.py:64-68 | the upserts `main` sends for a record sequence, none exactly when there is no record; BatchesPartition, BatchesCount and BatchesAppend characterise them |
| Ingest.BatchesPartition | backend/ingest.py:53-68 | the upserts, concatenated in call order, give exactly the generated records; every upsert but the last holds 100; the last holds 1 to 100; there is no upsert when there is no record |
| Ingest.BatchesCount | backend/ingest.py:64-68 | there are ceil(records / 100) upserts |
| Ingest.BatchesAppend | backend/ingest.py:64-68 | after a run of full batches, flushing a buffer of 1 to 100 records adds exactly that buffer as one more upsert |
| Ingest.VectorIndex.Upsert | backend/ingest.py:64-68 | `index.upsert(vectors=...)`: the batch is appended to the index's log of upserts, in call order |
| Ingest.IngestDocument | backend/ingest.py:55-66 | one document's chunks are buffered as records with consecutive ids; full buffers are flushed, the buffer stays below 100, and the upserts so far are the batches of what was flushed |
| Ingest.IngestDocuments | backend/ingest.py:53-66 | after all documents, the flushed records plus the buffer are exactly the generated records, the flushed ones form whole batches of 100, and they were upserted in order |
| Ingest.Ingest | backend/ingest.py:37-68 | with no selected file nothing is upserted; otherwise the upserts are exactly the batches of 100 of the records of every chunk of every document, in order, the final partial batch included |
| Rag.ParsePlacement | backend/rag.py:23-30 | the three branches on the number of dash-separated parts; the cloud never holds a dash; ParsePlacementCases, PlacementFromTwoParts and PlacementFromFourParts characterise it |
| Rag.ParsePlacementCases | backend/rag.py:22-30 | by the number of dashes: 0 or 2 give `("us-east-1", "aws")`; 1 gives `env == region-cloud`; 3 or more give a two-dash region and a dash-free cloud that start the string, with the rest ignored |
| Rag.PlacementFromTwoParts | backend/rag.py:27-28 | `region-cloud` with dash-free parts parses to that region and cloud |
| Rag.PlacementFromFourParts | backend/rag.py:24-26 | `r1-r2-r3-cloud` followed by anything from a dash parses to region `r1-r2-r3` and that cloud |
| Rag.DefaultEnvironmentPlacement | backend/rag.py:15 | the default environment `us-east-1-aws` gives region `us-east-1`, cloud `aws` |
| Rag.EnsureIndex | backend/rag.py:32-39 | the index names afterwards are the existing ones plus `name`; existing indexes are unchanged whatever their dimension; a new one has the given dimension, metric `cosine` and the parsed placement |
| Rag.EnsureIndexIdempotent | backend/rag.py:32-33 | a second `ensure_index` of the same name changes nothing, even with another dimension or environment |
| Rag.Projection | backend/rag.py:73-76 | one passage per match, in match order; Retrieve states the field defaults |
| Rag.Retrieve | backend/rag.py:72-77 | one passage per match in match order, with text and source from the metadata (or `""` and `"unknown"`) and the score copied |
| Rag.Context | backend/rag.py:91 | the passages' `Source: <source>\n<text>` blocks joined by `\n---\n`; characterised by ContextBlocks, ContextLength and PromptWithoutPassages |
| Rag.BuildPrompt | backend/rag.py:92-96 | the f-string of `_build_prompt`; PromptPassageAt and PromptQuestionAt say where each part lies |
| Rag.PromptPassageAt | backend/rag.py:91-96 | each passage's block lies in the prompt right after the instructions and `Context:` heading, at its offset in the context |
| Rag.PromptQuestionAt | backend/rag.py:92-96 | the prompt starts with the system instructions and ends with `\n\nQuestion: `, the question and `\nAnswer:`, whatever the passages |
| Rag.PromptWithoutPassages | backend/rag.py:91-96 | with no passage the context is empty and the prompt is the instructions followed by the question |
| Rag.ContextBlocks | backend/rag.py:91 | each passage's `Source: <source>` block sits in the context in passage order, with exactly one `\n---\n` between neighbours and none at either end |
| Rag.ContextLength | backend/rag.py:91 | the context is as long as its blocks plus n - 1 separators |
| Rag.FirstBySource | backend/rag.py:102-108 | the sources `answer` returns, never more entries than passages; FirstBySourceDistinct, FirstBySourceCount and FirstBySourceFirstOccurrence characterise it |
| Rag.FirstBySourceDistinct | backend/rag.py:102-108 | every source of the passages appears in the result, no other does, and none twice |
| Rag.FirstBySourceCount | backend/rag.py:102-108 | the result has one entry per distinct source |
| Rag.FirstBySourceFirstOccurrence | backend/rag.py:104-108 | each entry carries the score of its source's first passage, and entries follow the order of those first passages |
| Rag.RepeatedSourceKeepsFirstScore | backend/rag.py:104-108 | doc1 0.9, doc2 0.8, doc1 0.95 gives doc1 0.9 then doc2 0.8 |
| Rag.DedupSources | backend/rag.py:102-108 | the loop with a seen set returns the first entry per source, in order |
| Rag.Answer | backend/rag.py:98-109 | a failed query or model call is passed on; otherwise the answer is the reply to the prompt built from the retrieved passages, stripped, with the deduplicated sources |

## Left out

- Embedding with SentenceTransformer: a parameter (`embed`, the query's matches); vectors are opaque.
- Pinecone calls (`list_indexes`, `create_index`, `describe_index`, `Index`, `query`, `upsert`): the account's indexes are a map and the index is an upsert log.
- The readiness polling loop with `time.sleep` in `ensure_index`: it waits on an external service.
- The duck-typed dict/object response handling: the model takes matches as values.
- `generate`, the HTTP call to Ollama with its transport-error wrapping: a parameter returning a reply or an error. Its `response` default of `""` happens inside that parameter.
- `uuid.uuid4()`: the k-th id is `newId(k)`, so ids are not proved distinct.
- `os.walk`, `open`/`read` with `errors="ignore"`, `os.path.join` and `os.path.basename`: the walk result is a list of file names with their contents.
- Environment loading, the missing `PINECONE_API_KEY` `RuntimeError` in `main` and `RAGPipeline.__init__`, and the "Ingestion complete" and "No files" prints: configuration and console I/O.
- async/await, the shared HTTP client and `aclose`: concurrency and resource lifecycle.
- `top_k`: the vector store decides how many matches it returns; the model takes them as given.
- backend/app.py and frontend/src/App.tsx are not part of this model.
- Chunker.ChunkText: runs for a budget of `fuel` iterations, because the loop as written does not terminate for a positive overlap (nor for `chunk_size = 0` on a non-empty text). It requires `chunk_size >= 0`, because a negative size makes Python slice with negative indices, counted from the end of the text.
- Ingest.Ingest: takes the chunker as a parameter. With the `chunk_text` of the source, `main` never finishes on a corpus holding a non-empty document.
- Ingest.Lower: lower-cases ASCII letters only. The `.txt`/`.md` test is unaffected for ASCII suffixes, but Unicode case mapping of other characters is not modelled.
- Rag.Retrieve: metadata values are modelled as strings.

## Findings

| source | as written | input that shows it | evidently intended | confidence | as-written member | corrected member |
|---|---|---|---|---|---|---|
| backend/ingest.py:29-33 | after each window the next start is `end - overlap` (clamped at 0), and the loop leaves only when that start is at or past `len(text)` | any non-empty text with overlap > 0, e.g. 1000 characters with the defaults 800/100: [0,800), [700,1000), then [900,1000) forever | stop after the window that reaches the end of the text, so chunks cover the text once with `overlap` characters shared between neighbours | high (not executed) | Chunker.NeverExits | Chunker.ChunkTextFixed |
