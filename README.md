# Knowledge-base agent — a Dafny model

The system is a small retrieval-augmented chat assistant (`KnowledgeBaseAgent`,
`knowledge_agent.py`). Documents are cut into overlapping word windows
("chunks"). Each chunk becomes one row of a SQLite `documents` table. A FAISS
similarity index is rebuilt over all chunk texts. A question is answered by
looking up the nearest chunks, joining them back to their rows' title and
source, rendering them as numbered text blocks, and embedding that text in a
fixed prompt for a local language model.

The model covers that core:

- `Optional`: the `None`/`Some` value of a query that finds nothing or of an
  index not built yet.
- `Text`: Python's `str.split()` (whitespace as `str.isspace()` defines it),
  `' '.join`, and the decimal rendering of the block numbers.
- `Chunker`: `chunk_text`, its windows, their count, their overlap, and
  reassembly of the word list from the windows.
- `Store`: the `documents` table in memory (rows, the AUTOINCREMENT counter,
  the metadata lookup by id).
- `Retrieval`: the join, filter and formatting steps of
  `search_knowledge_base`, both as written and with the bounds check the code
  evidently intends (the findings below).
- `Prompt`: the prompt template of `chat`.
- `Agent`: the `KnowledgeBaseAgent` class. Its fields are the table, the id
  counter, the index and `document_chunks`. Its methods update them in place,
  and each method is proved against the functions above.

The embedding model and the index search are not modelled. Their answer, the
list of hits (score and label), is an input to `SearchKnowledgeBase` and
`Chat`.

## Model

| member | source | states |
|---|---|---|
| `Text.Words` | knowledge_agent.py:68 | `split()`: the maximal runs of non-whitespace characters in order; every piece is non-empty and holds no whitespace |
| `Text.Join` | knowledge_agent.py:72 | `' '.join`: the words with one space between neighbours (its inverse is `Text.WordsJoin`) |
| `Text.NoWordsIffAllSpace` | knowledge_agent.py:68 | `split()` yields no words exactly when the text is empty or all whitespace |
| `Text.WordsKeepText` | knowledge_agent.py:68 | `split()` loses nothing but whitespace: its words, put back together, are exactly the text's non-whitespace characters in order |
| `Text.WordsJoin` | knowledge_agent.py:72 | splitting a space-joined list of words gives the same words back |
| `Text.NatToString` | knowledge_agent.py:155 | the block number as `f"{i}"` renders it: at least one decimal digit, no leading zero |
| `Text.ParseNatToString` | knowledge_agent.py:155 | the rendered document number reads back as the same number |
| `Chunker.Windows` | knowledge_agent.py:71-76 | the word windows the loop takes: from word 0, every `size - overlap` words, `size` words clipped at the end, stopping after the window that reaches the last word |
| `Chunker.Chunks` | knowledge_agent.py:66-78 | the list `chunk_text` returns: the windows of the split text, each joined with single spaces |
| `Chunker.ChunkText` | knowledge_agent.py:66-78 | splitting the text and running the loop returns exactly `Chunks` of the text |
| `Chunker.EmitChunks` | knowledge_agent.py:69-78 | the loop with its early `break` emits exactly the windows of the word list, joined with single spaces, in order |
| `Chunker.StartIsProduct` | knowledge_agent.py:71 | window k starts at word `k * (size - overlap)` |
| `Chunker.WindowAt` | knowledge_agent.py:71-76 | window k is the slice from its start, clipped at the end of the text, and every window before the last is full and stops short of the last word |
| `Chunker.WindowsEnd` | knowledge_agent.py:71-76 | there is no window exactly when there are no words, and the last window runs to the last word |
| `Chunker.WindowsCount` | knowledge_agent.py:71-76 | the number of windows is 0 for no words, 1 up to `size` words, and otherwise `1 + ceil((W - size) / (size - overlap))` |
| `Chunker.ChunksCount` | knowledge_agent.py:66-78 | the number of chunks follows the same formula in the text's word count |
| `Chunker.ChunkCountAboveOverlap` | knowledge_agent.py:71-76 | for more than `overlap` words, the count equals `ceil((W - overlap) / (size - overlap))` |
| `Chunker.NoWordsNoChunks` | knowledge_agent.py:66-78 | a text yields no chunks exactly when it has no words |
| `Chunker.ShortTextOneChunk` | knowledge_agent.py:71-76 | a text of 1 to `size` words yields one chunk, its words joined by single spaces |
| `Chunker.ChunkWords` | knowledge_agent.py:72 | re-splitting chunk k gives exactly words `start .. min(start + size, W)` of the text |
| `Chunker.WindowsOverlap` | knowledge_agent.py:71-72 | neighbouring windows share exactly `overlap` words, and each later window adds at least one new word |
| `Chunker.WindowsReassemble` | knowledge_agent.py:71-76 | the first window plus every later window minus its first `overlap` words is the whole word list, in order |
| `Store.DocumentRows` | knowledge_agent.py:53-57 | the rows one document inserts: exactly one per chunk |
| `Store.DocumentRowAt` | knowledge_agent.py:53-57 | the row for chunk k carries the next id plus k, the title, the source, chunk k's text and chunk number k |
| `Store.AppendKeepsTableValid` | knowledge_agent.py:31-39 | appending a document's rows at the counter keeps ids increasing, positive and below the advanced counter |
| `Store.Lookup` | knowledge_agent.py:138-139 | the metadata query by id: the first matching row's title and source, or None |
| `Store.LookupMeaning` | knowledge_agent.py:138-139 | the metadata query returns None exactly when no row has the id, and otherwise the title and source of a row with that id |
| `Store.LookupOwnRow` | knowledge_agent.py:138-139 | in a table of distinct ids, looking up a row's id returns that row's own title and source |
| `Retrieval.ChunkRefs` | knowledge_agent.py:94 | `document_chunks`: the `(id, content)` of every row, in table order |
| `Retrieval.IndexOver` | knowledge_agent.py:97-106 | the index holds the chunk texts position for position |
| `Retrieval.Resolve` | knowledge_agent.py:132-149 | one hit with the intended guard `0 <= idx < len`: the chunk at the label joined to its row's title and source, or nothing |
| `Retrieval.ResolveMeaning` | knowledge_agent.py:132-149 | a hit is dropped exactly when its position is not in the chunk list or no row has its chunk's id; a kept hit carries the chunk's content, the score and that row's title and source |
| `Retrieval.ResolveBuiltFromTable` | knowledge_agent.py:132-149 | with chunks built from the table, a hit resolves exactly when its position is in range, to that row's data |
| `Retrieval.Retrieve` | knowledge_agent.py:130-149 | the `results` list under the intended guard: never more results than hits |
| `Retrieval.RetrieveAppend` | knowledge_agent.py:130-149 | results keep hit order: the results for two runs of hits are the first run's results followed by the second's |
| `Retrieval.RetrieveMembers` | knowledge_agent.py:130-149 | a result is in the list exactly when some hit resolves to it |
| `Retrieval.RetrieveKeepsAll` | knowledge_agent.py:130-149 | no hit is dropped exactly when every hit resolves |
| `Retrieval.PyIndex` | knowledge_agent.py:133 | Python's `s[i]` for `-len(s) <= i < len(s)`: the element at position `i` modulo the length, so a negative index counts from the end |
| `Retrieval.ResolveAsWritten` | knowledge_agent.py:132-149 | one hit as written: only `idx < len` is checked, and a negative label indexes from the end |
| `Retrieval.PaddingLabelRepeatsLastChunk` | knowledge_agent.py:127-149 | as written, the padding label -1 yields the table's last chunk again while the corrected lookup drops it; both agree on every other label |
| `Retrieval.RetrieveAsWritten` | knowledge_agent.py:130-149 | the `results` list as written: never more results than hits |
| `Retrieval.RetrieveAsWrittenWraps` | knowledge_agent.py:130-149 | the results as written are the corrected results over the labels as Python's indexing reads them |
| `Retrieval.SearchTextAsWritten` | knowledge_agent.py:117-161 | the answer of `search_knowledge_base` as written, for the hits the index returned |
| `Retrieval.SearchAsWrittenAgrees` | knowledge_agent.py:117-161 | when no label is negative, the search as written and the corrected search give the same text |
| `Retrieval.PaddingTriplesSingleChunk` | knowledge_agent.py:127-149 | a one-chunk table searched with labels 0, -1, -1: as written the chunk comes back three times, corrected once |
| `Retrieval.Block` | knowledge_agent.py:155-158 | the lines of one result: its number and title, its content, its source and its relevance |
| `Retrieval.FormatResults` | knowledge_agent.py:152-161 | the header and the numbered blocks, or the no-results text for no results |
| `Retrieval.SearchText` | knowledge_agent.py:117-161 | the answer of `search_knowledge_base` with the intended guard, the reference the as-written answer is compared with |
| `Retrieval.BlocksFromAppend` | knowledge_agent.py:154-158 | block numbering runs on across any split of the results |
| `Retrieval.BlockOfResult` | knowledge_agent.py:152-159 | result j appears as block j + 1, after the header and the blocks of all earlier results and before those of all later ones |
| `Retrieval.FormatOutcomes` | knowledge_agent.py:152-161 | the no-results text appears exactly for no results; found results never read as the empty-knowledge-base text and always open with the header |
| `Prompt.ChatPrompt` | knowledge_agent.py:185-200 | the prompt is the template's head, the message, the middle line, the search text and the instructions, each embedded verbatim |
| `Prompt.ChatPromptInjective` | knowledge_agent.py:185-200 | for messages of equal length, equal prompts mean equal messages and equal search texts |
| `Agent.KnowledgeBaseAgent.constructor` | knowledge_agent.py:11-24 | over a persisted table, the agent starts in a valid state with the index built over that table |
| `Agent.KnowledgeBaseAgent.Insert` | knowledge_agent.py:54-57 | one insert appends a row with the counter's id and advances the counter |
| `Agent.KnowledgeBaseAgent.InsertChunks` | knowledge_agent.py:53-57 | the insert loop appends the document's rows in chunk order at consecutive ids |
| `Agent.KnowledgeBaseAgent.AddDocument` | knowledge_agent.py:45-64 | existing rows are untouched, one row per chunk is appended, the counter advances by the chunk count, and the index again mirrors the table |
| `Agent.KnowledgeBaseAgent.BuildVectorIndex` | knowledge_agent.py:80-106 | an empty table changes nothing; otherwise `document_chunks` and the index are rebuilt over every row, position for position |
| `Agent.KnowledgeBaseAgent.SearchKnowledgeBase` | knowledge_agent.py:117-161 | the method returns exactly the as-written search text for the current state and the hits, padding labels included |
| `Agent.KnowledgeBaseAgent.CollectResults` | knowledge_agent.py:130-149 | the retrieval loop, with the guard and Python's indexing as written, builds exactly the as-written results |
| `Agent.KnowledgeBaseAgent.Chat` | knowledge_agent.py:178-200 | the prompt handed to the language model embeds the message and the as-written search text for the hits |
| `Agent.SearchTextOutcomes` | knowledge_agent.py:119-161 | with the intended guard: the empty-knowledge-base text appears exactly without an index or chunks; otherwise the no-results text appears exactly when no hit resolves |
| `Agent.SearchTextAsWrittenOutcomes` | knowledge_agent.py:119-161 | as written: the empty-knowledge-base text appears exactly without an index or chunks; otherwise the no-results text appears exactly when no hit resolves as written |
| `Agent.SearchAfterBuild` | knowledge_agent.py:80-149 | with the intended guard, over an index built from the table, every in-range hit yields a result |
| `Agent.SearchAfterBuildAsWritten` | knowledge_agent.py:80-149 | as written, over an index built from a non-empty table, no hit is dropped: padding labels yield results too |
| `Agent.BlankDocumentAddsNoRows` | knowledge_agent.py:45-57 | a document with no words adds no row |

## Findings

| source | as written | input that shows it | evidently intended | confidence | as-written member | corrected member |
|---|---|---|---|---|---|---|
| knowledge_agent.py:127-133 | a hit is kept whenever `idx < len(document_chunks)`, so the label -1 passes the guard and `document_chunks[-1]` is the last chunk | a table of one chunk searched with `top_k = 3`: FAISS answers with labels 0, -1, -1, and the one chunk is reported as Documents 1, 2 and 3 | a label is used only when `0 <= idx < len(document_chunks)`, so padding is dropped | not executed; FAISS labels a missing neighbour -1 when the index holds fewer than `top_k` vectors | `Retrieval.ResolveAsWritten` | `Retrieval.Resolve` |

`SearchKnowledgeBase`, `CollectResults` and `Chat` follow the code as written:
their results are `SearchTextAsWritten` and `RetrieveAsWritten`, built on
`ResolveAsWritten`. `PaddingTriplesSingleChunk` proves the input in the table
above, and `PaddingLabelRepeatsLastChunk` the difference for one label. The
corrected definitions `Resolve`, `Retrieve` and `SearchText` are the
reference. `ResolveBuiltFromTable` and `SearchAfterBuild` prove the intended
property of the corrected lookup: a hit resolves only at an in-range position.
`RetrieveAsWrittenWraps` relates the two: the code as written is the corrected
lookup applied to the label as Python's indexing reads it, and
`SearchAsWrittenAgrees` shows that both give the same text when no label is
negative.

## Left out

- Embeddings, FAISS and `normalize_L2` are not modelled. The index is modelled
  as the list of texts it was built over. The nearest-neighbour search is an
  input: the hit list.
- Relevance scores are taken as already-rendered text. The `:.3f` rendering of
  the float score and the floating-point arithmetic are not modelled.
- `call_ollama` and the HTTP request are not modelled. `Chat` yields the prompt
  it would send, not the model's reply.
- SQLite is not modelled: connections, commits, the schema DDL and
  `created_at`. The table is a sequence of rows in id order. `id` is unbounded,
  so the 64-bit limit of AUTOINCREMENT is not modelled.
- The constructor takes the persisted table and the last issued id as
  parameters. Opening the database file, loading the embedding model and
  `init_database` are I/O.
- The exception handling in `load_or_create_vector_index` is not modelled,
  since the modelled build cannot fail.
- Console output (`print`) is not modelled, and neither is
  `add_sample_company_docs`, the interactive loop or `streamlit_app.py`.
- `Chunker.ChunkText`: the model requires `overlap < chunk_size`. With
  `overlap = chunk_size` the step is 0 and Python's `range` raises
  `ValueError`. With `overlap > chunk_size` the step is negative, `range`
  yields nothing and `chunk_text` returns `[]`; that case is not modelled.
  A negative overlap or a negative size is excluded by the `nat` types. The
  agent always calls it with 500 and 50.
- `Chunker.EmitChunks`: the same requirement, `overlap < chunk_size`, for the
  same reasons.
- `Retrieval.ResolveAsWritten` requires the label to be at least `-|chunks|`.
  FAISS only ever emits -1 or a stored position, and `search_knowledge_base`
  reaches the lookup only with a non-empty chunk list. The `IndexError` a label
  below that would raise is not modelled. `Retrieval.RetrieveAsWritten` and
  `Agent.KnowledgeBaseAgent.CollectResults` require the same of every label.
- `Agent.KnowledgeBaseAgent.SearchKnowledgeBase` requires every label to be
  at least -1, as FAISS labels are. A label below -1 cannot come from the
  index, so the `IndexError` it could raise is not modelled.
- `Agent.KnowledgeBaseAgent.Chat`: the same requirement on the labels, for the
  same reason; `Retrieval.SearchTextAsWritten` requires it too.
- The closed form for the number of chunks,
  `ceil((W - overlap) / (chunk_size - overlap))`, is at most 0 for texts of 1
  to `overlap` words (exactly 0 with the agent's 500 and 50). The code emits
  one chunk for such texts, and the model follows the code.
  `Chunker.WindowsCount` states the count the code gives, and
  `Chunker.ChunkCountAboveOverlap` proves the closed form for `W > overlap`.
