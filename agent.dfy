/**
 The `KnowledgeBaseAgent` object: the document table, the AUTOINCREMENT
 counter, the similarity index and its parallel `document_chunks` list, and
 the operations that change or read them. The table lives in memory here; the
 embedding model, the index search and the language model are outside the
 model (the search's hit list is an input, and `Chat` yields the prompt it
 hands to the language model).
 */
module Agent {
  import opened Optional
  import opened Text
  import opened Chunker
  import opened Store
  import opened Retrieval
  import opened Prompt

  /** The chunking parameters `add_document` passes to `chunk_text`. */
  const ChunkSize: nat := 500
  const ChunkOverlap: nat := 50

  class KnowledgeBaseAgent {
    /** The `documents` table in insertion order. */
    var rows: seq<Row>
    /** The id AUTOINCREMENT gives the next inserted row. */
    var nextId: nat
    /** `vector_index`: None until a build over a non-empty table. */
    var vectorIndex: Option<VectorIndex>
    /** `document_chunks`: index position p holds chunk `documentChunks[p]`. */
    var documentChunks: seq<ChunkRef>

    /** The table's ids are increasing and below the counter; the index and
        `document_chunks` are absent and empty while the table is empty, and
        otherwise mirror the table row for row, position for position. */
    ghost predicate Valid()
      reads this
    {
      && TableValid(rows, nextId)
      && (rows == [] ==> vectorIndex == None && documentChunks == [])
      && (rows != [] ==> documentChunks == ChunkRefs(rows) && vectorIndex == Some(IndexOver(documentChunks)))
    }

    /** `__init__` over a database that already holds `persisted`, whose
        AUTOINCREMENT counter last issued `lastIssued`: the index is built
        over whatever the table holds. */
    constructor (persisted: seq<Row>, lastIssued: nat)
      requires TableValid(persisted, lastIssued + 1)
      ensures Valid()
      ensures rows == persisted && nextId == lastIssued + 1
    {
      rows := persisted;
      nextId := lastIssued + 1;
      vectorIndex := None;
      documentChunks := [];
      new;
      BuildVectorIndex();
    }

    /** One `INSERT INTO documents (title, content, source, chunk_id)`: the
        row gets the next id, and the counter moves on. */
    method Insert(title: string, content: string, source: string, chunkId: nat)
      modifies this`rows, this`nextId
      ensures rows == old(rows) + [Row(old(nextId), title, content, source, chunkId)]
      ensures nextId == old(nextId) + 1
    {
      rows := rows + [Row(nextId, title, content, source, chunkId)];
      nextId := nextId + 1;
    }

    /** `add_document`: chunk the content (500 words, 50 words overlap),
        append one row per chunk in chunk order, then rebuild the index. Rows
        already there are untouched. */
    method AddDocument(title: string, content: string, source: string := "manual")
      requires Valid()
      modifies this
      ensures Valid()
      ensures rows == old(rows) + DocumentRows(old(nextId), title, source, Chunks(content, ChunkSize, ChunkOverlap))
      ensures nextId == old(nextId) + |Chunks(content, ChunkSize, ChunkOverlap)|
    {
      var chunks := ChunkText(content, ChunkSize, ChunkOverlap);
      InsertChunks(title, source, chunks);
      AppendKeepsTableValid(old(rows), old(nextId), title, source, chunks);
      BuildVectorIndex();
    }

    /** The insert loop of `add_document`: chunk i becomes a row with chunk
        number i, in chunk order, at consecutive ids. */
    method InsertChunks(title: string, source: string, chunks: seq<string>)
      modifies this`rows, this`nextId
      ensures rows == old(rows) + DocumentRows(old(nextId), title, source, chunks)
      ensures nextId == old(nextId) + |chunks|
    {
      var i := 0;
      while i < |chunks|
        invariant 0 <= i <= |chunks|
        invariant rows == old(rows) + DocumentRows(old(nextId), title, source, chunks[.. i])
        invariant nextId == old(nextId) + i
      {
        ghost var done := DocumentRows(old(nextId), title, source, chunks[.. i]);
        DocumentRowsSnoc(old(nextId), title, source, chunks, i);
        AppendAssoc(old(rows), done, [Row(old(nextId) + i, title, chunks[i], source, i)]);
        Insert(title, chunks[i], source, i);
        i := i + 1;
      }
      assert chunks[.. |chunks|] == chunks;
    }

    /** `build_vector_index`: with an empty table nothing changes; otherwise
        `document_chunks` becomes the `(id, content)` of every row in table
        order and a fresh index is built over the same contents. */
    method BuildVectorIndex()
      modifies this`vectorIndex, this`documentChunks
      ensures rows == [] ==> vectorIndex == old(vectorIndex) && documentChunks == old(documentChunks)
      ensures rows != [] ==> documentChunks == ChunkRefs(rows) && vectorIndex == Some(IndexOver(documentChunks))
    {
      var fetched := rows;
      if fetched == [] {
        return;
      }
      documentChunks := ChunkRefs(fetched);
      var texts := seq(|fetched|, p requires 0 <= p < |fetched| => fetched[p].content);
      assert texts == IndexOver(documentChunks).embedded;
      vectorIndex := Some(FlatIndex(texts));
    }

    /** `search_knowledge_base` for the hits the index returned (labels are
        positions of the index, or -1 for padding): the empty-knowledge-base
        text without an index or chunks; otherwise the resolvable hits, in hit
        order, rendered as numbered blocks. The guard lets a padding label
        through, and Python reads it as the last chunk. */
    method SearchKnowledgeBase(hits: seq<Hit>) returns (text: string)
      requires LabelsAtLeast(hits, -1)
      ensures text == SearchTextAsWritten(vectorIndex, documentChunks, rows, hits)
    {
      if vectorIndex.None? || |documentChunks| == 0 {
        return EmptyKnowledgeBase;
      }
      var results := CollectResults(hits);
      if results == [] {
        return NoRelevantInformation;
      }
      text := FoundHeader;
      var n := 0;
      while n < |results|
        invariant 0 <= n <= |results|
        invariant text == FoundHeader + BlocksFrom(1, results[.. n])
      {
        BlocksSnoc(results, n);
        AppendAssoc(FoundHeader, BlocksFrom(1, results[.. n]), Block(n + 1, results[n]));
        text := text + Block(n + 1, results[n]);
        n := n + 1;
      }
      assert results[.. |results|] == results;
    }

    /** The retrieval loop of `search_knowledge_base`: each hit whose label
        passes the guard is looked up, by Python's indexing, in
        `document_chunks`, and kept when its chunk id still has a row. */
    method CollectResults(hits: seq<Hit>) returns (results: seq<RetrievalResult>)
      requires LabelsAtLeast(hits, -|documentChunks|)
      ensures results == RetrieveAsWritten(documentChunks, rows, hits)
    {
      var chunks, table := documentChunks, rows;
      results := [];
      var i := 0;
      while i < |hits|
        invariant 0 <= i <= |hits|
        invariant LabelsAtLeast(hits[.. i], -|chunks|)
        invariant results == RetrieveAsWritten(chunks, table, hits[.. i])
      {
        var hit := hits[i];
        RetrieveAsWrittenStep(chunks, table, hits, i);
        if hit.position < |chunks| {
          var ref := PyIndex(chunks, hit.position);
          var metadata := Lookup(table, ref.id);
          if metadata.Some? {
            results := results + [RetrievalResult(ref.content, metadata.value.title, metadata.value.source, hit.score)];
          }
        }
        i := i + 1;
      }
      assert hits[.. |hits|] == hits;
    }

    /** `chat` up to the call of the language model: the prompt built from the
        message and the search text for the given hits. */
    method Chat(userMessage: string, hits: seq<Hit>) returns (prompt: string)
      requires LabelsAtLeast(hits, -1)
      ensures prompt == ChatPrompt(userMessage, SearchTextAsWritten(vectorIndex, documentChunks, rows, hits))
    {
      var searchResults := SearchKnowledgeBase(hits);
      prompt := ChatPrompt(userMessage, searchResults);
    }
  }

  /** The search answers with the empty-knowledge-base text exactly when there
      is no index or no chunk, and otherwise with "no relevant information"
      exactly when no hit resolves. */
  lemma SearchTextOutcomes(index: Option<VectorIndex>, chunks: seq<ChunkRef>, rows: seq<Row>, hits: seq<Hit>)
    ensures SearchText(index, chunks, rows, hits) == EmptyKnowledgeBase <==> index.None? || chunks == []
    ensures index.Some? && chunks != [] ==>
      (SearchText(index, chunks, rows, hits) == NoRelevantInformation <==>
       forall j :: 0 <= j < |hits| ==> Resolve(chunks, rows, hits[j]).None?)
  {
    var rs := Retrieve(chunks, rows, hits);
    FormatOutcomes(rs);
    if rs == [] {
      forall j | 0 <= j < |hits| ensures Resolve(chunks, rows, hits[j]).None? {
        if Resolve(chunks, rows, hits[j]).Some? {
          RetrieveMembers(chunks, rows, hits, Resolve(chunks, rows, hits[j]).value);
        }
      }
    } else {
      RetrieveMembers(chunks, rows, hits, rs[0]);
    }
  }

  /** Over an index built from a table with distinct ids, every hit whose
      position is in range yields a result: the search drops only padding
      labels and out-of-range positions. */
  lemma SearchAfterBuild(rows: seq<Row>, nextId: nat, hits: seq<Hit>)
    requires TableValid(rows, nextId)
    requires forall j :: 0 <= j < |hits| ==> 0 <= hits[j].position < |rows|
    ensures |Retrieve(ChunkRefs(rows), rows, hits)| == |hits|
  {
    forall j | 0 <= j < |hits| ensures Resolve(ChunkRefs(rows), rows, hits[j]).Some? {
      ResolveBuiltFromTable(rows, nextId, hits[j]);
    }
    RetrieveKeepsAll(ChunkRefs(rows), rows, hits);
  }

  /** The search as written answers with the empty-knowledge-base text
      exactly when there is no index or no chunk, and otherwise with "no
      relevant information" exactly when no hit resolves as written. */
  lemma SearchTextAsWrittenOutcomes(index: Option<VectorIndex>, chunks: seq<ChunkRef>, rows: seq<Row>, hits: seq<Hit>)
    requires LabelsAtLeast(hits, -1)
    ensures SearchTextAsWritten(index, chunks, rows, hits) == EmptyKnowledgeBase <==> index.None? || chunks == []
    ensures index.Some? && chunks != [] ==>
      (SearchTextAsWritten(index, chunks, rows, hits) == NoRelevantInformation <==>
       forall j :: 0 <= j < |hits| ==> ResolveAsWritten(chunks, rows, hits[j]).None?)
  {
    FormatOutcomes(if index.None? || chunks == [] then [] else RetrieveAsWritten(chunks, rows, hits));
    if index.Some? && chunks != [] {
      var w := WrapAll(|chunks|, hits);
      RetrieveAsWrittenWraps(chunks, rows, hits);
      SearchTextOutcomes(index, chunks, rows, w);
      forall j | 0 <= j < |hits|
        ensures ResolveAsWritten(chunks, rows, hits[j]) == Resolve(chunks, rows, w[j])
      {
        ResolveAsWrittenWraps(chunks, rows, hits[j]);
      }
    }
  }

  /** Over an index built from a non-empty table with distinct ids, the
      search as written drops no hit at all: every position and every
      padding label yields a result. */
  lemma SearchAfterBuildAsWritten(rows: seq<Row>, nextId: nat, hits: seq<Hit>)
    requires TableValid(rows, nextId) && rows != []
    requires forall j :: 0 <= j < |hits| ==> -1 <= hits[j].position < |rows|
    ensures |RetrieveAsWritten(ChunkRefs(rows), rows, hits)| == |hits|
  {
    var w := WrapAll(|rows|, hits);
    RetrieveAsWrittenWraps(ChunkRefs(rows), rows, hits);
    SearchAfterBuild(rows, nextId, w);
  }

  /** A document without words (empty or whitespace only) adds no row. */
  lemma BlankDocumentAddsNoRows(title: string, content: string, source: string, firstId: nat)
    requires AllSpace(content)
    ensures DocumentRows(firstId, title, source, Chunks(content, ChunkSize, ChunkOverlap)) == []
  {
    NoWordsNoChunks(content, ChunkSize, ChunkOverlap);
  }
}
