/**
 Retrieval in `search_knowledge_base`: the hits the similarity index returns
 are joined back to the chunk list built with the index and to the table's
 metadata, unresolvable hits are dropped, and the survivors are rendered as a
 numbered text block. The embedding of the query and the index search itself
 are outside the model: their answer, the hit list, is an input.
 */
module Retrieval {
  import opened Text
  import opened Optional
  import opened Store

  /** One `(chunk id, content)` entry of `document_chunks`. */
  datatype ChunkRef = ChunkRef(id: nat, content: string)

  /** The similarity index over the chunk texts: position p holds the
      embedding of `embedded[p]`. Only the positions are modelled. */
  datatype VectorIndex = FlatIndex(embedded: seq<string>)

  /** A hit from the index: the relevance score, already rendered as text,
      and the label of the matched vector, its position in the index. The
      index labels a missing neighbour -1 when it holds fewer vectors than
      were asked for. */
  datatype Hit = Hit(score: string, position: int)

  datatype RetrievalResult = RetrievalResult(content: string, title: string, source: string, relevance: string)

  const EmptyKnowledgeBase := "Knowledge base is empty. " + "Please add some documents first."
  const NoRelevantInformation := "No relevant information found " + "in the knowledge base."
  const FoundHeader := "Found relevant information:\n\n"

  /** `document_chunks` as `build_vector_index` derives it from all rows, in table order. */
  function ChunkRefs(rows: seq<Row>): seq<ChunkRef>
  {
    seq(|rows|, p requires 0 <= p < |rows| => ChunkRef(rows[p].id, rows[p].content))
  }

  /** The index built over the chunk texts of `refs`, position for position. */
  function IndexOver(refs: seq<ChunkRef>): VectorIndex
  {
    FlatIndex(seq(|refs|, p requires 0 <= p < |refs| => refs[p].content))
  }

  /** What one hit turns into: nothing when its position is not a position
      of the chunk list (a -1 padding label included) or its chunk id has no
      row any more; otherwise the chunk's content, its row's title and source,
      and the hit's score. */
  function Resolve(chunks: seq<ChunkRef>, rows: seq<Row>, hit: Hit): Option<RetrievalResult>
  {
    if 0 <= hit.position < |chunks| then
      var ref := chunks[hit.position];
      match Lookup(rows, ref.id)
      case None => None
      case Some(meta) => Some(RetrievalResult(ref.content, meta.title, meta.source, hit.score))
    else None
  }

  /** A hit is dropped exactly when its position is negative or past the
      chunk list, or no row carries its chunk's id; a kept hit carries the
      chunk's content, the hit's score and the title and source of a row with
      that id. */
  lemma ResolveMeaning(chunks: seq<ChunkRef>, rows: seq<Row>, hit: Hit)
    ensures var r := Resolve(chunks, rows, hit);
      && (r.None? <==>
            || hit.position < 0 || hit.position >= |chunks|
            || forall k :: 0 <= k < |rows| ==> rows[k].id != chunks[hit.position].id)
      && (r.Some? ==>
            && r.value.content == chunks[hit.position].content
            && r.value.relevance == hit.score
            && exists k :: 0 <= k < |rows| && rows[k].id == chunks[hit.position].id
                          && rows[k].title == r.value.title && rows[k].source == r.value.source)
  {
    if 0 <= hit.position < |chunks| {
      LookupMeaning(rows, chunks[hit.position].id);
    }
  }

  /** The `results` list: the resolvable hits, in hit order. */
  function Retrieve(chunks: seq<ChunkRef>, rows: seq<Row>, hits: seq<Hit>): (rs: seq<RetrievalResult>)
    ensures |rs| <= |hits|
  {
    if hits == [] then []
    else
      var rest := Retrieve(chunks, rows, hits[.. |hits| - 1]);
      match Resolve(chunks, rows, hits[|hits| - 1])
      case None => rest
      case Some(r) => rest + [r]
  }

  lemma RetrieveSnoc(chunks: seq<ChunkRef>, rows: seq<Row>, hits: seq<Hit>, i: nat)
    requires i < |hits|
    ensures Retrieve(chunks, rows, hits[.. i + 1]) ==
            match Resolve(chunks, rows, hits[i])
            case None => Retrieve(chunks, rows, hits[.. i])
            case Some(r) => Retrieve(chunks, rows, hits[.. i]) + [r]
  {
    assert hits[.. i + 1][.. i] == hits[.. i];
  }

  /** Filtering preserves order: the results of two runs of hits are the
      results of the first run followed by those of the second. */
  lemma {:induction false} RetrieveAppend(chunks: seq<ChunkRef>, rows: seq<Row>, h1: seq<Hit>, h2: seq<Hit>)
    ensures Retrieve(chunks, rows, h1 + h2) == Retrieve(chunks, rows, h1) + Retrieve(chunks, rows, h2)
    decreases |h2|
  {
    if h2 == [] {
      assert h1 + h2 == h1;
    } else {
      var n := |h2| - 1;
      assert (h1 + h2)[.. |h1 + h2| - 1] == h1 + h2[.. n];
      assert (h1 + h2)[|h1 + h2| - 1] == h2[n];
      RetrieveAppend(chunks, rows, h1, h2[.. n]);
    }
  }

  /** A result is there exactly when some hit resolves to it. */
  lemma {:induction false} RetrieveMembers(chunks: seq<ChunkRef>, rows: seq<Row>, hits: seq<Hit>, r: RetrievalResult)
    ensures r in Retrieve(chunks, rows, hits) <==>
            exists j :: 0 <= j < |hits| && Resolve(chunks, rows, hits[j]) == Some(r)
  {
    if hits != [] {
      var n := |hits| - 1;
      var front := hits[.. n];
      RetrieveMembers(chunks, rows, front, r);
      assert forall j :: 0 <= j < n ==> front[j] == hits[j];
      var rs := Retrieve(chunks, rows, hits);
      var last := Resolve(chunks, rows, hits[n]);
      assert r in rs <==> r in Retrieve(chunks, rows, front) || last == Some(r);
    }
  }

  /** No hit is dropped exactly when every hit resolves. */
  lemma {:induction false} RetrieveKeepsAll(chunks: seq<ChunkRef>, rows: seq<Row>, hits: seq<Hit>)
    ensures |Retrieve(chunks, rows, hits)| == |hits| <==>
            forall j :: 0 <= j < |hits| ==> Resolve(chunks, rows, hits[j]).Some?
  {
    if hits != [] {
      var n := |hits| - 1;
      RetrieveKeepsAll(chunks, rows, hits[.. n]);
      assert forall j :: 0 <= j < n ==> hits[.. n][j] == hits[j];
    }
  }

  /** When the chunk list is the one built from the table itself and the
      table's ids are distinct, a hit resolves exactly when its position is in
      range, to that row's content, title and source: the lookup by id never
      drops anything, and a padding label never yields a result. */
  lemma ResolveBuiltFromTable(rows: seq<Row>, nextId: nat, hit: Hit)
    requires TableValid(rows, nextId)
    ensures var p := hit.position;
      Resolve(ChunkRefs(rows), rows, hit) ==
        if 0 <= p < |rows| then Some(RetrievalResult(rows[p].content, rows[p].title, rows[p].source, hit.score))
        else None
  {
    if 0 <= hit.position < |rows| {
      LookupOwnRow(rows, nextId, hit.position);
    }
  }

  /** Python's `s[i]` for `-len(s) <= i < len(s)`: a negative index counts
      from the end. */
  function PyIndex<T>(s: seq<T>, i: int): (x: T)
    requires -|s| <= i < |s|
    ensures x == s[i % |s|]
  {
    if i >= 0 then s[i] else s[|s| + i]
  }

  /** The lookup as written in `search_knowledge_base`: the guard only
      checks `idx < len(document_chunks)`, so a negative label passes it and
      Python's indexing counts it from the end of the list. The index emits
      only -1 or a position it holds, so the label is never below
      `-|chunks|`. */
  function ResolveAsWritten(chunks: seq<ChunkRef>, rows: seq<Row>, hit: Hit): Option<RetrievalResult>
    requires -|chunks| <= hit.position
  {
    if hit.position < |chunks| then
      var ref := PyIndex(chunks, hit.position);
      match Lookup(rows, ref.id)
      case None => None
      case Some(meta) => Some(RetrievalResult(ref.content, meta.title, meta.source, hit.score))
    else None
  }

  /** Both lookups agree on every label the index holds; the padding label -1
      is where they part: as written it reports the last chunk of the table
      once more, with the padding's score, while the corrected lookup drops
      it. A table of one chunk searched for three neighbours shows it: the
      labels are 0, -1, -1 and the one chunk comes back three times. */
  lemma PaddingLabelRepeatsLastChunk(rows: seq<Row>, nextId: nat, hit: Hit)
    requires TableValid(rows, nextId)
    requires rows != [] && -1 <= hit.position
    ensures 0 <= hit.position ==> ResolveAsWritten(ChunkRefs(rows), rows, hit) == Resolve(ChunkRefs(rows), rows, hit)
    ensures hit.position == -1 ==>
      var last := rows[|rows| - 1];
      && ResolveAsWritten(ChunkRefs(rows), rows, hit) == Some(RetrievalResult(last.content, last.title, last.source, hit.score))
      && Resolve(ChunkRefs(rows), rows, hit) == None
  {
    LookupOwnRow(rows, nextId, |rows| - 1);
  }

  /** Every label of `hits` is at least `m`. The index labels a missing
      neighbour -1, so its answers satisfy this for `m = -1`. */
  predicate LabelsAtLeast(hits: seq<Hit>, m: int)
  {
    forall j :: 0 <= j < |hits| ==> m <= hits[j].position
  }

  /** The `results` list as written: every hit goes through the lookup as
      written, so padding labels pick up the last chunks. */
  function RetrieveAsWritten(chunks: seq<ChunkRef>, rows: seq<Row>, hits: seq<Hit>): (rs: seq<RetrievalResult>)
    requires LabelsAtLeast(hits, -|chunks|)
    ensures |rs| <= |hits|
  {
    if hits == [] then []
    else
      var n := |hits| - 1;
      var rest := RetrieveAsWritten(chunks, rows, hits[.. n]);
      match ResolveAsWritten(chunks, rows, hits[n])
      case None => rest
      case Some(r) => rest + [r]
  }

  lemma RetrieveAsWrittenSnoc(chunks: seq<ChunkRef>, rows: seq<Row>, hits: seq<Hit>, i: nat)
    requires LabelsAtLeast(hits, -|chunks|) && i < |hits|
    ensures LabelsAtLeast(hits[.. i], -|chunks|) && LabelsAtLeast(hits[.. i + 1], -|chunks|)
    ensures RetrieveAsWritten(chunks, rows, hits[.. i + 1]) ==
            match ResolveAsWritten(chunks, rows, hits[i])
            case None => RetrieveAsWritten(chunks, rows, hits[.. i])
            case Some(r) => RetrieveAsWritten(chunks, rows, hits[.. i]) + [r]
  {
    assert hits[.. i + 1][.. i] == hits[.. i];
  }

  /** One turn of the retrieval loop as written: the hit's result, if any,
      is appended to the results of the hits before it. */
  lemma RetrieveAsWrittenStep(chunks: seq<ChunkRef>, rows: seq<Row>, hits: seq<Hit>, i: nat)
    requires LabelsAtLeast(hits, -|chunks|) && i < |hits|
    ensures LabelsAtLeast(hits[.. i], -|chunks|) && LabelsAtLeast(hits[.. i + 1], -|chunks|)
    ensures var hit := hits[i];
      RetrieveAsWritten(chunks, rows, hits[.. i + 1]) ==
        if hit.position < |chunks| && Lookup(rows, PyIndex(chunks, hit.position).id).Some? then
          var ref, meta := PyIndex(chunks, hit.position), Lookup(rows, PyIndex(chunks, hit.position).id).value;
          RetrieveAsWritten(chunks, rows, hits[.. i]) + [RetrievalResult(ref.content, meta.title, meta.source, hit.score)]
        else RetrieveAsWritten(chunks, rows, hits[.. i])
  {
    RetrieveAsWrittenSnoc(chunks, rows, hits, i);
  }

  /** The answer of `search_knowledge_base` as written, for hits labelled
      as the index labels them. */
  function SearchTextAsWritten(index: Option<VectorIndex>, chunks: seq<ChunkRef>, rows: seq<Row>, hits: seq<Hit>): string
    requires LabelsAtLeast(hits, -1)
  {
    if index.None? || |chunks| == 0 then EmptyKnowledgeBase
    else FormatResults(RetrieveAsWritten(chunks, rows, hits))
  }

  /** Python's reading of a label as an index into a list of `n` items: a
      negative label counts from the end. */
  function Wrap(n: nat, hit: Hit): Hit
  {
    if hit.position < 0 then Hit(hit.score, n + hit.position) else hit
  }

  function WrapAll(n: nat, hits: seq<Hit>): (w: seq<Hit>)
    ensures |w| == |hits|
  {
    seq(|hits|, j requires 0 <= j < |hits| => Wrap(n, hits[j]))
  }

  /** The lookup as written is the corrected lookup applied to the label as
      Python reads it. */
  lemma ResolveAsWrittenWraps(chunks: seq<ChunkRef>, rows: seq<Row>, hit: Hit)
    requires -|chunks| <= hit.position
    ensures ResolveAsWritten(chunks, rows, hit) == Resolve(chunks, rows, Wrap(|chunks|, hit))
  {
  }

  /** The results as written are the corrected results over the labels as
      Python reads them. */
  lemma {:induction false} RetrieveAsWrittenWraps(chunks: seq<ChunkRef>, rows: seq<Row>, hits: seq<Hit>)
    requires LabelsAtLeast(hits, -|chunks|)
    ensures RetrieveAsWritten(chunks, rows, hits) == Retrieve(chunks, rows, WrapAll(|chunks|, hits))
  {
    if hits != [] {
      var n := |hits| - 1;
      var w := WrapAll(|chunks|, hits);
      assert LabelsAtLeast(hits[.. n], -|chunks|);
      RetrieveAsWrittenWraps(chunks, rows, hits[.. n]);
      assert w[.. n] == WrapAll(|chunks|, hits[.. n]);
      ResolveAsWrittenWraps(chunks, rows, hits[n]);
    }
  }

  /** Labels that are all positions of the index are read unchanged. */
  lemma WrapNonNegative(n: nat, hits: seq<Hit>)
    requires LabelsAtLeast(hits, 0)
    ensures WrapAll(n, hits) == hits
  {
  }

  /** Without padding labels the search as written and the corrected search
      give the same text. */
  lemma SearchAsWrittenAgrees(index: Option<VectorIndex>, chunks: seq<ChunkRef>, rows: seq<Row>, hits: seq<Hit>)
    requires LabelsAtLeast(hits, 0)
    ensures SearchTextAsWritten(index, chunks, rows, hits) == SearchText(index, chunks, rows, hits)
  {
    if index.Some? && |chunks| > 0 {
      RetrieveAsWrittenWraps(chunks, rows, hits);
      WrapNonNegative(|chunks|, hits);
    }
  }

  /** A table of one chunk searched for three neighbours: the index answers
      with labels 0, -1, -1. As written, the one chunk is reported three
      times; the corrected search reports it once. */
  lemma PaddingTriplesSingleChunk(row: Row, s0: string, s1: string, s2: string)
    requires TableValid([row], row.id + 1)
    ensures var rows, hits := [row], [Hit(s0, 0), Hit(s1, -1), Hit(s2, -1)];
      && RetrieveAsWritten(ChunkRefs(rows), rows, hits) ==
         [RetrievalResult(row.content, row.title, row.source, s0),
          RetrievalResult(row.content, row.title, row.source, s1),
          RetrievalResult(row.content, row.title, row.source, s2)]
      && Retrieve(ChunkRefs(rows), rows, hits) == [RetrievalResult(row.content, row.title, row.source, s0)]
  {
    var rows, hits := [row], [Hit(s0, 0), Hit(s1, -1), Hit(s2, -1)];
    var chunks := ChunkRefs(rows);
    var r0 := RetrievalResult(row.content, row.title, row.source, s0);
    var r1 := RetrievalResult(row.content, row.title, row.source, s1);
    var r2 := RetrievalResult(row.content, row.title, row.source, s2);
    assert chunks == [ChunkRef(row.id, row.content)];
    assert Lookup(rows, row.id) == Some(Metadata(row.title, row.source));
    assert hits[.. 0] == [] && hits[.. 3] == hits;
    assert RetrieveAsWritten(chunks, rows, hits[.. 1]) == [r0] by {
      assert ResolveAsWritten(chunks, rows, hits[0]) == Some(r0);
      RetrieveAsWrittenSnoc(chunks, rows, hits, 0);
    }
    assert RetrieveAsWritten(chunks, rows, hits[.. 2]) == [r0, r1] by {
      assert ResolveAsWritten(chunks, rows, hits[1]) == Some(r1);
      RetrieveAsWrittenSnoc(chunks, rows, hits, 1);
    }
    assert RetrieveAsWritten(chunks, rows, hits) == [r0, r1, r2] by {
      assert ResolveAsWritten(chunks, rows, hits[2]) == Some(r2);
      RetrieveAsWrittenSnoc(chunks, rows, hits, 2);
    }
    assert Retrieve(chunks, rows, hits[.. 1]) == [r0] by {
      assert Resolve(chunks, rows, hits[0]) == Some(r0);
      RetrieveSnoc(chunks, rows, hits, 0);
    }
    assert Retrieve(chunks, rows, hits[.. 2]) == [r0] by {
      assert Resolve(chunks, rows, hits[1]) == None;
      RetrieveSnoc(chunks, rows, hits, 1);
    }
    assert Retrieve(chunks, rows, hits) == [r0] by {
      assert Resolve(chunks, rows, hits[2]) == None;
      RetrieveSnoc(chunks, rows, hits, 2);
    }
  }

  /** The block for the n-th result, as the formatting loop appends it. */
  function Block(n: nat, r: RetrievalResult): string
  {
    "Document " + NatToString(n) + ": " + r.title + "\n"
    + "Content: " + r.content + "\n"
    + "Source: " + r.source + "\n"
    + "Relevance: " + r.relevance + "\n\n"
  }

  /** The blocks of `rs`, numbered consecutively from `n`. */
  function BlocksFrom(n: nat, rs: seq<RetrievalResult>): string
    decreases |rs|
  {
    if rs == [] then "" else Block(n, rs[0]) + BlocksFrom(n + 1, rs[1..])
  }

  /** The text handed back for a list of results. */
  function FormatResults(rs: seq<RetrievalResult>): string
  {
    if rs == [] then NoRelevantInformation else FoundHeader + BlocksFrom(1, rs)
  }

  /** The whole answer of `search_knowledge_base` for a given state and hit list. */
  function SearchText(index: Option<VectorIndex>, chunks: seq<ChunkRef>, rows: seq<Row>, hits: seq<Hit>): string
  {
    if index.None? || |chunks| == 0 then EmptyKnowledgeBase
    else FormatResults(Retrieve(chunks, rows, hits))
  }

  /** Numbering runs on across a split: the blocks of `a + b` from n are the
      blocks of `a` from n followed by those of `b` from `n + |a|`. */
  lemma {:induction false} BlocksFromAppend(n: nat, a: seq<RetrievalResult>, b: seq<RetrievalResult>)
    ensures BlocksFrom(n, a + b) == BlocksFrom(n, a) + BlocksFrom(n + |a|, b)
    decreases |a|
  {
    if a == [] {
      assert a + b == b;
    } else {
      var first := Block(n, a[0]);
      assert (a + b)[0] == a[0];
      assert (a + b)[1..] == a[1..] + b;
      BlocksFromAppend(n + 1, a[1..], b);
      assert BlocksFrom(n, a + b) == first + BlocksFrom(n + 1, a[1..] + b);
      assert BlocksFrom(n, a) == first + BlocksFrom(n + 1, a[1..]);
      AppendAssoc(first, BlocksFrom(n + 1, a[1..]), BlocksFrom(n + |a|, b));
    }
  }

  lemma BlocksSnoc(rs: seq<RetrievalResult>, n: nat)
    requires n < |rs|
    ensures BlocksFrom(1, rs[.. n + 1]) == BlocksFrom(1, rs[.. n]) + Block(n + 1, rs[n])
  {
    assert rs[.. n + 1] == rs[.. n] + [rs[n]];
    BlocksFromAppend(1, rs[.. n], [rs[n]]);
    BlocksOne(n + 1, rs[n]);
  }

  lemma BlocksOne(n: nat, r: RetrievalResult)
    ensures BlocksFrom(n, [r]) == Block(n, r)
  {
    assert [r][1..] == [];
    assert Block(n, r) + "" == Block(n, r);
  }

  lemma Regroup(a: string, b: string, c: string, d: string)
    ensures a + (b + (c + d)) == a + b + c + d
  {
  }

  /** Result j is rendered as the block numbered j + 1, after the blocks of
      all earlier results and before those of all later ones. */
  lemma BlockOfResult(rs: seq<RetrievalResult>, j: nat)
    requires j < |rs|
    ensures FormatResults(rs) ==
            FoundHeader + BlocksFrom(1, rs[.. j]) + Block(j + 1, rs[j]) + BlocksFrom(j + 2, rs[j + 1 ..])
  {
    var tail := [rs[j]] + rs[j + 1 ..];
    assert rs == rs[.. j] + tail;
    BlocksFromAppend(1, rs[.. j], tail);
    assert tail[1..] == rs[j + 1 ..];
    assert BlocksFrom(j + 1, tail) == Block(j + 1, rs[j]) + BlocksFrom(j + 2, rs[j + 1 ..]);
    Regroup(FoundHeader, BlocksFrom(1, rs[.. j]), Block(j + 1, rs[j]), BlocksFrom(j + 2, rs[j + 1 ..]));
  }

  /** The three possible answers can be told apart: "no results" exactly for
      an empty result list, never the empty-knowledge-base text, and found
      results always open with the header. */
  lemma FormatOutcomes(rs: seq<RetrievalResult>)
    ensures FormatResults(rs) == NoRelevantInformation <==> rs == []
    ensures FormatResults(rs) != EmptyKnowledgeBase
    ensures rs != [] ==> FormatResults(rs)[.. |FoundHeader|] == FoundHeader
  {
    var out := FormatResults(rs);
    if rs != [] {
      assert out[0] == 'F';
    }
    assert EmptyKnowledgeBase[0] == 'K';
    assert NoRelevantInformation[0] == 'N';
  }
}
