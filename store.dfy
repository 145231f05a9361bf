/**
 The `documents` table of the knowledge base, held in memory: one row per
 chunk with an AUTOINCREMENT `id`, the document's `title` and `source`, the
 chunk text and its 0-based `chunk_id`.
 */
module Store {
  import opened Optional

  datatype Row = Row(id: nat, title: string, content: string, source: string, chunkId: nat)

  /** The title and source the metadata query returns for one id. */
  datatype Metadata = Metadata(title: string, source: string)

  /** A table whose ids, in row order, are strictly increasing, at least 1 and
      below the next id AUTOINCREMENT will hand out (which starts at 1). */
  ghost predicate TableValid(rows: seq<Row>, nextId: nat)
  {
    && nextId >= 1
    && (forall i, j :: 0 <= i < j < |rows| ==> rows[i].id < rows[j].id)
    && (forall i :: 0 <= i < |rows| ==> 1 <= rows[i].id < nextId)
  }

  /** The rows `add_document` inserts for the chunks of one document, the
      first of them receiving id `firstId`. */
  function DocumentRows(firstId: nat, title: string, source: string, chunks: seq<string>): (r: seq<Row>)
    ensures |r| == |chunks|
  {
    if chunks == [] then []
    else
      var n := |chunks| - 1;
      DocumentRows(firstId, title, source, chunks[..n]) + [Row(firstId + n, title, chunks[n], source, n)]
  }

  /** Row k of a document carries id `firstId + k`, the document's title and
      source, chunk k's text and chunk number k. */
  lemma {:induction false} DocumentRowAt(firstId: nat, title: string, source: string, chunks: seq<string>, k: nat)
    requires k < |chunks|
    ensures DocumentRows(firstId, title, source, chunks)[k] == Row(firstId + k, title, chunks[k], source, k)
  {
    var n := |chunks| - 1;
    if k < n {
      DocumentRowAt(firstId, title, source, chunks[..n], k);
    }
  }

  lemma DocumentRowsSnoc(firstId: nat, title: string, source: string, chunks: seq<string>, i: nat)
    requires i < |chunks|
    ensures DocumentRows(firstId, title, source, chunks[.. i + 1])
            == DocumentRows(firstId, title, source, chunks[.. i]) + [Row(firstId + i, title, chunks[i], source, i)]
  {
    assert chunks[.. i + 1][.. i] == chunks[.. i];
  }

  /** Appending a document's rows at the next free id keeps the table's ids
      increasing and below the advanced counter. */
  lemma AppendKeepsTableValid(rows: seq<Row>, nextId: nat, title: string, source: string, chunks: seq<string>)
    requires TableValid(rows, nextId)
    ensures TableValid(rows + DocumentRows(nextId, title, source, chunks), nextId + |chunks|)
  {
    var added := DocumentRows(nextId, title, source, chunks);
    var all := rows + added;
    forall k | |rows| <= k < |all| ensures all[k].id == nextId + (k - |rows|) {
      DocumentRowAt(nextId, title, source, chunks, k - |rows|);
    }
  }

  /** `SELECT title, source FROM documents WHERE id = ?` followed by
      `fetchone()`: the first matching row's metadata, or None. */
  function Lookup(rows: seq<Row>, id: nat): Option<Metadata>
  {
    if rows == [] then None
    else if rows[0].id == id then Some(Metadata(rows[0].title, rows[0].source))
    else Lookup(rows[1..], id)
  }

  /** The lookup finds nothing exactly when no row has the id, and otherwise
      returns the title and source of a row that has it. */
  lemma {:induction false} LookupMeaning(rows: seq<Row>, id: nat)
    ensures var m := Lookup(rows, id);
      && (m.None? <==> forall k :: 0 <= k < |rows| ==> rows[k].id != id)
      && (m.Some? ==> exists k :: 0 <= k < |rows| && rows[k].id == id
                                 && m.value == Metadata(rows[k].title, rows[k].source))
  {
    if rows != [] && rows[0].id != id {
      LookupMeaning(rows[1..], id);
      var m := Lookup(rows, id);
      assert forall k :: 0 < k < |rows| ==> rows[k] == rows[1..][k - 1];
      if m.Some? {
        var k :| 0 <= k < |rows| - 1 && rows[1..][k].id == id
                 && m.value == Metadata(rows[1..][k].title, rows[1..][k].source);
        assert rows[k + 1] == rows[1..][k];
      }
    }
  }

  /** In a table with distinct ids, the metadata of row p's id is row p's own. */
  lemma LookupOwnRow(rows: seq<Row>, nextId: nat, p: nat)
    requires TableValid(rows, nextId)
    requires p < |rows|
    ensures Lookup(rows, rows[p].id) == Some(Metadata(rows[p].title, rows[p].source))
  {
    var m := Lookup(rows, rows[p].id);
    LookupMeaning(rows, rows[p].id);
    var k :| 0 <= k < |rows| && rows[k].id == rows[p].id
             && m.value == Metadata(rows[k].title, rows[k].source);
  }
}
