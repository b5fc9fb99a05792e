/**
 * The durable side: rows of the `targets` table, the records the startup
 * query reads back, and the invariant that ties the in-memory store to the
 * table: every store entry is backed by a row that was written durably.
 */
module Durable {
  import opened Wrappers
  import opened UuidText
  import opened Store

  /** One row of `targets (uuid, embeddings, origin)`, as the registration inserts it. */
  datatype Row = Row(uuid: Uuid, embeddings: Embedding, origin: string)

  /**
   * One record of `SELECT uuid, embeddings, origin FROM targets`, each
   * column as `try_get` decodes it (None when decoding fails).
   */
  datatype Record = Record(uuid: Option<Uuid>, embeddings: Option<Embedding>, origin: Option<string>)

  /** The record a row reads back as: every column decodes. */
  function Fetch(row: Row): Record {
    Record(Some(row.uuid), Some(row.embeddings), Some(row.origin))
  }

  /**
   * The records the startup query returns when it reads `rows`, in that
   * order. The query has no ORDER BY, so callers pass the rows in whatever
   * order the database returns them.
   */
  function FetchAll(rows: seq<Row>): seq<Record> {
    seq(|rows|, k requires 0 <= k < |rows| => Fetch(rows[k]))
  }

  /** The row that backs a store entry. */
  function RowOf(e: EmbeddingEntry): Row {
    Row(e.uuid, e.embedding, e.origin)
  }

  /** The rows that back a sequence of entries, in order. */
  function RowsOf(entries: seq<EmbeddingEntry>): (rows: seq<Row>)
    ensures |rows| == |entries|
    ensures forall k :: 0 <= k < |entries| ==> rows[k] == RowOf(entries[k])
  {
    if entries == [] then []
    else RowsOf(entries[..|entries| - 1]) + [RowOf(entries[|entries| - 1])]
  }

  /**
   * Every store entry has its own durable row: the rows of the entries form
   * a sub-multiset of the table (duplicate entries need duplicate rows).
   */
  ghost predicate Backed(entries: seq<EmbeddingEntry>, rows: seq<Row>) {
    multiset(RowsOf(entries)) <= multiset(rows)
  }

  /** Under the invariant, each store entry has a matching row in the table. */
  lemma BackedHasRow(entries: seq<EmbeddingEntry>, rows: seq<Row>, e: EmbeddingEntry)
    requires Backed(entries, rows) && e in entries
    ensures RowOf(e) in rows
  {
    var k :| 0 <= k < |entries| && entries[k] == e;
    assert RowsOf(entries)[k] == RowOf(e);
    assert RowOf(e) in multiset(RowsOf(entries));
  }

  /** Writing a row and then adding its entry keeps the invariant; so does writing a row alone. */
  lemma BackedAppend(entries: seq<EmbeddingEntry>, rows: seq<Row>, e: EmbeddingEntry)
    requires Backed(entries, rows)
    ensures Backed(entries + [e], rows + [RowOf(e)])
    ensures Backed(entries, rows + [RowOf(e)])
  {
    assert RowsOf(entries + [e]) == RowsOf(entries) + [RowOf(e)] by {
      assert (entries + [e])[..|entries|] == entries;
    }
  }

  /** The durable table, changed only by inserts. */
  class Database {
    var rows: seq<Row>

    constructor (rows: seq<Row>)
      ensures this.rows == rows
    {
      this.rows := rows;
    }

    /**
     * `INSERT INTO targets (uuid, embeddings, origin)`. `acknowledged` is
     * the database's answer; a failed insert leaves the table unchanged.
     */
    method Insert(row: Row, acknowledged: bool) returns (ok: bool)
      modifies this
      ensures ok == acknowledged
      ensures rows == if ok then old(rows) + [row] else old(rows)
    {
      ok := acknowledged;
      if ok {
        rows := rows + [row];
      }
    }
  }
}
