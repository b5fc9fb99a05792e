/**
 * Startup: a fresh store is filled by adding the fetched records one by
 * one, in fetch order. A record whose uuid or embeddings column does not
 * decode aborts startup; a missing origin becomes the empty string.
 */
module Startup {
  import opened Wrappers
  import opened Store
  import opened Durable

  /** The entry a record loads as, or None when startup must fail on it. */
  function DecodeRecord(rec: Record): Option<EmbeddingEntry> {
    if rec.uuid.Some? && rec.embeddings.Some? then
      Some(EmbeddingEntry(rec.uuid.value, rec.origin.GetOr(""), rec.embeddings.value))
    else None
  }

  /** The entries a whole fetch loads as, in order, or None when any record fails. */
  function LoadAll(records: seq<Record>): (r: Option<seq<EmbeddingEntry>>)
    ensures r.Some? <==> forall k :: 0 <= k < |records| ==> DecodeRecord(records[k]).Some?
    ensures r.Some? ==> |r.value| == |records|
    ensures r.Some? ==> forall k :: 0 <= k < |records| ==> r.value[k] == DecodeRecord(records[k]).value
  {
    if records == [] then Some([])
    else
      match (LoadAll(records[..|records| - 1]), DecodeRecord(records[|records| - 1]))
      case (Some(front), Some(e)) => Some(front + [e])
      case (_, _) =>
        assert forall k :: 0 <= k < |records| - 1 ==> records[..|records| - 1][k] == records[k];
        None
  }

  /**
   * The startup loop: a new store, then one `add` per fetched record.
   * On success the store holds exactly the loaded entries, one per record.
   * On failure the process does not start; the partial store is discarded.
   */
  method LoadStore(records: seq<Record>) returns (ok: bool, store: EmbeddingsStore)
    ensures fresh(store)
    ensures ok <==> LoadAll(records).Some?
    ensures ok ==> store.entries == LoadAll(records).value && store.Len() == |records|
  {
    store := new EmbeddingsStore();
    var i := 0;
    while i < |records|
      invariant 0 <= i <= |records|
      invariant forall k :: 0 <= k < i ==> DecodeRecord(records[k]).Some?
      invariant |store.entries| == i
      invariant forall k :: 0 <= k < i ==> store.entries[k] == DecodeRecord(records[k]).value
    {
      var rec := records[i];
      if rec.uuid.None? || rec.embeddings.None? {
        ok := false;
        return;
      }
      store.Add(rec.uuid.value, rec.origin.GetOr(""), rec.embeddings.value);
      i := i + 1;
    }
    ok := true;
  }

  /** A row the service wrote reads back and loads as the entry it came from. */
  lemma DecodeFetchRoundTrip(row: Row)
    ensures DecodeRecord(Fetch(row)).Some?
    ensures RowOf(DecodeRecord(Fetch(row)).value) == row
  {
  }

  /**
   * Reloading a table the service wrote succeeds whatever order the query
   * returns its rows in (`fetched` is any arrangement of `rows`). The rebuilt
   * store has one entry per fetched row, in fetch order; its rows are exactly
   * the table's rows as a multiset, so `Backed` holds and a registration whose
   * durable write succeeded is present after a restart, even if the process
   * stopped before the in-memory add.
   */
  lemma ReloadRestoresTable(rows: seq<Row>, fetched: seq<Row>)
    requires multiset(fetched) == multiset(rows)
    ensures LoadAll(FetchAll(fetched)).Some?
    ensures RowsOf(LoadAll(FetchAll(fetched)).value) == fetched
    ensures multiset(RowsOf(LoadAll(FetchAll(fetched)).value)) == multiset(rows)
    ensures Backed(LoadAll(FetchAll(fetched)).value, rows)
    ensures forall row :: row in rows ==> row in RowsOf(LoadAll(FetchAll(fetched)).value)
  {
    var records := FetchAll(fetched);
    assert forall k :: 0 <= k < |records| ==> records[k] == Fetch(fetched[k]);
    var entries := LoadAll(records).value;
    assert RowsOf(entries) == fetched;
    forall row | row in rows ensures row in RowsOf(entries) {
      assert row in multiset(rows);
      assert row in multiset(fetched);
    }
  }
}
