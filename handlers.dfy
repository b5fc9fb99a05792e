/**
 * The two request handlers.
 *
 * `Register` extracts the embedding, writes the row durably, and only when
 * the database acknowledges the write appends the entry to the in-memory
 * store. `Search` extracts the query embedding, fills in the default
 * threshold and limit, asks the store, and renders each hit one to one.
 *
 * Embedding extraction (base64 decoding, image loading, preprocessing,
 * inference) is the opaque fallible function `extract`; the database's
 * answer to the insert is the parameter `acknowledged`.
 */
module Handlers {
  import opened Wrappers
  import opened UuidText
  import opened Ranking
  import opened Store
  import opened Durable

  /** The HTTP statuses the handlers return. */
  datatype Status = Created | BadRequest | InternalServerError

  /** The statuses embedding extraction fails with: 400 for undecodable input, 500 for the rest. */
  type ExtractError = s: Status | s == BadRequest || s == InternalServerError witness BadRequest

  /** Base64 image to embedding; fails with the status the request is answered with. */
  type Extractor = string -> Result<Embedding, ExtractError>

  datatype RegisterPayload = RegisterPayload(targetUuid: Uuid, imageBase64: string, origin: string)

  datatype SearchPayload = SearchPayload(imageBase64: string, threshold: Option<real>, limit: Option<nat>)

  datatype SearchResult = SearchResult(targetUuid: string, similarity: real, origin: string)

  datatype SearchResponse = SearchResponse(results: seq<SearchResult>)

  const DefaultThreshold: real := 0.7
  const DefaultLimit: nat := 10

  /** The POST /register/ handler. */
  method Register(db: Database, store: EmbeddingsStore, payload: RegisterPayload, extract: Extractor, acknowledged: bool)
    returns (r: Result<Status, Status>)
    modifies db, store
    ensures extract(payload.imageBase64).Failure? ==>
      r == Failure(extract(payload.imageBase64).error) &&
      db.rows == old(db.rows) && store.entries == old(store.entries)
    ensures extract(payload.imageBase64).Success? && !acknowledged ==>
      r == Failure(InternalServerError) &&
      db.rows == old(db.rows) && store.entries == old(store.entries)
    ensures extract(payload.imageBase64).Success? && acknowledged ==>
      var embedding := extract(payload.imageBase64).value;
      r == Success(Created) &&
      db.rows == old(db.rows) + [Row(payload.targetUuid, embedding, payload.origin)] &&
      store.entries == old(store.entries) + [EmbeddingEntry(payload.targetUuid, payload.origin, embedding)]
    ensures old(Backed(store.entries, db.rows)) ==> Backed(store.entries, db.rows)
    ensures old(RowsOf(store.entries) == db.rows) ==> RowsOf(store.entries) == db.rows
    ensures old(multiset(RowsOf(store.entries)) == multiset(db.rows)) ==>
      multiset(RowsOf(store.entries)) == multiset(db.rows)
  {
    var embedding;
    match extract(payload.imageBase64) {
      case Failure(status) =>
        return Failure(status);
      case Success(e) =>
        embedding := e;
    }
    var row := Row(payload.targetUuid, embedding, payload.origin);
    ghost var entry := EmbeddingEntry(payload.targetUuid, payload.origin, embedding);
    assert RowOf(entry) == row;
    ghost var wasBacked := Backed(store.entries, db.rows);
    ghost var oldEntries := store.entries;
    ghost var oldRows := db.rows;
    var written := db.Insert(row, acknowledged);
    if !written {
      return Failure(InternalServerError);
    }
    store.Add(payload.targetUuid, payload.origin, embedding);
    if wasBacked {
      BackedAppend(oldEntries, oldRows, entry);
    }
    assert RowsOf(store.entries) == RowsOf(oldEntries) + [row] by {
      assert store.entries[..|oldEntries|] == oldEntries;
    }
    r := Success(Created);
  }

  /** One hit as the response shows it, the uuid in its text form. */
  function Render(hits: seq<Match>): seq<SearchResult> {
    seq(|hits|, k requires 0 <= k < |hits| => SearchResult(ToString(hits[k].uuid), hits[k].similarity, hits[k].origin))
  }

  /** Rendering loses nothing: every result reads back as the hit it came from, in the same position. */
  lemma RenderReadsBack(hits: seq<Match>)
    ensures |Render(hits)| == |hits|
    ensures forall k :: 0 <= k < |hits| ==>
      Parse(Render(hits)[k].targetUuid) == Some(hits[k].uuid) &&
      Render(hits)[k].similarity == hits[k].similarity && Render(hits)[k].origin == hits[k].origin
  {
    forall k | 0 <= k < |hits| ensures Parse(Render(hits)[k].targetUuid) == Some(hits[k].uuid) {
      ParseToString(hits[k].uuid);
    }
  }

  /** Rendering is one to one: different hit lists give different responses. */
  lemma RenderInjective(a: seq<Match>, b: seq<Match>)
    requires Render(a) == Render(b)
    ensures a == b
  {
    RenderReadsBack(a);
    RenderReadsBack(b);
    assert |a| == |b|;
    forall k | 0 <= k < |a| ensures a[k] == b[k] {
      assert Parse(Render(a)[k].targetUuid) == Some(a[k].uuid);
      assert Parse(Render(b)[k].targetUuid) == Some(b[k].uuid);
    }
  }

  /** The POST /search/ handler; it reads the store and changes nothing. */
  method Search(store: EmbeddingsStore, payload: SearchPayload, extract: Extractor, sim: Similarity)
    returns (r: Result<SearchResponse, Status>)
    ensures extract(payload.imageBase64).Failure? ==> r == Failure(extract(payload.imageBase64).error)
    ensures extract(payload.imageBase64).Success? ==>
      r.Success? &&
      r.value.results == Render(TopK(store.entries, extract(payload.imageBase64).value,
                                     payload.threshold.GetOr(DefaultThreshold), payload.limit.GetOr(DefaultLimit), sim))
    ensures r.Success? ==> |r.value.results| <= payload.limit.GetOr(DefaultLimit)
    ensures r.Success? && store.entries == [] ==> r.value.results == []
  {
    var query;
    match extract(payload.imageBase64) {
      case Failure(status) =>
        return Failure(status);
      case Success(e) =>
        query := e;
    }
    var threshold := payload.threshold.GetOr(DefaultThreshold);
    var limit := payload.limit.GetOr(DefaultLimit);
    var hits := store.FindSimilar(query, threshold, limit, sim);
    r := Success(SearchResponse(Render(hits)));
  }
}
