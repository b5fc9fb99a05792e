/**
 * The in-memory embedding store: an append-only sequence of
 * `(uuid, origin, embedding)` entries, and its threshold / top-K search.
 *
 * The similarity function is a parameter `sim`: any total function from a
 * query and a stored embedding to a totally ordered score.
 */
module Store {
  import opened UuidText
  import opened Ranking

  type Embedding = seq<real>
  type Similarity = (Embedding, Embedding) -> real

  datatype EmbeddingEntry = EmbeddingEntry(uuid: Uuid, origin: string, embedding: Embedding)

  /** The hit `(uuid, origin, sim(query, embedding))` that entry `e` yields for `query`. */
  function Score(query: Embedding, e: EmbeddingEntry, sim: Similarity): Match {
    Match(e.uuid, e.origin, sim(query, e.embedding))
  }

  /**
   * The hits whose similarity reaches `threshold`, in store order: what the
   * ordered `map`/`filter`/`collect` over the entries gathers before sorting.
   */
  function Candidates(entries: seq<EmbeddingEntry>, query: Embedding, threshold: real, sim: Similarity): (c: seq<Match>)
    ensures |c| <= |entries|
  {
    if entries == [] then []
    else
      var m := Score(query, entries[|entries| - 1], sim);
      Candidates(entries[..|entries| - 1], query, threshold, sim) + (if m.similarity >= threshold then [m] else [])
  }

  /** A hit is a candidate exactly when it is the hit of a stored entry and reaches the threshold. */
  lemma {:induction false} CandidatesExactly(entries: seq<EmbeddingEntry>, query: Embedding, threshold: real, sim: Similarity)
    ensures forall m :: m in Candidates(entries, query, threshold, sim) ==>
      m.similarity >= threshold && exists e :: e in entries && m == Score(query, e, sim)
    ensures forall e :: e in entries && sim(query, e.embedding) >= threshold ==>
      Score(query, e, sim) in Candidates(entries, query, threshold, sim)
  {
    if entries != [] {
      var front, last := entries[..|entries| - 1], entries[|entries| - 1];
      assert entries == front + [last];
      CandidatesExactly(front, query, threshold, sim);
      forall m | m in Candidates(entries, query, threshold, sim)
        ensures m.similarity >= threshold && exists e :: e in entries && m == Score(query, e, sim)
      {
        if m !in Candidates(front, query, threshold, sim) {
          assert m == Score(query, last, sim);
        } else {
          var e :| e in front && m == Score(query, e, sim);
          assert e in entries;
        }
      }
    }
  }

  /** The candidates ranked by the stable non-increasing sort and truncated to `limit`. */
  function TopK(entries: seq<EmbeddingEntry>, query: Embedding, threshold: real, limit: nat, sim: Similarity): seq<Match> {
    var ranked := SortDesc(Candidates(entries, query, threshold, sim));
    if limit < |ranked| then ranked[..limit] else ranked
  }

  predicate IsPrefix(x: seq<Match>, y: seq<Match>) {
    |x| <= |y| && x == y[..|x|]
  }

  /** The results are in non-increasing order of similarity. */
  lemma TopKSorted(entries: seq<EmbeddingEntry>, query: Embedding, threshold: real, limit: nat, sim: Similarity)
    ensures SortedDesc(TopK(entries, query, threshold, limit, sim))
  {
    SortDescSorted(Candidates(entries, query, threshold, sim));
  }

  /** Each result reaches the threshold and is the hit of some stored entry; no hit is returned more often than it qualifies. */
  lemma TopKMembers(entries: seq<EmbeddingEntry>, query: Embedding, threshold: real, limit: nat, sim: Similarity)
    ensures multiset(TopK(entries, query, threshold, limit, sim)) <= multiset(Candidates(entries, query, threshold, sim))
    ensures forall m :: m in TopK(entries, query, threshold, limit, sim) ==>
      m.similarity >= threshold && exists e :: e in entries && m == Score(query, e, sim)
  {
    var c := Candidates(entries, query, threshold, sim);
    var ranked := SortDesc(c);
    var r := TopK(entries, query, threshold, limit, sim);
    PrefixMultiset(ranked, |r|);
    CandidatesExactly(entries, query, threshold, sim);
    forall m | m in r ensures m in c {
      assert m in multiset(r);
    }
  }

  lemma PrefixMultiset(s: seq<Match>, n: nat)
    requires n <= |s|
    ensures multiset(s[..n]) <= multiset(s)
    ensures multiset(s) - multiset(s[..n]) == multiset(s[n..])
  {
    assert s == s[..n] + s[n..];
  }

  /**
   * Results of equal similarity keep store order: for each similarity value,
   * the results with that value are a prefix of the qualifying hits with that
   * value, in the order the entries were added.
   */
  lemma TopKTieOrder(entries: seq<EmbeddingEntry>, query: Embedding, threshold: real, limit: nat, sim: Similarity, v: real)
    ensures IsPrefix(SameScore(TopK(entries, query, threshold, limit, sim), v), SameScore(Candidates(entries, query, threshold, sim), v))
  {
    var c := Candidates(entries, query, threshold, sim);
    var ranked := SortDesc(c);
    var r := TopK(entries, query, threshold, limit, sim);
    assert ranked == r + ranked[|r|..];
    SameScoreAppend(r, ranked[|r|..], v);
    SortDescStable(c, v);
  }

  /**
   * Top-K completeness: exactly `limit` hits are returned when more qualify;
   * when no more than `limit` entries qualify, every qualifying hit is
   * returned; and no qualifying hit that was left out is more similar than
   * any returned one.
   */
  lemma TopKComplete(entries: seq<EmbeddingEntry>, query: Embedding, threshold: real, limit: nat, sim: Similarity)
    ensures |TopK(entries, query, threshold, limit, sim)| ==
      if limit < |Candidates(entries, query, threshold, sim)| then limit else |Candidates(entries, query, threshold, sim)|
    ensures |Candidates(entries, query, threshold, sim)| <= limit ==>
      multiset(TopK(entries, query, threshold, limit, sim)) == multiset(Candidates(entries, query, threshold, sim))
    ensures forall m, k ::
      (m in multiset(Candidates(entries, query, threshold, sim)) - multiset(TopK(entries, query, threshold, limit, sim)) &&
       0 <= k < |TopK(entries, query, threshold, limit, sim)|) ==>
      m.similarity <= TopK(entries, query, threshold, limit, sim)[k].similarity
  {
    var c := Candidates(entries, query, threshold, sim);
    var ranked := SortDesc(c);
    SortDescSorted(c);
    TruncationKeepsBest(ranked, if limit < |ranked| then limit else |ranked|);
  }

  lemma {:induction false} CandidatesMonotone(entries: seq<EmbeddingEntry>, query: Embedding, low: real, high: real, sim: Similarity)
    requires low <= high
    ensures |Candidates(entries, query, high, sim)| <= |Candidates(entries, query, low, sim)|
  {
    if entries != [] {
      CandidatesMonotone(entries[..|entries| - 1], query, low, high, sim);
    }
  }

  /** Raising the threshold never increases the number of results. */
  lemma ThresholdMonotone(entries: seq<EmbeddingEntry>, query: Embedding, low: real, high: real, limit: nat, sim: Similarity)
    requires low <= high
    ensures |TopK(entries, query, high, limit, sim)| <= |TopK(entries, query, low, limit, sim)|
  {
    CandidatesMonotone(entries, query, low, high, sim);
  }

  /**
   * An entry whose hit reaches the threshold and is strictly more similar
   * than every different hit comes first, for any positive limit: searching
   * right after registering a target finds that target first when nothing
   * else scores as high.
   */
  lemma BestMatchFirst(entries: seq<EmbeddingEntry>, query: Embedding, threshold: real, limit: nat, sim: Similarity, e: EmbeddingEntry)
    requires e in entries && sim(query, e.embedding) >= threshold && limit >= 1
    requires forall f :: f in entries && Score(query, f, sim) != Score(query, e, sim) ==>
      sim(query, f.embedding) < sim(query, e.embedding)
    ensures |TopK(entries, query, threshold, limit, sim)| >= 1
    ensures TopK(entries, query, threshold, limit, sim)[0] == Score(query, e, sim)
  {
    var c := Candidates(entries, query, threshold, sim);
    var ranked := SortDesc(c);
    var best := Score(query, e, sim);
    CandidatesExactly(entries, query, threshold, sim);
    assert best in c;
    assert best in multiset(ranked);
    SortDescSorted(c);
    SortedHeadIsMax(ranked, best);
    assert ranked[0] in multiset(c);
    var f :| f in entries && ranked[0] == Score(query, f, sim);
  }

  /** The facts `find_similar` promises one call at a time. */
  lemma TopKFacts(entries: seq<EmbeddingEntry>, query: Embedding, threshold: real, limit: nat, sim: Similarity)
    ensures var r := TopK(entries, query, threshold, limit, sim);
      |r| <= limit && (entries == [] ==> r == []) && SortedDesc(r) &&
      forall m :: m in r ==> m.similarity >= threshold && exists e :: e in entries && m == Score(query, e, sim)
  {
    TopKSorted(entries, query, threshold, limit, sim);
    TopKMembers(entries, query, threshold, limit, sim);
  }

  /** The store: the entries in the order they were added. Duplicate uuids are kept. */
  class EmbeddingsStore {
    var entries: seq<EmbeddingEntry>

    /** `EmbeddingsStore::new`. */
    constructor ()
      ensures entries == []
      ensures Len() == 0 && IsEmpty()
    {
      entries := [];
    }

    /** Appends one entry at the end; earlier entries stay as they were. */
    method Add(uuid: Uuid, origin: string, embedding: Embedding)
      modifies this
      ensures entries == old(entries) + [EmbeddingEntry(uuid, origin, embedding)]
      ensures Len() == old(Len()) + 1
    {
      entries := entries + [EmbeddingEntry(uuid, origin, embedding)];
    }

    /** The number of entries. */
    function Len(): (n: nat)
      reads this
      ensures n == |entries|
    {
      |entries|
    }

    function IsEmpty(): (empty: bool)
      reads this
      ensures empty <==> Len() == 0
    {
      entries == []
    }

    /**
     * `find_similar`: scores every entry, keeps the hits with similarity at
     * least `threshold`, sorts them by similarity (largest first, stable) and
     * truncates to `limit`. Reads the store and changes nothing.
     */
    method FindSimilar(query: Embedding, threshold: real, limit: nat, sim: Similarity) returns (results: seq<Match>)
      ensures results == TopK(entries, query, threshold, limit, sim)
      ensures |results| <= limit
      ensures entries == [] ==> results == []
      ensures SortedDesc(results)
      ensures forall m :: m in results ==>
        m.similarity >= threshold && exists e :: e in entries && m == Score(query, e, sim)
    {
      results := [];
      var i := 0;
      while i < |entries|
        invariant 0 <= i <= |entries|
        invariant results == Candidates(entries[..i], query, threshold, sim)
      {
        var hit := Score(query, entries[i], sim);
        assert entries[..i + 1] == entries[..i] + [entries[i]];
        if hit.similarity >= threshold {
          results := results + [hit];
        }
        i := i + 1;
      }
      assert entries[..|entries|] == entries;
      // `sort_by` is a stable sort; StableSortIsUnique shows every stable
      // non-increasing sort yields SortDesc.
      results := SortDesc(results);
      if limit < |results| {
        results := results[..limit];
      }
      TopKFacts(entries, query, threshold, limit, sim);
    }
  }
}
