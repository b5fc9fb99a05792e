/**
 * The ranking step of the search: the scored candidates are sorted by
 * similarity, largest first, with a stable sort (`sort_by` with the
 * comparator `b.2.partial_cmp(&a.2)`), so candidates of equal similarity
 * keep the order in which they were collected.
 *
 * `SortDesc` is the reference stable sort (insertion from the back);
 * `StableSortIsUnique` shows that any sort that is non-increasing and keeps
 * the order within each similarity value produces exactly it.
 */
module Ranking {
  import opened UuidText

  /** One search hit: `(uuid, origin, similarity)`. */
  datatype Match = Match(uuid: Uuid, origin: string, similarity: real)

  /** Non-increasing similarity. */
  predicate SortedDesc(s: seq<Match>) {
    forall i, j :: 0 <= i < j < |s| ==> s[i].similarity >= s[j].similarity
  }

  /** The matches of `s` whose similarity is exactly `v`, in their order in `s`. */
  function SameScore(s: seq<Match>, v: real): (r: seq<Match>)
    ensures |r| <= |s|
    ensures forall y :: y in r ==> y in s && y.similarity == v
  {
    if s == [] then []
    else (if s[0].similarity == v then [s[0]] else []) + SameScore(s[1..], v)
  }

  /** Inserts `x` into `s` after every element at least as similar as `x`. */
  function Insert(s: seq<Match>, x: Match): (r: seq<Match>)
    ensures |r| == |s| + 1
    ensures multiset(r) == multiset(s) + multiset{x}
  {
    if s == [] then [x]
    else if s[0].similarity >= x.similarity then
      assert s == [s[0]] + s[1..];
      [s[0]] + Insert(s[1..], x)
    else [x] + s
  }

  /** The stable non-increasing sort of `c`. */
  function SortDesc(c: seq<Match>): (r: seq<Match>)
    ensures |r| == |c|
    ensures multiset(r) == multiset(c)
  {
    if c == [] then []
    else
      assert c == c[..|c| - 1] + [c[|c| - 1]];
      Insert(SortDesc(c[..|c| - 1]), c[|c| - 1])
  }

  lemma {:induction false} SameScoreAppend(a: seq<Match>, b: seq<Match>, v: real)
    ensures SameScore(a + b, v) == SameScore(a, v) + SameScore(b, v)
  {
    if a == [] {
      assert a + b == b;
    } else {
      assert (a + b)[0] == a[0];
      assert (a + b)[1..] == a[1..] + b;
      SameScoreAppend(a[1..], b, v);
    }
  }

  lemma {:induction false} SameScoreAbsent(s: seq<Match>, v: real)
    requires forall k :: 0 <= k < |s| ==> s[k].similarity != v
    ensures SameScore(s, v) == []
  {
    if s != [] {
      SameScoreAbsent(s[1..], v);
    }
  }

  lemma {:induction false} InsertBounded(s: seq<Match>, x: Match, bound: real)
    requires forall k :: 0 <= k < |s| ==> s[k].similarity <= bound
    requires x.similarity <= bound
    ensures forall k :: 0 <= k < |Insert(s, x)| ==> Insert(s, x)[k].similarity <= bound
  {
    if s != [] && s[0].similarity >= x.similarity {
      InsertBounded(s[1..], x, bound);
    }
  }

  lemma {:induction false} InsertSorted(s: seq<Match>, x: Match)
    requires SortedDesc(s)
    ensures SortedDesc(Insert(s, x))
  {
    if s != [] && s[0].similarity >= x.similarity {
      var t := Insert(s[1..], x);
      InsertSorted(s[1..], x);
      InsertBounded(s[1..], x, s[0].similarity);
      assert Insert(s, x) == [s[0]] + t;
    }
  }

  /** The reference sort is non-increasing. */
  lemma {:induction false} SortDescSorted(c: seq<Match>)
    ensures SortedDesc(SortDesc(c))
  {
    if c != [] {
      SortDescSorted(c[..|c| - 1]);
      InsertSorted(SortDesc(c[..|c| - 1]), c[|c| - 1]);
    }
  }

  lemma {:induction false} InsertSameScore(s: seq<Match>, x: Match, v: real)
    requires SortedDesc(s)
    ensures SameScore(Insert(s, x), v) == SameScore(s, v) + (if x.similarity == v then [x] else [])
  {
    if s == [] {
    } else if s[0].similarity >= x.similarity {
      InsertSameScore(s[1..], x, v);
      assert Insert(s, x) == [s[0]] + Insert(s[1..], x);
      assert Insert(s, x)[1..] == Insert(s[1..], x);
    } else {
      assert Insert(s, x)[1..] == s;
      if x.similarity == v {
        SameScoreAbsent(s, v);
      }
    }
  }

  /** The reference sort is stable: within each similarity value, the order of `c` is kept. */
  lemma {:induction false} SortDescStable(c: seq<Match>, v: real)
    ensures SameScore(SortDesc(c), v) == SameScore(c, v)
  {
    if c != [] {
      var front, x := c[..|c| - 1], c[|c| - 1];
      assert c == front + [x];
      SameScoreAppend(front, [x], v);
      SortDescStable(front, v);
      SortDescSorted(front);
      InsertSameScore(SortDesc(front), x, v);
    }
  }

  lemma SameScoreOfHead(s: seq<Match>)
    requires s != []
    ensures SameScore(s, s[0].similarity) != []
  {
  }

  lemma SortedHeadIsMax(s: seq<Match>, y: Match)
    requires SortedDesc(s) && y in s
    ensures s[0].similarity >= y.similarity
  {
    var i :| 0 <= i < |s| && s[i] == y;
  }

  lemma SortedHeadsAgree(a: seq<Match>, b: seq<Match>)
    requires SortedDesc(a) && SortedDesc(b) && a != [] && b != []
    requires forall v :: SameScore(a, v) == SameScore(b, v)
    ensures a[0] == b[0]
  {
    var va, vb := a[0].similarity, b[0].similarity;
    assert a[0] in SameScore(a, va);
    assert a[0] in SameScore(b, va);
    SortedHeadIsMax(b, a[0]);
    assert b[0] in SameScore(b, vb);
    assert b[0] in SameScore(a, vb);
    SortedHeadIsMax(a, b[0]);
    assert SameScore(a, va)[0] == a[0];
    assert SameScore(b, va)[0] == b[0];
  }

  lemma TailsAgree(a: seq<Match>, b: seq<Match>, w: real)
    requires a != [] && b != [] && a[0] == b[0]
    requires SameScore(a, w) == SameScore(b, w)
    ensures SameScore(a[1..], w) == SameScore(b[1..], w)
  {
    if w == a[0].similarity {
      assert SameScore(a[1..], w) == SameScore(a, w)[1..];
      assert SameScore(b[1..], w) == SameScore(b, w)[1..];
    } else {
      assert SameScore(a, w) == [] + SameScore(a[1..], w) == SameScore(a[1..], w);
      assert SameScore(b, w) == [] + SameScore(b[1..], w) == SameScore(b[1..], w);
    }
  }

  /** Two non-increasing sequences with the same matches in the same order per similarity are equal. */
  lemma {:induction false} SortedStableEqual(a: seq<Match>, b: seq<Match>)
    requires SortedDesc(a) && SortedDesc(b)
    requires forall v :: SameScore(a, v) == SameScore(b, v)
    ensures a == b
    decreases |a| + |b|
  {
    if a == [] && b == [] {
    } else if a == [] {
      SameScoreOfHead(b);
      assert false;
    } else if b == [] {
      SameScoreOfHead(a);
      assert false;
    } else {
      SortedHeadsAgree(a, b);
      forall w ensures SameScore(a[1..], w) == SameScore(b[1..], w) {
        TailsAgree(a, b, w);
      }
      SortedStableEqual(a[1..], b[1..]);
      assert a == [a[0]] + a[1..];
      assert b == [b[0]] + b[1..];
    }
  }

  /**
   * Any non-increasing sort of `c` that keeps the order of `c` within each
   * similarity value is the reference sort: the ranking is deterministic,
   * ties included, whatever stable algorithm performs it.
   */
  lemma StableSortIsUnique(c: seq<Match>, r: seq<Match>)
    requires SortedDesc(r)
    requires forall v :: SameScore(r, v) == SameScore(c, v)
    ensures r == SortDesc(c)
  {
    SortDescSorted(c);
    forall v ensures SameScore(r, v) == SameScore(SortDesc(c), v) {
      SortDescStable(c, v);
    }
    SortedStableEqual(r, SortDesc(c));
  }

  /** Cutting a non-increasing sequence after `n` elements drops nothing more similar than what is kept. */
  lemma TruncationKeepsBest(s: seq<Match>, n: nat)
    requires SortedDesc(s) && n <= |s|
    ensures forall m, k :: (m in multiset(s) - multiset(s[..n]) && 0 <= k < n) ==>
      m.similarity <= s[..n][k].similarity
  {
    assert s == s[..n] + s[n..];
    assert multiset(s) - multiset(s[..n]) == multiset(s[n..]);
    forall m: Match, k: int | m in multiset(s) - multiset(s[..n]) && 0 <= k < n
      ensures m.similarity <= s[..n][k].similarity
    {
      assert m in s[n..];
      var j :| 0 <= j < |s[n..]| && s[n..][j] == m;
      assert s[n + j] == m;
    }
  }
}
