/**
 * Ranking of matches: `matches.sort(key=lambda x: x["similarity"], reverse=True)`.
 * Python's list sort is stable, also with reverse=True, so matches that score
 * the same keep the order in which the gallery produced them. The sort is
 * written here as a stable insertion sort; the lemmas show that it yields a
 * non-increasing permutation of its input that keeps ties in input order, and
 * that these three properties determine the output uniquely, so any stable
 * descending sort agrees with it.
 */
module Ranking {
  import opened Records

  /** Non-increasing similarity from the first match to the last. */
  ghost predicate NonIncreasing(ms: seq<Match>)
  {
    forall i, j :: 0 <= i < j < |ms| ==> ms[i].similarity >= ms[j].similarity
  }

  /** The matches of `ms` that score exactly `v`, in their order in `ms`. */
  function WithScore(ms: seq<Match>, v: real): seq<Match>
  {
    if ms == [] then []
    else (if ms[0].similarity == v then [ms[0]] else []) + WithScore(ms[1..], v)
  }

  /** Inserts `m` in front of the first match that does not score above it. */
  function Insert(m: Match, ms: seq<Match>): (r: seq<Match>)
    ensures multiset(r) == multiset(ms) + multiset{m}
  {
    if ms == [] || m.similarity >= ms[0].similarity then
      [m] + ms
    else
      assert ms == [ms[0]] + ms[1..];
      [ms[0]] + Insert(m, ms[1..])
  }

  lemma TailNonIncreasing(ms: seq<Match>)
    requires NonIncreasing(ms) && ms != []
    ensures NonIncreasing(ms[1..])
  {
    var tail := ms[1..];
    forall i, j | 0 <= i < j < |tail| ensures tail[i].similarity >= tail[j].similarity {
      assert tail[i] == ms[i + 1] && tail[j] == ms[j + 1];
    }
  }

  lemma ConsNonIncreasing(x: Match, rest: seq<Match>)
    requires NonIncreasing(rest)
    requires forall y :: y in rest ==> x.similarity >= y.similarity
    ensures NonIncreasing([x] + rest)
  {
    var r := [x] + rest;
    forall i, j | 0 <= i < j < |r| ensures r[i].similarity >= r[j].similarity {
      assert r[j] == rest[j - 1];
      if i > 0 {
        assert r[i] == rest[i - 1];
      } else {
        assert rest[j - 1] in rest;
      }
    }
  }

  lemma {:induction false} InsertKeepsOrder(m: Match, ms: seq<Match>)
    requires NonIncreasing(ms)
    ensures NonIncreasing(Insert(m, ms))
    decreases ms
  {
    if ms == [] || m.similarity >= ms[0].similarity {
      if ms != [] {
        forall y | y in ms ensures m.similarity >= y.similarity {
          var k :| 0 <= k < |ms| && ms[k] == y;
          assert ms[0].similarity >= ms[k].similarity;
        }
      }
      ConsNonIncreasing(m, ms);
    } else {
      var tail := ms[1..];
      TailNonIncreasing(ms);
      InsertKeepsOrder(m, tail);
      var rest := Insert(m, tail);
      forall y | y in rest ensures ms[0].similarity >= y.similarity {
        assert y in multiset(rest);
        if y != m {
          assert y in multiset(tail);
          var k :| 0 <= k < |tail| && tail[k] == y;
          assert ms[k + 1] == y;
        }
      }
      ConsNonIncreasing(ms[0], rest);
    }
  }

  /** The matches ordered by similarity, highest first, ties in input order. */
  function SortBySimilarity(ms: seq<Match>): (r: seq<Match>)
    ensures multiset(r) == multiset(ms)
    ensures NonIncreasing(r)
  {
    if ms == [] then []
    else
      assert ms == [ms[0]] + ms[1..];
      InsertKeepsOrder(ms[0], SortBySimilarity(ms[1..]));
      Insert(ms[0], SortBySimilarity(ms[1..]))
  }

  lemma {:induction false} WithScoreInsert(m: Match, ms: seq<Match>, v: real)
    ensures WithScore(Insert(m, ms), v) == (if m.similarity == v then [m] else []) + WithScore(ms, v)
    decreases ms
  {
    if ms == [] || m.similarity >= ms[0].similarity {
      assert ([m] + ms)[1..] == ms;
    } else {
      var rest := Insert(m, ms[1..]);
      WithScoreInsert(m, ms[1..], v);
      assert ([ms[0]] + rest)[1..] == rest;
      if m.similarity == v {
        // ms[0] scores above m, so it is not among the ties of v.
        assert ms[0].similarity != v;
      }
    }
  }

  /** Stability: for every score, the matches with that score keep their order. */
  lemma {:induction false} SortKeepsTies(ms: seq<Match>, v: real)
    ensures WithScore(SortBySimilarity(ms), v) == WithScore(ms, v)
    decreases ms
  {
    if ms != [] {
      SortKeepsTies(ms[1..], v);
      WithScoreInsert(ms[0], SortBySimilarity(ms[1..]), v);
    }
  }

  lemma {:induction false} WithScoreBelowHead(ms: seq<Match>, v: real)
    requires NonIncreasing(ms)
    requires ms == [] || v > ms[0].similarity
    ensures WithScore(ms, v) == []
    decreases ms
  {
    if ms != [] {
      TailNonIncreasing(ms);
      if |ms| > 1 {
        assert ms[1..][0] == ms[1];
      }
      WithScoreBelowHead(ms[1..], v);
    }
  }

  lemma HeadHasScore(ms: seq<Match>)
    requires ms != []
    ensures WithScore(ms, ms[0].similarity) != []
  {
  }

  /**
   * A non-increasing sequence is determined by its ties: two non-increasing
   * sequences that agree on the matches of every score are equal.
   */
  lemma {:induction false} TiesDetermineOrder(a: seq<Match>, b: seq<Match>)
    requires NonIncreasing(a) && NonIncreasing(b)
    requires forall v :: WithScore(a, v) == WithScore(b, v)
    ensures a == b
    decreases |a| + |b|
  {
    if a == [] && b == [] {
    } else if a == [] {
      assert false;
    } else if b == [] {
      HeadHasScore(a);
      assert false;
    } else {
      if a[0].similarity > b[0].similarity {
        WithScoreBelowHead(b, a[0].similarity);
        assert false;
      }
      if b[0].similarity > a[0].similarity {
        WithScoreBelowHead(a, b[0].similarity);
        assert false;
      }
      assert WithScore(a, a[0].similarity)[0] == a[0];
      assert WithScore(b, b[0].similarity)[0] == b[0];
      assert a[0] == b[0];
      forall v ensures WithScore(a[1..], v) == WithScore(b[1..], v) {
        assert WithScore(a, v) == WithScore(b, v);
        var h := if a[0].similarity == v then [a[0]] else [];
        assert WithScore(a, v) == h + WithScore(a[1..], v);
        assert WithScore(b, v) == h + WithScore(b[1..], v);
        assert WithScore(a[1..], v) == (h + WithScore(a[1..], v))[|h|..];
        assert WithScore(b[1..], v) == (h + WithScore(b[1..], v))[|h|..];
      }
      TailNonIncreasing(a);
      TailNonIncreasing(b);
      TiesDetermineOrder(a[1..], b[1..]);
      assert a == [a[0]] + a[1..] && b == [b[0]] + b[1..];
    }
  }

  /**
   * Any stable descending ordering of `ms` is SortBySimilarity(ms): the
   * ranking the router returns is fully determined by the gallery order.
   */
  lemma StableSortIsUnique(ms: seq<Match>, other: seq<Match>)
    requires NonIncreasing(other)
    requires forall v :: WithScore(other, v) == WithScore(ms, v)
    ensures other == SortBySimilarity(ms)
  {
    forall v ensures WithScore(other, v) == WithScore(SortBySimilarity(ms), v) {
      SortKeepsTies(ms, v);
    }
    TiesDetermineOrder(other, SortBySimilarity(ms));
  }
}
