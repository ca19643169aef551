/**
 * The "Top 10 Songs" bar chart: the filtered view with repeated
 * (track, artist) pairs dropped, sorted by the chosen metric, largest
 * first, cut to ten rows; and the fixed axis of the Popularity chart.
 */
module TopN {
  import opened Wrappers
  import opened Dataset
  import Seqs

  /** The metrics the chart can rank by. */
  datatype Metric = Popularity | Danceability | Energy | Acousticness | Instrumentalness | Positiveness

  function MetricValue(r: Record, m: Metric): int
  {
    match m
    case Popularity => r.features.popularity
    case Danceability => r.features.danceability
    case Energy => r.features.energy
    case Acousticness => r.features.acousticness
    case Instrumentalness => r.features.instrumentalness
    case Positiveness => r.features.positiveness
  }

  function MetricKey(m: Metric): Record -> int
  {
    (r: Record) => MetricValue(r, m)
  }

  /** How many rows the chart shows at most (`head(10)`). */
  const TOP_COUNT: nat := 10

  type PairKey = (Option<string>, Option<string>)

  /** The columns `drop_duplicates` compares; two missing values count as equal. */
  function Pair(r: Record): PairKey
  {
    (r.track, r.artist)
  }

  function Pairs(s: seq<Record>): set<PairKey>
  {
    if |s| == 0 then {} else {Pair(s[0])} + Pairs(s[1..])
  }

  ghost predicate PairsDistinct(s: seq<Record>)
  {
    forall i, j :: 0 <= i < j < |s| ==> Pair(s[i]) != Pair(s[j])
  }

  /** The first row of `s` with pair `p`. */
  function FirstWithPair(s: seq<Record>, p: PairKey): Record
    requires p in Pairs(s)
  {
    if Pair(s[0]) == p then s[0] else FirstWithPair(s[1..], p)
  }

  /** `drop_duplicates(subset=['Track Name', 'Artist Name'])` once the pairs in `seen` are taken. */
  function DedupFrom(s: seq<Record>, seen: set<PairKey>): seq<Record>
  {
    if |s| == 0 then []
    else if Pair(s[0]) in seen then DedupFrom(s[1..], seen)
    else [s[0]] + DedupFrom(s[1..], seen + {Pair(s[0])})
  }

  /** `drop_duplicates(subset=['Track Name', 'Artist Name'])`, keeping the first of each pair. */
  function Dedup(s: seq<Record>): seq<Record>
  {
    DedupFrom(s, {})
  }

  lemma {:induction false} PairsMembers(s: seq<Record>)
    ensures forall k :: 0 <= k < |s| ==> Pair(s[k]) in Pairs(s)
    ensures forall x :: x in s ==> Pair(x) in Pairs(s)
    decreases |s|
  {
    if |s| > 0 {
      PairsMembers(s[1..]);
      forall k | 1 <= k < |s| ensures Pair(s[k]) in Pairs(s) {
        assert s[k] == s[1..][k - 1];
      }
    }
  }

  lemma {:induction false} DedupFromSubseq(s: seq<Record>, seen: set<PairKey>)
    ensures Seqs.IsSubseq(DedupFrom(s, seen), s)
    decreases |s|
  {
    if |s| > 0 {
      var p := Pair(s[0]);
      if p in seen {
        DedupFromSubseq(s[1..], seen);
      } else {
        DedupFromSubseq(s[1..], seen + {p});
        var d := DedupFrom(s, seen);
        assert d[0] == s[0] && d[1..] == DedupFrom(s[1..], seen + {p});
      }
    }
  }

  lemma {:induction false} DedupFromPairs(s: seq<Record>, seen: set<PairKey>)
    ensures PairsDistinct(DedupFrom(s, seen))
    ensures Pairs(DedupFrom(s, seen)) == Pairs(s) - seen
    ensures |DedupFrom(s, seen)| == |Pairs(s) - seen|
    decreases |s|
  {
    if |s| > 0 {
      var x, p := s[0], Pair(s[0]);
      var d := DedupFrom(s, seen);
      if p in seen {
        DedupFromPairs(s[1..], seen);
        assert Pairs(s) - seen == Pairs(s[1..]) - seen;
      } else {
        var seen' := seen + {p};
        DedupFromPairs(s[1..], seen');
        var rest := DedupFrom(s[1..], seen');
        assert d == [x] + rest;
        PairsMembers(rest);
        assert Pairs(s) - seen == {p} + (Pairs(s[1..]) - seen');
        assert p !in Pairs(s[1..]) - seen';
        assert Pairs(d) == {p} + Pairs(rest) by {
          assert d[1..] == rest;
        }
        forall i, j | 0 <= i < j < |d| ensures Pair(d[i]) != Pair(d[j]) {
          assert d[j] == rest[j - 1];
          if i > 0 {
            assert d[i] == rest[i - 1];
          }
        }
      }
    }
  }

  lemma {:induction false} DedupFromFirst(s: seq<Record>, seen: set<PairKey>)
    ensures forall k :: 0 <= k < |DedupFrom(s, seen)| ==>
              Pair(DedupFrom(s, seen)[k]) in Pairs(s) &&
              DedupFrom(s, seen)[k] == FirstWithPair(s, Pair(DedupFrom(s, seen)[k]))
    decreases |s|
  {
    if |s| > 0 {
      var p := Pair(s[0]);
      var d := DedupFrom(s, seen);
      if p in seen {
        DedupFromFirst(s[1..], seen);
        DedupFromPairs(s[1..], seen);
        PairsMembers(d);
      } else {
        var seen' := seen + {p};
        DedupFromFirst(s[1..], seen');
        DedupFromPairs(s[1..], seen');
        var rest := DedupFrom(s[1..], seen');
        assert d == [s[0]] + rest;
        PairsMembers(rest);
        forall k | 0 < k < |d|
          ensures Pair(d[k]) in Pairs(s) && d[k] == FirstWithPair(s, Pair(d[k]))
        {
          assert d[k] == rest[k - 1];
        }
      }
    }
  }

  lemma DedupFromSpec(s: seq<Record>, seen: set<PairKey>)
    ensures Seqs.IsSubseq(DedupFrom(s, seen), s)
    ensures PairsDistinct(DedupFrom(s, seen))
    ensures Pairs(DedupFrom(s, seen)) == Pairs(s) - seen
    ensures |DedupFrom(s, seen)| == |Pairs(s) - seen|
    ensures forall k :: 0 <= k < |DedupFrom(s, seen)| ==>
              Pair(DedupFrom(s, seen)[k]) in Pairs(s) &&
              DedupFrom(s, seen)[k] == FirstWithPair(s, Pair(DedupFrom(s, seen)[k]))
  {
    DedupFromSubseq(s, seen);
    DedupFromPairs(s, seen);
    DedupFromFirst(s, seen);
  }

  /**
   * Dropping duplicates keeps one row per (track, artist) pair of the view,
   * in view order, and the row kept is the pair's first occurrence.
   */
  lemma DedupSpec(s: seq<Record>)
    ensures Seqs.IsSubseq(Dedup(s), s)
    ensures PairsDistinct(Dedup(s))
    ensures Pairs(Dedup(s)) == Pairs(s)
    ensures |Dedup(s)| == |Pairs(s)|
    ensures forall k :: 0 <= k < |Dedup(s)| ==>
              Pair(Dedup(s)[k]) in Pairs(s) && Dedup(s)[k] == FirstWithPair(s, Pair(Dedup(s)[k]))
  {
    DedupFromSpec(s, {});
    assert Pairs(s) - {} == Pairs(s);
  }

  /** Lines 59-64 of the script: the rows of the top-10 chart, best first. */
  function Top(view: seq<Record>, m: Metric): seq<Record>
  {
    Seqs.Take(Seqs.SortDescBy(Dedup(view), MetricKey(m)), TOP_COUNT)
  }

  lemma {:induction false} AtMostOnce(s: seq<Record>)
    requires PairsDistinct(s)
    ensures forall x :: multiset(s)[x] <= 1
    decreases |s|
  {
    if |s| > 0 {
      var rest := s[1..];
      assert PairsDistinct(rest) by {
        forall i, j | 0 <= i < j < |rest| ensures Pair(rest[i]) != Pair(rest[j]) {
          assert rest[i] == s[i + 1] && rest[j] == s[j + 1];
        }
      }
      AtMostOnce(rest);
      assert s[0] !in rest by {
        forall j | 0 <= j < |rest| ensures rest[j] != s[0] {
          assert Pair(s[0]) != Pair(s[j + 1]);
        }
      }
      assert s == [s[0]] + rest;
    }
  }

  lemma CountTwo(a: seq<Record>, i: nat, j: nat)
    requires i < j < |a|
    ensures a[i] == a[j] ==> multiset(a)[a[i]] >= 2
  {
    assert a == a[..j] + a[j..];
    assert a[i] in a[..j];
    assert a[j..] == [a[j]] + a[j + 1..];
  }

  /** Reordering rows keeps their pairs distinct. */
  lemma PairsDistinctPermutation(a: seq<Record>, b: seq<Record>)
    requires multiset(a) == multiset(b)
    requires PairsDistinct(b)
    ensures PairsDistinct(a)
  {
    AtMostOnce(b);
    forall i, j | 0 <= i < j < |a| ensures Pair(a[i]) != Pair(a[j]) {
      CountTwo(a, i, j);
      assert a[i] in multiset(b) && a[j] in multiset(b);
      var p :| 0 <= p < |b| && b[p] == a[i];
      var q :| 0 <= q < |b| && b[q] == a[j];
    }
  }

  /**
   * The chart holds min(10, number of distinct pairs) rows, each a row of
   * the view and the first occurrence of its pair there, no two with the
   * same (track, artist) pair.
   */
  lemma TopRows(view: seq<Record>, m: Metric)
    ensures |Top(view, m)| == if |Pairs(view)| < TOP_COUNT then |Pairs(view)| else TOP_COUNT
    ensures PairsDistinct(Top(view, m))
    ensures forall k :: 0 <= k < |Top(view, m)| ==>
              Top(view, m)[k] in view &&
              Pair(Top(view, m)[k]) in Pairs(view) &&
              Top(view, m)[k] == FirstWithPair(view, Pair(Top(view, m)[k]))
  {
    var d := Dedup(view);
    DedupSpec(view);
    var sorted := Seqs.SortDescBy(d, MetricKey(m));
    Seqs.SortDescBySpec(d, MetricKey(m));
    assert |sorted| == |d| by {
      assert |multiset(sorted)| == |multiset(d)|;
    }
    PairsDistinctPermutation(sorted, d);
    Seqs.IsSubseqMembers(d, view);
    var r := Top(view, m);
    forall k | 0 <= k < |r|
      ensures r[k] in view && Pair(r[k]) in Pairs(view) && r[k] == FirstWithPair(view, Pair(r[k]))
    {
      assert r[k] == sorted[k];
      assert sorted[k] in multiset(d);
      var i :| 0 <= i < |d| && d[i] == sorted[k];
    }
  }

  /**
   * The chart is ordered by the metric, largest first. The order among
   * equal values is not fixed.
   */
  lemma TopSorted(view: seq<Record>, m: Metric)
    ensures forall i, j :: 0 <= i < j < |Top(view, m)| ==>
              MetricValue(Top(view, m)[i], m) >= MetricValue(Top(view, m)[j], m)
  {
    var key := MetricKey(m);
    var sorted := Seqs.SortDescBy(Dedup(view), key);
    Seqs.SortDescBySpec(Dedup(view), key);
    assert Top(view, m) == sorted[..|Top(view, m)|];
    forall i, j | 0 <= i < j < |sorted| ensures MetricValue(sorted[i], m) >= MetricValue(sorted[j], m) {
      assert key(sorted[i]) >= key(sorted[j]);
    }
  }

  /**
   * The chart rows are rows of the deduplicated view, and none of the rows
   * left off it has a larger metric than a row on it.
   */
  lemma TopIsBest(view: seq<Record>, m: Metric)
    ensures multiset(Top(view, m)) <= multiset(Dedup(view))
    ensures forall x, y :: x in Top(view, m) && y in multiset(Dedup(view)) - multiset(Top(view, m)) ==>
              MetricValue(y, m) <= MetricValue(x, m)
  {
    var d := Dedup(view);
    var key := MetricKey(m);
    var sorted := Seqs.SortDescBy(d, key);
    Seqs.SortDescBySpec(d, key);
    var r := Top(view, m);
    var k := |r|;
    var tail := sorted[k..];
    assert r == sorted[..k];
    assert sorted == r + tail;
    assert multiset(d) == multiset(r) + multiset(tail);
    TailBelow(sorted, k, m);
    forall x, y | x in r && y in multiset(d) - multiset(r)
      ensures MetricValue(y, m) <= MetricValue(x, m)
    {
      assert y in multiset(tail);
      assert y in tail;
    }
  }

  lemma TailBelow(sorted: seq<Record>, k: nat, m: Metric)
    requires k <= |sorted|
    requires Seqs.SortedDescBy(sorted, MetricKey(m))
    ensures forall x, y :: x in sorted[..k] && y in sorted[k..] ==> MetricValue(y, m) <= MetricValue(x, m)
  {
    forall x, y | x in sorted[..k] && y in sorted[k..] ensures MetricValue(y, m) <= MetricValue(x, m) {
      var i :| 0 <= i < k && sorted[..k][i] == x;
      var j :| 0 <= j < |sorted| - k && sorted[k..][j] == y;
      assert MetricKey(m)(sorted[i]) >= MetricKey(m)(sorted[k + j]);
    }
  }

  /** Lines 75-76 of the script: only the Popularity chart has a fixed y-axis, 0 to 100. */
  function YAxisRange(m: Metric): (r: Option<(int, int)>)
    ensures r.Some? <==> m == Popularity
    ensures r.Some? ==> r.value == (0, 100)
  {
    if m == Popularity then Some((0, 100)) else None
  }
}
