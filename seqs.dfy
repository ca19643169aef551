/**
 * Sequence facts shared by the table operations: order-preserving
 * subsequences, and a descending sort on an integer key (the shape of
 * `sort_values(by=..., ascending=False)`). The ascending sort by week lives
 * in `Trend`: its key is text compared by `Lex.Less`, not an integer, and
 * its sortedness proofs rest on the totality and transitivity lemmas of
 * `Lex` rather than on integer order.
 */
module Seqs {

  /** `a` is `b` with some elements left out, the rest in their order. */
  predicate IsSubseq<T(==)>(a: seq<T>, b: seq<T>)
    decreases |b|
  {
    |a| == 0 ||
    (|b| > 0 && ((a[0] == b[0] && IsSubseq(a[1..], b[1..])) || IsSubseq(a, b[1..])))
  }

  lemma {:induction false} IsSubseqReflexive<T>(a: seq<T>)
    ensures IsSubseq(a, a)
    decreases |a|
  {
    if |a| > 0 {
      IsSubseqReflexive(a[1..]);
    }
  }

  /** Every element of a subsequence is an element of the whole. */
  lemma {:induction false} IsSubseqMembers<T>(a: seq<T>, b: seq<T>)
    requires IsSubseq(a, b)
    ensures forall x :: x in a ==> x in b
    decreases |b|
  {
    if |a| > 0 {
      if a[0] == b[0] && IsSubseq(a[1..], b[1..]) {
        IsSubseqMembers(a[1..], b[1..]);
        assert a == [a[0]] + a[1..];
      } else {
        IsSubseqMembers(a, b[1..]);
      }
    }
  }

  ghost predicate SortedDescBy<T>(s: seq<T>, key: T -> int)
  {
    forall i, j :: 0 <= i < j < |s| ==> key(s[i]) >= key(s[j])
  }

  function InsertDescBy<T>(x: T, s: seq<T>, key: T -> int): seq<T>
  {
    if |s| == 0 || key(x) >= key(s[0]) then [x] + s
    else [s[0]] + InsertDescBy(x, s[1..], key)
  }

  /** Sorts by `key`, largest first. */
  function SortDescBy<T>(s: seq<T>, key: T -> int): seq<T>
  {
    if |s| == 0 then [] else InsertDescBy(s[0], SortDescBy(s[1..], key), key)
  }

  lemma ConsSortedDescBy<T>(h: T, t: seq<T>, key: T -> int)
    requires SortedDescBy(t, key)
    requires forall y :: y in t ==> key(h) >= key(y)
    ensures SortedDescBy([h] + t, key)
  {
    var r := [h] + t;
    forall i, j | 0 <= i < j < |r| ensures key(r[i]) >= key(r[j]) {
      assert r[j] == t[j - 1];
      if i > 0 {
        assert r[i] == t[i - 1];
      }
    }
  }

  lemma {:induction false} InsertDescByPerm<T>(x: T, s: seq<T>, key: T -> int)
    ensures multiset(InsertDescBy(x, s, key)) == multiset(s) + multiset{x}
    decreases |s|
  {
    if |s| > 0 && key(x) < key(s[0]) {
      InsertDescByPerm(x, s[1..], key);
      assert s == [s[0]] + s[1..];
    }
  }

  lemma {:induction false} InsertDescBySpec<T>(x: T, s: seq<T>, key: T -> int)
    requires SortedDescBy(s, key)
    ensures SortedDescBy(InsertDescBy(x, s, key), key)
    ensures multiset(InsertDescBy(x, s, key)) == multiset(s) + multiset{x}
    decreases |s|
  {
    InsertDescByPerm(x, s, key);
    if |s| == 0 {
    } else if key(x) >= key(s[0]) {
      forall y | y in s ensures key(x) >= key(y) {
        var k :| 0 <= k < |s| && s[k] == y;
      }
      ConsSortedDescBy(x, s, key);
    } else {
      var rest := s[1..];
      assert SortedDescBy(rest, key) by {
        forall i, j | 0 <= i < j < |rest| ensures key(rest[i]) >= key(rest[j]) {
          assert rest[i] == s[i + 1] && rest[j] == s[j + 1];
        }
      }
      InsertDescBySpec(x, rest, key);
      var ins := InsertDescBy(x, rest, key);
      forall y | y in ins ensures key(s[0]) >= key(y) {
        assert y in multiset(ins);
        if y != x {
          var k :| 0 <= k < |rest| && rest[k] == y;
          assert s[k + 1] == y;
        }
      }
      ConsSortedDescBy(s[0], ins, key);
    }
  }

  lemma {:induction false} SortDescByPerm<T>(s: seq<T>, key: T -> int)
    ensures multiset(SortDescBy(s, key)) == multiset(s)
    decreases |s|
  {
    if |s| > 0 {
      SortDescByPerm(s[1..], key);
      InsertDescByPerm(s[0], SortDescBy(s[1..], key), key);
      assert s == [s[0]] + s[1..];
    }
  }

  /** The sort is a permutation, ordered largest key first. */
  lemma {:induction false} SortDescBySpec<T>(s: seq<T>, key: T -> int)
    ensures SortedDescBy(SortDescBy(s, key), key)
    ensures multiset(SortDescBy(s, key)) == multiset(s)
    decreases |s|
  {
    SortDescByPerm(s, key);
    if |s| > 0 {
      SortDescBySpec(s[1..], key);
      InsertDescBySpec(s[0], SortDescBy(s[1..], key), key);
    }
  }

  /** `head(n)`: the first `n` elements, or all of them when there are fewer. */
  function Take<T>(s: seq<T>, n: nat): (r: seq<T>)
    ensures |r| == if |s| < n then |s| else n
    ensures r <= s
  {
    if |s| < n then s else s[..n]
  }
}
