/**
 * Python's ordering of `str` values (code point by code point, a proper
 * prefix first), and `sorted(set(xs))` built on it: the shape of every
 * option list in the dashboard's sidebar.
 */
module Lex {

  /** `a < b` on Python strings. */
  predicate Less(a: string, b: string)
    decreases |a|
  {
    if |a| == 0 then |b| > 0
    else if |b| == 0 then false
    else a[0] < b[0] || (a[0] == b[0] && Less(a[1..], b[1..]))
  }

  lemma {:induction false} LessIrreflexive(a: string)
    ensures !Less(a, a)
    decreases |a|
  {
    if |a| > 0 {
      LessIrreflexive(a[1..]);
    }
  }

  lemma {:induction false} LessAsymmetric(a: string, b: string)
    requires Less(a, b)
    ensures !Less(b, a)
    decreases |a|
  {
    if |a| > 0 && a[0] == b[0] {
      LessAsymmetric(a[1..], b[1..]);
    }
  }

  lemma {:induction false} LessTransitive(a: string, b: string, c: string)
    requires Less(a, b) && Less(b, c)
    ensures Less(a, c)
    decreases |a|
  {
    if |a| > 0 && a[0] == b[0] && b[0] == c[0] {
      LessTransitive(a[1..], b[1..], c[1..]);
    }
  }

  /** Any two strings are equal or ordered one way or the other. */
  lemma {:induction false} LessTotal(a: string, b: string)
    ensures a == b || Less(a, b) || Less(b, a)
    decreases |a|
  {
    if |a| > 0 && |b| > 0 && a[0] == b[0] {
      LessTotal(a[1..], b[1..]);
      assert a == [a[0]] + a[1..] && b == [b[0]] + b[1..];
    }
  }

  /** `a <= b` and `b <= c` give `a <= c`. */
  lemma NotLessTransitive(a: string, b: string, c: string)
    requires !Less(b, a) && !Less(c, b)
    ensures !Less(c, a)
  {
    if a != b && b != c {
      LessTotal(a, b);
      LessTotal(b, c);
      LessTransitive(a, b, c);
      LessAsymmetric(a, c);
    }
  }

  ghost predicate StrictlySorted(s: seq<string>)
  {
    forall i, j :: 0 <= i < j < |s| ==> Less(s[i], s[j])
  }

  /** Places `x` in the strictly sorted `s`, unless it is already there. */
  function InsertUnique(x: string, s: seq<string>): seq<string>
  {
    if |s| == 0 then [x]
    else if x == s[0] then s
    else if Less(x, s[0]) then [x] + s
    else [s[0]] + InsertUnique(x, s[1..])
  }

  /** `sorted(set(xs))`: the distinct values of `xs` in ascending order. */
  function SortedUnique(xs: seq<string>): seq<string>
  {
    if |xs| == 0 then [] else InsertUnique(xs[0], SortedUnique(xs[1..]))
  }

  lemma ConsSorted(h: string, t: seq<string>)
    requires StrictlySorted(t)
    requires forall v :: v in t ==> Less(h, v)
    ensures StrictlySorted([h] + t)
  {
    forall i, j | 0 <= i < j < |[h] + t|
      ensures Less(([h] + t)[i], ([h] + t)[j])
    {
      if i > 0 {
        assert ([h] + t)[i] == t[i - 1] && ([h] + t)[j] == t[j - 1];
      } else {
        assert ([h] + t)[j] == t[j - 1];
      }
    }
  }

  lemma {:induction false} InsertUniqueSpec(x: string, s: seq<string>)
    requires StrictlySorted(s)
    ensures StrictlySorted(InsertUnique(x, s))
    ensures forall v :: v in InsertUnique(x, s) <==> v == x || v in s
    decreases |s|
  {
    if |s| == 0 {
    } else if x == s[0] {
    } else if Less(x, s[0]) {
      forall v | v in s ensures Less(x, v) {
        if v != s[0] {
          var j :| 0 <= j < |s| && s[j] == v;
          LessTransitive(x, s[0], v);
        }
      }
      ConsSorted(x, s);
    } else {
      LessTotal(x, s[0]);
      var rest := s[1..];
      assert StrictlySorted(rest) by {
        forall i, j | 0 <= i < j < |rest| ensures Less(rest[i], rest[j]) {
          assert rest[i] == s[i + 1] && rest[j] == s[j + 1];
        }
      }
      InsertUniqueSpec(x, rest);
      forall v | v in InsertUnique(x, rest) ensures Less(s[0], v) {
        if v != x {
          var j :| 0 <= j < |rest| && rest[j] == v;
          assert s[j + 1] == v;
        }
      }
      ConsSorted(s[0], InsertUnique(x, rest));
      assert s == [s[0]] + rest;
    }
  }

  /**
   * The option lists of the sidebar: ascending without repeats, holding
   * exactly the values of `xs`.
   */
  lemma {:induction false} SortedUniqueSpec(xs: seq<string>)
    ensures StrictlySorted(SortedUnique(xs))
    ensures forall v :: v in SortedUnique(xs) <==> v in xs
    decreases |xs|
  {
    if |xs| > 0 {
      SortedUniqueSpec(xs[1..]);
      InsertUniqueSpec(xs[0], SortedUnique(xs[1..]));
      assert xs == [xs[0]] + xs[1..];
    }
  }

  /** A strictly sorted sequence has as many elements as distinct values. */
  lemma {:induction false} StrictlySortedCount(s: seq<string>)
    requires StrictlySorted(s)
    ensures |set v | v in s| == |s|
    decreases |s|
  {
    if |s| > 0 {
      var rest := s[1..];
      assert StrictlySorted(rest) by {
        forall i, j | 0 <= i < j < |rest| ensures Less(rest[i], rest[j]) {
          assert rest[i] == s[i + 1] && rest[j] == s[j + 1];
        }
      }
      StrictlySortedCount(rest);
      LessIrreflexive(s[0]);
      assert s[0] !in rest by {
        forall j | 0 <= j < |rest| ensures rest[j] != s[0] {
          assert Less(s[0], s[j + 1]);
        }
      }
      assert (set v | v in s) == {s[0]} + (set v | v in rest) by {
        assert s == [s[0]] + rest;
      }
    }
  }
}
