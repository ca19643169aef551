/**
 * "Popularity Trend Over Time": the selected track's rows of the whole
 * table, narrowed to the selected country unless it is "All", ordered by
 * the week. The week is text here, so the order is that of strings and
 * "10" comes before "2".
 */
module Trend {
  import opened Wrappers
  import opened Dataset
  import opened Filters
  import Lex

  /** Weeks in ascending string order. */
  ghost predicate SortedByWeek(s: seq<Record>)
  {
    forall i, j :: 0 <= i < j < |s| ==> !Lex.Less(s[j].week, s[i].week)
  }

  function InsertByWeek(x: Record, s: seq<Record>): seq<Record>
  {
    if |s| == 0 || !Lex.Less(s[0].week, x.week) then [x] + s
    else [s[0]] + InsertByWeek(x, s[1..])
  }

  /** `sort_values('Weeknum')`. */
  function SortByWeek(s: seq<Record>): seq<Record>
  {
    if |s| == 0 then [] else InsertByWeek(s[0], SortByWeek(s[1..]))
  }

  lemma ConsSortedByWeek(h: Record, t: seq<Record>)
    requires SortedByWeek(t)
    requires forall y :: y in t ==> !Lex.Less(y.week, h.week)
    ensures SortedByWeek([h] + t)
  {
    var r := [h] + t;
    forall i, j | 0 <= i < j < |r| ensures !Lex.Less(r[j].week, r[i].week) {
      assert r[j] == t[j - 1];
      if i > 0 {
        assert r[i] == t[i - 1];
      }
    }
  }

  lemma {:induction false} InsertByWeekSpec(x: Record, s: seq<Record>)
    requires SortedByWeek(s)
    ensures SortedByWeek(InsertByWeek(x, s))
    ensures multiset(InsertByWeek(x, s)) == multiset(s) + multiset{x}
    decreases |s|
  {
    if |s| == 0 {
    } else if !Lex.Less(s[0].week, x.week) {
      forall y | y in s ensures !Lex.Less(y.week, x.week) {
        var k :| 0 <= k < |s| && s[k] == y;
        if k > 0 {
          Lex.NotLessTransitive(x.week, s[0].week, y.week);
        }
      }
      ConsSortedByWeek(x, s);
    } else {
      var rest := s[1..];
      assert SortedByWeek(rest) by {
        forall i, j | 0 <= i < j < |rest| ensures !Lex.Less(rest[j].week, rest[i].week) {
          assert rest[i] == s[i + 1] && rest[j] == s[j + 1];
        }
      }
      InsertByWeekSpec(x, rest);
      var ins := InsertByWeek(x, rest);
      Lex.LessAsymmetric(s[0].week, x.week);
      forall y | y in ins ensures !Lex.Less(y.week, s[0].week) {
        assert y in multiset(ins);
        if y != x {
          var k :| 0 <= k < |rest| && rest[k] == y;
          assert s[k + 1] == y;
        }
      }
      ConsSortedByWeek(s[0], ins);
      assert s == [s[0]] + rest;
    }
  }

  /** Sorting by week reorders the rows and nothing else, and puts the weeks in string order. */
  lemma {:induction false} SortByWeekSpec(s: seq<Record>)
    ensures SortedByWeek(SortByWeek(s))
    ensures multiset(SortByWeek(s)) == multiset(s)
    decreases |s|
  {
    if |s| > 0 {
      SortByWeekSpec(s[1..]);
      InsertByWeekSpec(s[0], SortByWeek(s[1..]));
      assert s == [s[0]] + s[1..];
    }
  }

  /** Lines 126-129 of the script. */
  function TrendRows(table: seq<Record>, track: string, country: string): seq<Record>
  {
    SortByWeek(Where(Keep(table, TrackName, track), Country, country))
  }

  /**
   * The trend holds every row of the whole table for the track (and for the
   * country, when one is chosen) as often as the table does, no other row,
   * with the weeks in string order.
   */
  lemma TrendSpec(table: seq<Record>, track: string, country: string)
    ensures SortedByWeek(TrendRows(table, track, country))
    ensures forall x :: multiset(TrendRows(table, track, country))[x] ==
              if x.track == Some(track) && Admits(country, x.country) then multiset(table)[x] else 0
  {
    var song := Keep(table, TrackName, track);
    KeepSpec(table, TrackName, track);
    WhereSpec(song, Country, country);
    SortByWeekSpec(Where(song, Country, country));
  }

  /** Weeks compare as text: "1" < "10" < "2". */
  lemma WeeksCompareAsText()
    ensures Lex.Less("1", "10") && Lex.Less("10", "2")
  {
  }
}
