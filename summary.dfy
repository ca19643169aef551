/**
 * "Song Stats Across Countries": for the selected track, one row per
 * country name with the number of distinct weeks it charted there and
 * its best (lowest) ranking, most weeks first. It is drawn from the whole
 * table, whatever the country and week filters say.
 */
module Summary {
  import opened Wrappers
  import opened Dataset
  import opened Filters
  import Lex
  import Seqs

  /** One row of the summary table: Country Name, Weeks Featured, Best Ranking. */
  datatype CountryStats = CountryStats(countryName: string, weeksFeatured: nat, bestRanking: int)

  function WeeksKey(): CountryStats -> int
  {
    (c: CountryStats) => c.weeksFeatured
  }

  /** `min()` of the ranking column of a group, which is never empty. */
  function MinRanking(g: seq<Record>): int
    requires |g| > 0
  {
    if |g| == 1 then g[0].ranking
    else
      var m := MinRanking(g[1..]);
      if g[0].ranking < m then g[0].ranking else m
  }

  lemma {:induction false} MinRankingSpec(g: seq<Record>)
    requires |g| > 0
    ensures forall x :: x in g ==> MinRanking(g) <= x.ranking
    ensures exists x :: x in g && x.ranking == MinRanking(g)
    decreases |g|
  {
    assert g[0] in g;
    if |g| > 1 {
      MinRankingSpec(g[1..]);
      assert g == [g[0]] + g[1..];
      if g[0].ranking >= MinRanking(g[1..]) {
        var x :| x in g[1..] && x.ranking == MinRanking(g[1..]);
        assert x in g;
      }
    }
  }

  /** The row of one country: the group is the song's rows with that country name. */
  function GroupStats(song: seq<Record>, name: string): CountryStats
    requires |Keep(song, CountryName, name)| > 0
  {
    var g := Keep(song, CountryName, name);
    CountryStats(name, |Candidates(g, Weeknum)|, MinRanking(g))
  }

  /** `groupby('Country Name')` with both aggregates merged: one row per name, in name order. */
  function StatsFor(song: seq<Record>, names: seq<string>): seq<CountryStats>
    requires forall n :: n in names ==> |Keep(song, CountryName, n)| > 0
  {
    if |names| == 0 then []
    else [GroupStats(song, names[0])] + StatsFor(song, names[1..])
  }

  /** Every country name of the song's rows has a non-empty group. */
  lemma GroupsNonEmpty(song: seq<Record>)
    ensures forall n :: n in Candidates(song, CountryName) ==> |Keep(song, CountryName, n)| > 0
  {
    CandidatesSpec(song, CountryName);
    forall n | n in Candidates(song, CountryName) ensures |Keep(song, CountryName, n)| > 0 {
      KeepMembers(song, CountryName, n);
      var x :| x in song && Get(x, CountryName) == Some(n);
      assert x in Keep(song, CountryName, n);
    }
  }

  /** Lines 91-98 of the script. */
  function Summarize(table: seq<Record>, track: string): seq<CountryStats>
  {
    var song := Keep(table, TrackName, track);
    GroupsNonEmpty(song);
    Seqs.SortDescBy(StatsFor(song, Candidates(song, CountryName)), WeeksKey())
  }

  /** The country names among the track's rows, missing names left out as `groupby` does. */
  ghost function CountriesOf(table: seq<Record>, track: string): set<string>
  {
    set x | x in table && x.track == Some(track) && x.countryName.Some? :: x.countryName.value
  }

  /** Whether a row is one of the track's rows in the named country. */
  predicate InGroup(x: Record, track: string, name: string)
  {
    x.track == Some(track) && x.countryName == Some(name)
  }

  /** The distinct weeks the track charted in the named country. */
  ghost function WeeksOf(table: seq<Record>, track: string, name: string): set<string>
  {
    set x | x in table && InGroup(x, track, name) :: x.week
  }

  lemma {:induction false} StatsForSpec(song: seq<Record>, names: seq<string>)
    requires forall n :: n in names ==> |Keep(song, CountryName, n)| > 0
    ensures |StatsFor(song, names)| == |names|
    ensures forall c :: c in StatsFor(song, names) <==>
              c.countryName in names && c == GroupStats(song, c.countryName)
    decreases |names|
  {
    if |names| > 0 {
      StatsForSpec(song, names[1..]);
      assert names == [names[0]] + names[1..];
    }
  }

  /** The rows of one group are exactly the track's rows in that country. */
  lemma GroupMembers(table: seq<Record>, track: string, name: string)
    ensures forall x :: x in Keep(Keep(table, TrackName, track), CountryName, name) <==>
              x in table && InGroup(x, track, name)
  {
    KeepMembers(table, TrackName, track);
    KeepMembers(Keep(table, TrackName, track), CountryName, name);
  }

  /**
   * A country's row counts the distinct weeks of the track's rows there and
   * holds the least of their rankings.
   */
  lemma GroupStatsSpec(table: seq<Record>, track: string, name: string)
    requires |Keep(Keep(table, TrackName, track), CountryName, name)| > 0
    ensures var c := GroupStats(Keep(table, TrackName, track), name);
      && c.countryName == name
      && c.weeksFeatured == |WeeksOf(table, track, name)|
      && (forall x :: x in table && InGroup(x, track, name) ==> c.bestRanking <= x.ranking)
      && (exists x :: x in table && InGroup(x, track, name) && x.ranking == c.bestRanking)
  {
    var g := Keep(Keep(table, TrackName, track), CountryName, name);
    GroupMembers(table, track, name);
    MinRankingSpec(g);
    var weeks := Candidates(g, Weeknum);
    CandidatesSpec(g, Weeknum);
    Lex.StrictlySortedCount(weeks);
    assert (set v | v in weeks) == WeeksOf(table, track, name) by {
      forall v ensures v in weeks <==> v in WeeksOf(table, track, name) {
        if v in weeks {
          var x :| x in g && Get(x, Weeknum) == Some(v);
        }
        if v in WeeksOf(table, track, name) {
          var x :| x in table && InGroup(x, track, name) && x.week == v;
          assert Get(x, Weeknum) == Some(v);
        }
      }
    }
  }

  /** The groups are named by exactly the track's country names, each once. */
  lemma GroupNames(table: seq<Record>, track: string)
    ensures var names := Candidates(Keep(table, TrackName, track), CountryName);
      && |names| == |CountriesOf(table, track)|
      && forall n :: n in names <==> n in CountriesOf(table, track)
  {
    var song := Keep(table, TrackName, track);
    var names := Candidates(song, CountryName);
    CandidatesSpec(song, CountryName);
    KeepMembers(table, TrackName, track);
    Lex.StrictlySortedCount(names);
    forall n ensures n in names <==> n in CountriesOf(table, track) {
      if n in names {
        var x :| x in song && Get(x, CountryName) == Some(n);
      }
      if n in CountriesOf(table, track) {
        var x :| x in table && x.track == Some(track) && x.countryName == Some(n);
        assert x in song;
      }
    }
    assert (set v | v in names) == CountriesOf(table, track);
  }

  /**
   * The summary has one row per country name among the track's rows of the
   * whole table, and no other row.
   */
  lemma SummaryCountries(table: seq<Record>, track: string)
    ensures |Summarize(table, track)| == |CountriesOf(table, track)|
    ensures forall n :: n in CountriesOf(table, track) <==>
              exists c :: c in Summarize(table, track) && c.countryName == n
  {
    var song := Keep(table, TrackName, track);
    var names := Candidates(song, CountryName);
    GroupsNonEmpty(song);
    var stats := StatsFor(song, names);
    StatsForSpec(song, names);
    Seqs.SortDescBySpec(stats, WeeksKey());
    var r := Summarize(table, track);
    assert |r| == |stats| by {
      assert |multiset(r)| == |multiset(stats)|;
    }
    GroupNames(table, track);
    forall n ensures n in names <==> exists c :: c in r && c.countryName == n {
      if n in names {
        var c := GroupStats(song, n);
        assert c in stats;
        assert c in multiset(r);
      }
      if exists c :: c in r && c.countryName == n {
        var c :| c in r && c.countryName == n;
        assert c in multiset(stats);
      }
    }
  }

  /**
   * Each row counts the distinct weeks the track charted in its country and
   * holds the best ranking there: at most every ranking, and reached.
   */
  lemma SummaryStats(table: seq<Record>, track: string)
    ensures forall c :: c in Summarize(table, track) ==>
              && c.countryName in CountriesOf(table, track)
              && c.weeksFeatured == |WeeksOf(table, track, c.countryName)|
              && (forall x :: x in table && InGroup(x, track, c.countryName) ==> c.bestRanking <= x.ranking)
              && (exists x :: x in table && InGroup(x, track, c.countryName) && x.ranking == c.bestRanking)
  {
    var song := Keep(table, TrackName, track);
    var names := Candidates(song, CountryName);
    GroupsNonEmpty(song);
    var stats := StatsFor(song, names);
    StatsForSpec(song, names);
    Seqs.SortDescBySpec(stats, WeeksKey());
    var r := Summarize(table, track);
    CandidatesSpec(song, CountryName);
    KeepMembers(table, TrackName, track);
    forall c | c in r
      ensures && c.countryName in CountriesOf(table, track)
              && c.weeksFeatured == |WeeksOf(table, track, c.countryName)|
              && (forall x :: x in table && InGroup(x, track, c.countryName) ==> c.bestRanking <= x.ranking)
              && (exists x :: x in table && InGroup(x, track, c.countryName) && x.ranking == c.bestRanking)
    {
      assert c in multiset(stats);
      GroupStatsSpec(table, track, c.countryName);
      var x :| x in table && InGroup(x, track, c.countryName) && x.ranking == c.bestRanking;
    }
  }

  /** The summary lists the countries where the track charted longest first. */
  lemma SummarySorted(table: seq<Record>, track: string)
    ensures forall i, j :: 0 <= i < j < |Summarize(table, track)| ==>
              Summarize(table, track)[i].weeksFeatured >= Summarize(table, track)[j].weeksFeatured
  {
    var song := Keep(table, TrackName, track);
    GroupsNonEmpty(song);
    var stats := StatsFor(song, Candidates(song, CountryName));
    Seqs.SortDescBySpec(stats, WeeksKey());
    var r := Summarize(table, track);
    forall i, j | 0 <= i < j < |r| ensures r[i].weeksFeatured >= r[j].weeksFeatured {
      assert WeeksKey()(r[i]) >= WeeksKey()(r[j]);
    }
  }
}
