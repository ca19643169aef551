/** Two small tables worked through the summary and the trend. */
module Scenarios {
  import opened Wrappers
  import opened Dataset
  import opened Summary
  import opened Trend
  import Filters

  /** A row of track "A" by artist "B"; the country code doubles as its name. */
  function SampleRow(country: string, week: string, ranking: int): Record
  {
    Record(Some(country), Some(country), week, Some("B"), Some("A"), ranking, Features(0, 0, 0, 0, 0, 0))
  }

  function SampleTable(): seq<Record>
  {
    [SampleRow("US", "1", 3), SampleRow("US", "2", 5), SampleRow("UK", "1", 1)]
  }

  lemma SampleSong()
    ensures Filters.Keep(SampleTable(), TrackName, "A") == SampleTable()
  {
  }

  lemma SampleCountries()
    ensures Filters.Candidates(SampleTable(), CountryName) == ["UK", "US"]
  {
  }

  lemma SampleGroups()
    ensures GroupStats(SampleTable(), "US") == CountryStats("US", 2, 3)
    ensures GroupStats(SampleTable(), "UK") == CountryStats("UK", 1, 1)
  {
    assert Filters.Keep(SampleTable(), CountryName, "US") == [SampleRow("US", "1", 3), SampleRow("US", "2", 5)];
    assert Filters.Candidates([SampleRow("US", "1", 3), SampleRow("US", "2", 5)], Weeknum) == ["1", "2"];
  }

  /**
   * Track "A" charted in "US" at rank 3 in week "1" and rank 5 in week "2",
   * and in "UK" at rank 1 in week "1": two weeks and best rank 3 for the US,
   * one week and best rank 1 for the UK, the US first.
   */
  lemma SummaryExample()
    ensures Summarize(SampleTable(), "A") == [CountryStats("US", 2, 3), CountryStats("UK", 1, 1)]
  {
    SampleSong();
    SampleCountries();
    SampleGroups();
    assert StatsFor(SampleTable(), ["UK", "US"]) == [CountryStats("UK", 1, 1), CountryStats("US", 2, 3)];
  }

  /** Weeks "2", "10" and "1" come out as "1", "10", "2". */
  lemma TrendExample()
    ensures var r := TrendRows([SampleRow("US", "2", 3), SampleRow("US", "10", 5), SampleRow("US", "1", 1)], "A", "All");
      |r| == 3 && r[0].week == "1" && r[1].week == "10" && r[2].week == "2"
  {
  }
}
