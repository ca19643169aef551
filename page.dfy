/**
 * The page below the sidebar, wired as the script runs it: the top-10
 * chart reads the filtered view, while the song details (the per-country
 * summary and the popularity trend) read the whole cleaned table and are
 * shown only when a track is selected.
 */
module Page {
  import opened Wrappers
  import opened Dataset
  import opened Filters
  import opened TopN
  import opened Summary
  import opened Trend

  /** The "Selected Song Details" section. */
  datatype Details = Details(stats: seq<CountryStats>, trend: seq<Record>)

  /**
   * One run of the script after cleaning, for the sidebar choices `s` and
   * the chart metric `m`.
   */
  method Render(table: seq<Record>, s: Selection, m: Metric)
    returns (view: seq<Record>, chart: seq<Record>, details: Option<Details>)
    ensures view == Apply(table, s)
    ensures chart == Top(view, m)
    ensures forall x :: x in chart ==> x in table && Selected(x, s)
    ensures details.Some? <==> s.track != ALL
    ensures details.Some? ==> details.value.stats == Summarize(table, s.track)
    ensures details.Some? ==> details.value.trend == TrendRows(table, s.track, s.country)
    ensures details.Some? ==> |details.value.stats| == |CountriesOf(table, s.track)|
    ensures details.Some? ==>
              forall x :: multiset(details.value.trend)[x] ==
                if x.track == Some(s.track) && Admits(s.country, x.country) then multiset(table)[x] else 0
  {
    var countries, weeks, artists, tracks;
    countries, weeks, artists, tracks, view := Sidebar(table, s);
    chart := Top(view, m);
    TopRows(view, m);
    ApplySpec(table, s);
    forall x | x in chart ensures x in table && Selected(x, s) {
      var k :| 0 <= k < |chart| && chart[k] == x;
      assert x in multiset(view);
    }
    if s.track != ALL {
      var stats := Summarize(table, s.track);
      SummaryCountries(table, s.track);
      var trend := Keep(table, TrackName, s.track);
      if s.country != ALL {
        trend := Keep(trend, Country, s.country);
      }
      trend := SortByWeek(trend);
      TrendSpec(table, s.track, s.country);
      details := Some(Details(stats, trend));
    } else {
      details := None;
    }
  }
}
