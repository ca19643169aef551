/**
 * The sidebar: the option lists and the cascade of "All"-or-equal filters
 * (country, week, artist, then track) that narrows the cleaned table to
 * the view every chart is drawn from.
 */
module Filters {
  import opened Wrappers
  import opened Dataset
  import Lex
  import Seqs

  /** The option that switches a filter off. */
  const ALL := "All"

  /** The four sidebar choices, each "All" or one value of its column. */
  datatype Selection = Selection(country: string, week: string, artist: string, track: string)

  /** Whether a row holds `v` in column `f`: a missing value equals nothing. */
  predicate Has(r: Record, f: Field, v: string)
  {
    Get(r, f) == Some(v)
  }

  /** `t[t[f] == v]`. */
  function Keep(t: seq<Record>, f: Field, v: string): seq<Record>
  {
    if |t| == 0 then []
    else (if Has(t[0], f, v) then [t[0]] else []) + Keep(t[1..], f, v)
  }

  /** Keeping rows preserves their order. */
  lemma {:induction false} KeepSubseq(t: seq<Record>, f: Field, v: string)
    ensures Seqs.IsSubseq(Keep(t, f, v), t)
    decreases |t|
  {
    if |t| > 0 {
      KeepSubseq(t[1..], f, v);
      var rest := Keep(t[1..], f, v);
      if Has(t[0], f, v) {
        assert Keep(t, f, v) == [t[0]] + rest;
        assert Keep(t, f, v)[1..] == rest;
      } else {
        assert Keep(t, f, v) == rest;
      }
    }
  }

  /** How often one row `x` survives keeping the rows equal to `v`. */
  lemma {:induction false} KeepCount(t: seq<Record>, f: Field, v: string, x: Record)
    ensures multiset(Keep(t, f, v))[x] == if Has(x, f, v) then multiset(t)[x] else 0
    decreases |t|
  {
    if |t| > 0 {
      KeepCount(t[1..], f, v, x);
      var head := if Has(t[0], f, v) then [t[0]] else [];
      assert Keep(t, f, v) == head + Keep(t[1..], f, v);
      assert t == [t[0]] + t[1..];
      assert multiset(t)[x] == multiset{t[0]}[x] + multiset(t[1..])[x];
      assert multiset(Keep(t, f, v))[x] == multiset(head)[x] + multiset(Keep(t[1..], f, v))[x];
    }
  }

  /**
   * Keeping the rows equal to `v` keeps each such row as often as the
   * table holds it, drops every other row, and preserves their order.
   */
  lemma KeepSpec(t: seq<Record>, f: Field, v: string)
    ensures Seqs.IsSubseq(Keep(t, f, v), t)
    ensures forall x :: multiset(Keep(t, f, v))[x] == if Has(x, f, v) then multiset(t)[x] else 0
  {
    KeepSubseq(t, f, v);
    forall x ensures multiset(Keep(t, f, v))[x] == if Has(x, f, v) then multiset(t)[x] else 0 {
      KeepCount(t, f, v, x);
    }
  }

  lemma KeepMembers(t: seq<Record>, f: Field, v: string)
    ensures forall x :: x in Keep(t, f, v) <==> x in t && Get(x, f) == Some(v)
  {
    KeepSpec(t, f, v);
    forall x ensures x in Keep(t, f, v) <==> x in t && Get(x, f) == Some(v) {
      assert x in Keep(t, f, v) <==> x in multiset(Keep(t, f, v));
      assert x in t <==> x in multiset(t);
    }
  }

  /** One guarded step of the cascade: `if sel != "All": view = view[view[f] == sel]`. */
  function Where(t: seq<Record>, f: Field, sel: string): seq<Record>
  {
    if sel == ALL then t else Keep(t, f, sel)
  }

  /** "All" leaves the view as it is; any other choice keeps exactly the rows equal to it. */
  lemma WhereSpec(t: seq<Record>, f: Field, sel: string)
    ensures sel == ALL ==> Where(t, f, sel) == t
    ensures Seqs.IsSubseq(Where(t, f, sel), t)
    ensures sel != ALL ==> forall x :: multiset(Where(t, f, sel))[x] ==
                                       if Get(x, f) == Some(sel) then multiset(t)[x] else 0
  {
    if sel == ALL {
      Seqs.IsSubseqReflexive(t);
    } else {
      KeepSpec(t, f, sel);
    }
  }

  /** The view after the country, week and artist filters: the track list is drawn from it. */
  function Narrowed(t: seq<Record>, s: Selection): seq<Record>
  {
    Where(Where(Where(t, Country, s.country), Weeknum, s.week), ArtistName, s.artist)
  }

  /** `filtered_df` once all four filters have run. */
  function Apply(t: seq<Record>, s: Selection): seq<Record>
  {
    Where(Narrowed(t, s), TrackName, s.track)
  }

  /** Whether one choice lets a value through. */
  predicate Admits(sel: string, value: Option<string>)
  {
    sel == ALL || value == Some(sel)
  }

  /** Whether a row passes all four choices at once. */
  predicate Selected(r: Record, s: Selection)
  {
    Admits(s.country, r.country) && Admits(s.week, Some(r.week)) &&
    Admits(s.artist, r.artist) && Admits(s.track, r.track)
  }

  /** The rows that pass all four choices, by a single pass over the table. */
  function Matching(t: seq<Record>, s: Selection): seq<Record>
  {
    if |t| == 0 then []
    else (if Selected(t[0], s) then [t[0]] else []) + Matching(t[1..], s)
  }

  /** One filter step over a view that is `x` (when `c`) followed by `r`. */
  lemma WhereStage(x: Record, w: seq<Record>, r: seq<Record>, c: bool, f: Field, sel: string)
    requires w == (if c then [x] else []) + r
    ensures Where(w, f, sel) == (if c && Admits(sel, Get(x, f)) then [x] else []) + Where(r, f, sel)
  {
    if c {
      assert w[1..] == r;
    } else {
      assert w == r;
    }
  }

  /**
   * The cascade is one conjunction of its four tests: the order of the
   * filters does not change the final view.
   */
  lemma {:induction false} ApplyIsMatching(t: seq<Record>, s: Selection)
    ensures Apply(t, s) == Matching(t, s)
    decreases |t|
  {
    if |t| > 0 {
      var x, rest := t[0], t[1..];
      assert t == [x] + rest;
      ApplyIsMatching(rest, s);
      var r1 := Where(rest, Country, s.country);
      var r2 := Where(r1, Weeknum, s.week);
      var r3 := Where(r2, ArtistName, s.artist);
      WhereStage(x, t, rest, true, Country, s.country);
      var c1 := Admits(s.country, Get(x, Country));
      WhereStage(x, Where(t, Country, s.country), r1, c1, Weeknum, s.week);
      var c2 := c1 && Admits(s.week, Get(x, Weeknum));
      WhereStage(x, Where(Where(t, Country, s.country), Weeknum, s.week), r2, c2, ArtistName, s.artist);
      var c3 := c2 && Admits(s.artist, Get(x, ArtistName));
      WhereStage(x, Narrowed(t, s), r3, c3, TrackName, s.track);
      assert Matching(t, s) == (if Selected(x, s) then [x] else []) + Matching(rest, s);
    }
  }

  lemma {:induction false} MatchingSubseq(t: seq<Record>, s: Selection)
    ensures Seqs.IsSubseq(Matching(t, s), t)
    decreases |t|
  {
    if |t| > 0 {
      MatchingSubseq(t[1..], s);
      var rest := Matching(t[1..], s);
      if Selected(t[0], s) {
        assert Matching(t, s) == [t[0]] + rest;
        assert Matching(t, s)[1..] == rest;
      } else {
        assert Matching(t, s) == rest;
      }
    }
  }

  lemma {:induction false} MatchingSpec(t: seq<Record>, s: Selection)
    ensures Seqs.IsSubseq(Matching(t, s), t)
    ensures forall x :: multiset(Matching(t, s))[x] == if Selected(x, s) then multiset(t)[x] else 0
    ensures forall x :: x in Matching(t, s) ==> Selected(x, s)
    decreases |t|
  {
    MatchingSubseq(t, s);
    if |t| > 0 {
      MatchingSpec(t[1..], s);
      var rest := Matching(t[1..], s);
      var head := if Selected(t[0], s) then [t[0]] else [];
      assert Matching(t, s) == head + rest;
      assert t == [t[0]] + t[1..];
      assert multiset(t) == multiset{t[0]} + multiset(t[1..]);
      assert multiset(Matching(t, s)) == multiset(head) + multiset(rest);
    }
  }

  /** A table whose every row passes the choices is left unchanged by them. */
  lemma {:induction false} MatchingAllSelected(t: seq<Record>, s: Selection)
    requires forall x :: x in t ==> Selected(x, s)
    ensures Matching(t, s) == t
    decreases |t|
  {
    if |t| > 0 {
      MatchingAllSelected(t[1..], s);
      assert t == [t[0]] + t[1..];
    }
  }

  /**
   * The filtered view is an order-preserving subsequence of the table that
   * holds each row passing every choice as often as the table does, and no
   * other row.
   */
  lemma ApplySpec(t: seq<Record>, s: Selection)
    ensures Seqs.IsSubseq(Apply(t, s), t)
    ensures forall x :: multiset(Apply(t, s))[x] == if Selected(x, s) then multiset(t)[x] else 0
  {
    ApplyIsMatching(t, s);
    MatchingSpec(t, s);
  }

  /** Filtering the filtered view again with the same choices changes nothing. */
  lemma ApplyIdempotent(t: seq<Record>, s: Selection)
    ensures Apply(Apply(t, s), s) == Apply(t, s)
  {
    ApplyIsMatching(t, s);
    MatchingSpec(t, s);
    ApplyIsMatching(Apply(t, s), s);
    MatchingAllSelected(Apply(t, s), s);
  }

  /** The present values of one column, in table order (`t[f].dropna()`). */
  function Values(t: seq<Record>, f: Field): seq<string>
  {
    if |t| == 0 then []
    else (if Get(t[0], f).Some? then [Get(t[0], f).value] else []) + Values(t[1..], f)
  }

  lemma {:induction false} ValuesSpec(t: seq<Record>, f: Field)
    ensures forall v :: v in Values(t, f) <==> exists x :: x in t && Get(x, f) == Some(v)
    decreases |t|
  {
    if |t| > 0 {
      ValuesSpec(t[1..], f);
      assert t == [t[0]] + t[1..];
      forall v ensures v in Values(t, f) <==> exists x :: x in t && Get(x, f) == Some(v) {
        if v in Values(t, f) && Get(t[0], f) != Some(v) {
          assert v in Values(t[1..], f);
        }
        if exists x :: x in t && Get(x, f) == Some(v) {
          var x :| x in t && Get(x, f) == Some(v);
          if x != t[0] {
            assert x in t[1..];
          }
        }
      }
    }
  }

  /** `sorted(t[f].dropna().unique())`: the options a sidebar list offers after "All". */
  function Candidates(t: seq<Record>, f: Field): seq<string>
  {
    Lex.SortedUnique(Values(t, f))
  }

  /**
   * An option list is in ascending string order without repeats and holds
   * exactly the values present in the table it is drawn from; a missing
   * value is never offered.
   */
  lemma CandidatesSpec(t: seq<Record>, f: Field)
    ensures Lex.StrictlySorted(Candidates(t, f))
    ensures forall v :: v in Candidates(t, f) <==> exists x :: x in t && Get(x, f) == Some(v)
  {
    Lex.SortedUniqueSpec(Values(t, f));
    ValuesSpec(t, f);
  }

  /**
   * Any track the sidebar offers leads to a non-empty view: the track list
   * is drawn from the view the track filter is applied to.
   */
  lemma TrackChoiceNonEmpty(t: seq<Record>, s: Selection)
    requires s.track in Candidates(Narrowed(t, s), TrackName)
    ensures |Apply(t, s)| > 0
  {
    var n := Narrowed(t, s);
    CandidatesSpec(n, TrackName);
    var x :| x in n && x.track == Some(s.track);
    if s.track != ALL {
      KeepMembers(n, TrackName, s.track);
      assert x in Apply(t, s);
    }
  }

  /**
   * Lines 18-45 of the script: the country, week and artist lists come from
   * the whole table, the track list from the view the first three filters
   * leave, and the filters run in the order country, week, artist, track.
   */
  method Sidebar(table: seq<Record>, s: Selection)
    returns (countries: seq<string>, weeks: seq<string>, artists: seq<string>,
             tracks: seq<string>, view: seq<Record>)
    ensures countries == Candidates(table, Country)
    ensures weeks == Candidates(table, Weeknum)
    ensures artists == Candidates(table, ArtistName)
    ensures tracks == Candidates(Narrowed(table, s), TrackName)
    ensures view == Apply(table, s)
  {
    countries := Candidates(table, Country);
    weeks := Candidates(table, Weeknum);
    artists := Candidates(table, ArtistName);
    view := table;
    if s.country != ALL {
      view := Keep(view, Country, s.country);
    }
    if s.week != ALL {
      view := Keep(view, Weeknum, s.week);
    }
    if s.artist != ALL {
      view := Keep(view, ArtistName, s.artist);
    }
    tracks := Candidates(view, TrackName);
    if s.track != ALL {
      view := Keep(view, TrackName, s.track);
    }
  }
}
