/**
 * The chart dataset and its one-time cleaning: columns whose name contains
 * "Unnamed" (index columns left by an earlier CSV export) are dropped, rows
 * without a week are dropped, and the week becomes text.
 */
module Dataset {
  import opened Wrappers
  import Seqs

  /** The numeric columns the top-10 chart can rank by. */
  datatype Features = Features(
    popularity: int,
    danceability: int,
    energy: int,
    acousticness: int,
    instrumentalness: int,
    positiveness: int)

  /** A row as read from the file: any text field, the week included, may be missing. */
  datatype RawRow = RawRow(
    country: Option<string>,
    countryName: Option<string>,
    week: Option<string>,
    artist: Option<string>,
    track: Option<string>,
    ranking: int,
    features: Features)

  /** A row of the cleaned table: the week is always present. */
  datatype Record = Record(
    country: Option<string>,
    countryName: Option<string>,
    week: string,
    artist: Option<string>,
    track: Option<string>,
    ranking: int,
    features: Features)

  /** The text columns the dashboard filters and groups on. */
  datatype Field = Country | CountryName | Weeknum | ArtistName | TrackName

  function Get(r: Record, f: Field): Option<string>
  {
    match f
    case Country => r.country
    case CountryName => r.countryName
    case Weeknum => Some(r.week)
    case ArtistName => r.artist
    case TrackName => r.track
  }

  const ARTIFACT_MARK := "Unnamed"

  /** Python's `p in s` on strings: `p` occurs somewhere in `s`. */
  predicate Occurs(p: string, s: string)
    decreases |s|
  {
    p <= s || (|s| > 0 && Occurs(p, s[1..]))
  }

  lemma {:induction false} OccursSpec(p: string, s: string)
    ensures Occurs(p, s) <==> exists i :: 0 <= i <= |s| && p <= s[i..]
    decreases |s|
  {
    if |s| > 0 {
      OccursSpec(p, s[1..]);
      forall i | 1 <= i <= |s| ensures s[i..] == s[1..][i - 1..] { }
      if Occurs(p, s[1..]) {
        var i :| 0 <= i <= |s[1..]| && p <= s[1..][i..];
        assert s[1..][i..] == s[i + 1..];
      }
      assert s == s[0..];
    } else {
      assert s == s[0..];
    }
  }

  /** The header after `df.drop(columns=[c for c in df.columns if 'Unnamed' in c])`. */
  function KeptColumns(header: seq<string>): seq<string>
  {
    if |header| == 0 then []
    else (if Occurs(ARTIFACT_MARK, header[0]) then [] else [header[0]]) + KeptColumns(header[1..])
  }

  lemma {:induction false} KeptColumnsSpec(header: seq<string>)
    ensures Seqs.IsSubseq(KeptColumns(header), header)
    ensures forall c :: c in KeptColumns(header) <==> c in header && !Occurs(ARTIFACT_MARK, c)
    decreases |header|
  {
    if |header| > 0 {
      KeptColumnsSpec(header[1..]);
      var rest := KeptColumns(header[1..]);
      if Occurs(ARTIFACT_MARK, header[0]) {
        assert KeptColumns(header) == rest;
      } else {
        assert KeptColumns(header) == [header[0]] + rest;
        assert KeptColumns(header)[1..] == rest;
      }
      assert header == [header[0]] + header[1..];
    }
  }

  function ToRecord(x: RawRow): Record
    requires x.week.Some?
  {
    Record(x.country, x.countryName, x.week.value, x.artist, x.track, x.ranking, x.features)
  }

  /** The inverse of `ToRecord`: the row the record was read as. */
  function Restore(r: Record): RawRow
  {
    RawRow(r.country, r.countryName, Some(r.week), r.artist, r.track, r.ranking, r.features)
  }

  function RestoreAll(t: seq<Record>): seq<RawRow>
  {
    if |t| == 0 then [] else [Restore(t[0])] + RestoreAll(t[1..])
  }

  /** `df[df['Weeknum'].notna()]` with the week turned into text. */
  function CleanRows(raw: seq<RawRow>): seq<Record>
  {
    if |raw| == 0 then []
    else (if raw[0].week.Some? then [ToRecord(raw[0])] else []) + CleanRows(raw[1..])
  }

  /** One step of cleaning, read back as raw rows. */
  lemma CleanRowsCons(raw: seq<RawRow>)
    requires |raw| > 0
    ensures RestoreAll(CleanRows(raw)) ==
            (if raw[0].week.Some? then [raw[0]] else []) + RestoreAll(CleanRows(raw[1..]))
  {
    var rest := CleanRows(raw[1..]);
    if raw[0].week.Some? {
      var t := [ToRecord(raw[0])] + rest;
      assert CleanRows(raw) == t;
      assert t[1..] == rest;
      assert RestoreAll(t) == [Restore(t[0])] + RestoreAll(rest);
    } else {
      assert CleanRows(raw) == rest;
    }
  }

  lemma {:induction false} CleanRowsSubseq(raw: seq<RawRow>)
    ensures Seqs.IsSubseq(RestoreAll(CleanRows(raw)), raw)
    decreases |raw|
  {
    if |raw| > 0 {
      CleanRowsSubseq(raw[1..]);
      CleanRowsCons(raw);
      var rest := RestoreAll(CleanRows(raw[1..]));
      var d := RestoreAll(CleanRows(raw));
      if raw[0].week.Some? {
        assert d == [raw[0]] + rest;
        assert d[0] == raw[0] && d[1..] == rest;
      } else {
        assert d == rest;
      }
    }
  }

  lemma {:induction false} RestoreAllLength(t: seq<Record>)
    ensures |RestoreAll(t)| == |t|
    decreases |t|
  {
    if |t| > 0 {
      RestoreAllLength(t[1..]);
    }
  }

  /**
   * The cleaned table is the raw rows that have a week, in their order,
   * each one once for every time it occurs; no other row survives.
   */
  lemma {:induction false} CleanRowsSpec(raw: seq<RawRow>)
    ensures |RestoreAll(CleanRows(raw))| == |CleanRows(raw)|
    ensures Seqs.IsSubseq(RestoreAll(CleanRows(raw)), raw)
    ensures forall x :: multiset(RestoreAll(CleanRows(raw)))[x] ==
                        if x.week.Some? then multiset(raw)[x] else 0
    decreases |raw|
  {
    RestoreAllLength(CleanRows(raw));
    CleanRowsSubseq(raw);
    if |raw| > 0 {
      CleanRowsSpec(raw[1..]);
      CleanRowsCons(raw);
      var rest := RestoreAll(CleanRows(raw[1..]));
      var head := if raw[0].week.Some? then [raw[0]] else [];
      assert raw == [raw[0]] + raw[1..];
      assert multiset(raw) == multiset{raw[0]} + multiset(raw[1..]);
      assert multiset(RestoreAll(CleanRows(raw))) == multiset(head) + multiset(rest);
    }
  }

  /** Lines 9-11 of the script: drop the artifact columns, then the rows without a week. */
  method Clean(header: seq<string>, raw: seq<RawRow>) returns (columns: seq<string>, table: seq<Record>)
    ensures columns == KeptColumns(header)
    ensures table == CleanRows(raw)
  {
    columns := [];
    var i := 0;
    while i < |header|
      invariant 0 <= i <= |header|
      invariant columns + KeptColumns(header[i..]) == KeptColumns(header)
    {
      assert header[i..] == [header[i]] + header[i + 1..];
      if !Occurs(ARTIFACT_MARK, header[i]) {
        columns := columns + [header[i]];
      }
      i := i + 1;
    }
    table := [];
    var k := 0;
    while k < |raw|
      invariant 0 <= k <= |raw|
      invariant table + CleanRows(raw[k..]) == CleanRows(raw)
    {
      assert raw[k..] == [raw[k]] + raw[k + 1..];
      if raw[k].week.Some? {
        table := table + [ToRecord(raw[k])];
      }
      k := k + 1;
    }
  }
}
