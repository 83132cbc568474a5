/**
 * The assembler (the end of `main`): join every game to its venue and the
 * venue's coordinates, build the text shown on the map, sort by date, keep
 * latitude, longitude and text, and drop exact duplicate rows.
 */
module Assembler {
  import opened Wrappers
  import opened Text
  import opened Tables
  import opened Resolver
  import opened Scraper
  import opened Geocoder

  /** A game row after the joins, reduced to the sort key and the three output columns. */
  datatype Enriched = Enriched(date: string, latitude: Option<Degree>, longitude: Option<Degree>, info: string)

  /** One row of the output file: columns latitude, longitude, info. */
  datatype OutRow = OutRow(latitude: Option<Degree>, longitude: Option<Degree>, info: string)

  /** The text shown for a game: "<home> vs. <away> (<home score>-<away score>) <date>". */
  function Info(g: Game): string
  {
    g.homeTeam + " vs. " + g.awayTeam + " " + "(" + IntToString(g.homeScore) + "-" + IntToString(g.awayScore) + ") " + g.date
  }

  /** The text before the scores: "<home> vs. <away> (". */
  function InfoHead(g: Game): string
  {
    g.homeTeam + " vs. " + g.awayTeam + " ("
  }

  /** Where the parts of `head + x + "-" + y + tail` sit, for a digit string `x`. */
  lemma FieldsAroundDash(head: string, x: string, y: string, tail: string)
    requires forall i :: 0 <= i < |x| ==> '0' <= x[i] <= '9'
    ensures head <= head + x + "-" + y + tail
    ensures (head + x + "-" + y + tail)[|head| + |x|] == '-'
    ensures forall j :: |head| <= j < |head| + |x| ==> (head + x + "-" + y + tail)[j] != '-'
    ensures (head + x + "-" + y + tail)[|head|..|head| + |x|] == x
    ensures (head + x + "-" + y + tail)[|head| + |x| + 1..|head| + |x| + 1 + |y|] == y
    ensures (head + x + "-" + y + tail)[|head| + |x| + 1 + |y|..] == tail
  {
    var s := head + x + "-" + y + tail;
    assert s[..|head|] == head;
    assert s[|head|..|head| + |x|] == x;
    assert s[|head| + |x| + 1..|head| + |x| + 1 + |y|] == y;
    assert s[|head| + |x| + 1 + |y|..] == tail;
  }

  /**
   * Reading a game's text back: after the head come the home score's digits,
   * ending at the first `-` after the head, then the away score's digits,
   * then ") " and the date. Each digit run parses back to its score.
   */
  lemma InfoScoresReadBack(g: Game)
    requires g.homeScore >= 0 && g.awayScore >= 0
    ensures InfoHead(g) <= Info(g)
    ensures |InfoHead(g)| + |NatToString(g.homeScore)| + |NatToString(g.awayScore)| + 3 + |g.date| == |Info(g)|
    ensures Info(g)[|InfoHead(g)| + |NatToString(g.homeScore)|] == '-'
    ensures forall j :: |InfoHead(g)| <= j < |InfoHead(g)| + |NatToString(g.homeScore)| ==> Info(g)[j] != '-'
    ensures ParseInt(Info(g)[|InfoHead(g)|..|InfoHead(g)| + |NatToString(g.homeScore)|]) == g.homeScore
    ensures ParseInt(Info(g)[|InfoHead(g)| + |NatToString(g.homeScore)| + 1..|Info(g)| - |g.date| - 2]) == g.awayScore
    ensures Info(g)[|Info(g)| - |g.date| - 2..] == ") " + g.date
  {
    var home, away := NatToString(g.homeScore), NatToString(g.awayScore);
    InfoAroundScores(g);
    assert Info(g) == InfoHead(g) + home + "-" + away + (") " + g.date);
    FieldsAroundDash(InfoHead(g), home, away, ") " + g.date);
    IntToStringRoundTrip(g.homeScore);
    IntToStringRoundTrip(g.awayScore);
  }

  /** In `x + "-" + y` with `x` made of digits, no `-` comes before position `|x|`. */
  lemma DashAfterDigits(x: string, y: string)
    requires forall i :: 0 <= i < |x| ==> '0' <= x[i] <= '9'
    ensures (x + "-" + y)[|x|] == '-'
    ensures forall i :: 0 <= i < |x| ==> (x + "-" + y)[i] != '-'
  {
  }

  /** In `x + "-" + y` with `x` made of digits, the first `-` is right after `x`. */
  lemma {:induction false} DashSplitsDigits(x: string, y: string, u: string, v: string)
    requires forall i :: 0 <= i < |x| ==> '0' <= x[i] <= '9'
    requires forall i :: 0 <= i < |u| ==> '0' <= u[i] <= '9'
    requires x + "-" + y == u + "-" + v
    ensures x == u && y == v
  {
    var s := x + "-" + y;
    DashAfterDigits(x, y);
    DashAfterDigits(u, v);
    assert |x| == |u|;
    assert x == s[..|x|] == u;
    assert y == s[|x| + 1..] == v;
  }

  /** Equal strings with a common prefix and suffix have equal middles. */
  lemma StripAffixes(head: string, m1: string, m2: string, tail: string)
    requires head + m1 + tail == head + m2 + tail
    ensures m1 == m2
  {
    var s := head + m1 + tail;
    assert m1 == s[|head|..|s| - |tail|];
    assert m2 == (head + m2 + tail)[|head|..|s| - |tail|];
  }

  /** The score part of a game's text. */
  function ScoreText(g: Game): string
  {
    IntToString(g.homeScore) + "-" + IntToString(g.awayScore)
  }

  lemma InfoAroundScores(g: Game)
    ensures Info(g) == InfoHead(g) + ScoreText(g) + (") " + g.date)
  {
  }

  /**
   * Two games between the same teams on the same date get the same text
   * exactly when their scores agree, so a double-header with different
   * scores stays two rows after the duplicate rows are dropped.
   */
  lemma InfoDistinguishesScores(g1: Game, g2: Game)
    requires g1.homeTeam == g2.homeTeam && g1.awayTeam == g2.awayTeam && g1.date == g2.date
    requires g1.homeScore >= 0 && g1.awayScore >= 0 && g2.homeScore >= 0 && g2.awayScore >= 0
    ensures Info(g1) == Info(g2) <==> g1.homeScore == g2.homeScore && g1.awayScore == g2.awayScore
  {
    if Info(g1) == Info(g2) {
      InfoAroundScores(g1);
      InfoAroundScores(g2);
      StripAffixes(InfoHead(g1), ScoreText(g1), ScoreText(g2), ") " + g1.date);
      DashSplitsDigits(NatToString(g1.homeScore), NatToString(g1.awayScore),
                       NatToString(g2.homeScore), NatToString(g2.awayScore));
      IntToStringRoundTrip(g1.homeScore);
      IntToStringRoundTrip(g1.awayScore);
      IntToStringRoundTrip(g2.homeScore);
      IntToStringRoundTrip(g2.awayScore);
    }
  }

  /** `Series.map(dict)` on one value: a missing key gives a missing value. */
  function Lookup<K, V>(m: map<K, V>, k: K): Option<V>
  {
    if k in m then Some(m[k]) else None
  }

  /** The game's venue: its recomputed key looked up in the venue dictionary. */
  function GameLocation(g: Game, locationDict: map<string, Option<string>>): Option<string>
  {
    match Lookup(locationDict, VenueKey(g.homeTeam, g.neutralSite))
    case None => None
    case Some(location) => location
  }

  /** The game's coordinates: its venue looked up in the coordinate table. */
  function GameCoord(g: Game, locationDict: map<string, Option<string>>, coords: map<Option<string>, Coord>): Option<Coord>
  {
    Lookup(coords, GameLocation(g, locationDict))
  }

  function Enrich(g: Game, locationDict: map<string, Option<string>>, coords: map<Option<string>, Coord>): Enriched
  {
    var c := GameCoord(g, locationDict, coords);
    Enriched(g.date,
             if c.Some? then Some(c.value.latitude) else None,
             if c.Some? then Some(c.value.longitude) else None,
             Info(g))
  }

  /** Selecting the columns latitude, longitude and info. */
  function Project(e: Enriched): OutRow
  {
    OutRow(e.latitude, e.longitude, e.info)
  }

  /** Rows in non-decreasing order of their date strings. */
  predicate SortedByDate(rows: seq<Enriched>)
  {
    forall i, j :: 0 <= i < j < |rows| ==> StrLe(rows[i].date, rows[j].date)
  }

  function InsertByDate(e: Enriched, rows: seq<Enriched>): seq<Enriched>
  {
    if |rows| == 0 then [e]
    else if StrLe(e.date, rows[0].date) then [e] + rows
    else [rows[0]] + InsertByDate(e, rows[1..])
  }

  /**
   * `sort_values(by='date')`. pandas' default sort is not stable; the
   * contracts below promise only order and permutation, nothing about how
   * rows with equal dates are arranged.
   */
  function SortByDate(rows: seq<Enriched>): seq<Enriched>
  {
    if |rows| == 0 then [] else InsertByDate(rows[0], SortByDate(rows[1..]))
  }

  lemma {:induction false} InsertByDatePermutes(e: Enriched, rows: seq<Enriched>)
    ensures multiset(InsertByDate(e, rows)) == multiset(rows) + multiset{e}
  {
    if |rows| > 0 && !StrLe(e.date, rows[0].date) {
      InsertByDatePermutes(e, rows[1..]);
      assert rows == [rows[0]] + rows[1..];
    }
  }

  /** A row no later than every row of a sorted table can go in front of it. */
  lemma ConsSorted(x: Enriched, rows: seq<Enriched>)
    requires SortedByDate(rows)
    requires forall j :: 0 <= j < |rows| ==> StrLe(x.date, rows[j].date)
    ensures SortedByDate([x] + rows)
  {
    var r := [x] + rows;
    forall i, j | 0 <= i < j < |r| ensures StrLe(r[i].date, r[j].date) {
      assert r[j] == rows[j - 1];
      if i > 0 {
        assert r[i] == rows[i - 1];
      }
    }
  }

  lemma {:induction false} InsertByDateSorted(e: Enriched, rows: seq<Enriched>)
    requires SortedByDate(rows)
    ensures SortedByDate(InsertByDate(e, rows))
  {
    if |rows| > 0 {
      if StrLe(e.date, rows[0].date) {
        forall j | 0 <= j < |rows| ensures StrLe(e.date, rows[j].date) {
          if j > 0 {
            StrLeTransitive(e.date, rows[0].date, rows[j].date);
          }
        }
        ConsSorted(e, rows);
      } else {
        StrLeTotal(e.date, rows[0].date);
        var tail := InsertByDate(e, rows[1..]);
        InsertByDateSorted(e, rows[1..]);
        InsertByDatePermutes(e, rows[1..]);
        forall j | 0 <= j < |tail| ensures StrLe(rows[0].date, tail[j].date) {
          assert tail[j] in multiset(rows[1..]) + multiset{e};
          if tail[j] != e {
            assert tail[j] in rows[1..];
          }
        }
        ConsSorted(rows[0], tail);
      }
    }
  }

  /** The sort returns the rows it was given. */
  lemma {:induction false} SortByDatePermutes(rows: seq<Enriched>)
    ensures multiset(SortByDate(rows)) == multiset(rows)
  {
    if |rows| > 0 {
      SortByDatePermutes(rows[1..]);
      InsertByDatePermutes(rows[0], SortByDate(rows[1..]));
      assert rows == [rows[0]] + rows[1..];
    }
  }

  /** The sort orders the rows by date. */
  lemma {:induction false} SortByDateSorted(rows: seq<Enriched>)
    ensures SortedByDate(SortByDate(rows))
  {
    if |rows| > 0 {
      SortByDateSorted(rows[1..]);
      InsertByDateSorted(rows[0], SortByDate(rows[1..]));
    }
  }

  function EnrichAll(games: seq<Game>, locationDict: map<string, Option<string>>, coords: map<Option<string>, Coord>): seq<Enriched>
  {
    MapSeq(games, g => Enrich(g, locationDict, coords))
  }

  /** `data.sort_values(by='date')[['latitude', 'longitude', 'info']].drop_duplicates()`. */
  function Assemble(games: seq<Game>, locationDict: map<string, Option<string>>, coords: map<Option<string>, Coord>): seq<OutRow>
  {
    DropDuplicates(MapSeq(SortByDate(EnrichAll(games, locationDict, coords)), Project), Identity)
  }

  /** `row` is the output row of some game. */
  ghost predicate FromSomeGame(games: seq<Game>, locationDict: map<string, Option<string>>,
                               coords: map<Option<string>, Coord>, row: OutRow)
  {
    exists g :: g in games && row == Project(Enrich(g, locationDict, coords))
  }

  /** Every output row is the projection of some game. */
  lemma AssembleRowsFromGames(games: seq<Game>, locationDict: map<string, Option<string>>, coords: map<Option<string>, Coord>)
    ensures forall i :: 0 <= i < |Assemble(games, locationDict, coords)| ==>
              FromSomeGame(games, locationDict, coords, Assemble(games, locationDict, coords)[i])
  {
    var enriched := EnrichAll(games, locationDict, coords);
    var sorted := SortByDate(enriched);
    var projected := MapSeq(sorted, Project);
    var out := Assemble(games, locationDict, coords);
    SortByDatePermutes(enriched);
    DropDuplicatesSubset(projected, Identity);
    forall i | 0 <= i < |out| ensures FromSomeGame(games, locationDict, coords, out[i]) {
      var k :| 0 <= k < |projected| && projected[k] == out[i];
      assert sorted[k] in multiset(enriched);
      var m :| 0 <= m < |enriched| && enriched[m] == sorted[k];
      assert games[m] in games;
    }
  }

  /** Where a row ends up after the sort. */
  lemma SortedPosition(rows: seq<Enriched>, m: nat) returns (k: nat)
    requires m < |rows|
    ensures k < |SortByDate(rows)| && SortByDate(rows)[k] == rows[m]
  {
    SortByDatePermutes(rows);
    assert rows[m] in multiset(SortByDate(rows));
    k :| 0 <= k < |SortByDate(rows)| && SortByDate(rows)[k] == rows[m];
  }

  /** Every game's projection appears in the output: nothing is filtered out. */
  lemma AssembleCoversGames(games: seq<Game>, locationDict: map<string, Option<string>>, coords: map<Option<string>, Coord>)
    ensures forall g :: g in games ==> Project(Enrich(g, locationDict, coords)) in Assemble(games, locationDict, coords)
  {
    var enriched := EnrichAll(games, locationDict, coords);
    var sorted := SortByDate(enriched);
    var projected := MapSeq(sorted, Project);
    var out := Assemble(games, locationDict, coords);
    DropDuplicatesCovers(projected, Identity);
    forall g | g in games ensures Project(Enrich(g, locationDict, coords)) in out {
      var m :| 0 <= m < |games| && games[m] == g;
      var k := SortedPosition(enriched, m);
      assert HasKey(out, Identity, projected[k]);
    }
  }

  /** No two output rows are equal. */
  lemma AssembleDistinct(games: seq<Game>, locationDict: map<string, Option<string>>, coords: map<Option<string>, Coord>)
    ensures forall i, j :: 0 <= i < j < |Assemble(games, locationDict, coords)| ==>
              Assemble(games, locationDict, coords)[i] != Assemble(games, locationDict, coords)[j]
  {
    DropDuplicatesDistinct(MapSeq(SortByDate(EnrichAll(games, locationDict, coords)), Project), Identity);
  }

  /**
   * The output is the projection of a subsequence of the date-sorted games,
   * so its rows appear in non-decreasing date order.
   */
  lemma AssembleOrdered(games: seq<Game>, locationDict: map<string, Option<string>>, coords: map<Option<string>, Coord>)
    ensures Assemble(games, locationDict, coords) ==
              MapSeq(DropDuplicates(SortByDate(EnrichAll(games, locationDict, coords)), Project), Project)
    ensures SortedByDate(DropDuplicates(SortByDate(EnrichAll(games, locationDict, coords)), Project))
  {
    var sorted := SortByDate(EnrichAll(games, locationDict, coords));
    DropDuplicatesAfterMap(sorted, Project);
    SortByDateSorted(EnrichAll(games, locationDict, coords));
    var le := (a: Enriched, b: Enriched) => StrLe(a.date, b.date);
    DropDuplicatesPreservesOrder(sorted, Project, le);
  }

  /** A game whose venue or coordinates are unknown stays in the output, with no latitude and longitude. */
  lemma AssembleKeepsUnresolved(games: seq<Game>, locationDict: map<string, Option<string>>,
                                coords: map<Option<string>, Coord>, g: Game)
    requires g in games
    requires GameCoord(g, locationDict, coords).None?
    ensures OutRow(None, None, Info(g)) in Assemble(games, locationDict, coords)
  {
    AssembleCoversGames(games, locationDict, coords);
  }

  /** The whole pipeline for one season's games, given the two oracles. */
  function Season(games: seq<Game>, fetch: string -> Option<string>, geocode: Option<string> -> Option<Coord>): seq<OutRow>
  {
    var sites := PrepareLocations(games);
    Assemble(games, LocationDict(sites, fetch), CoordTable(SiteLocations(sites, fetch), geocode))
  }

  /** `main` after reading the input file: resolve, scrape, geocode, assemble. */
  method ProcessSeason(games: seq<Game>, fetch: string -> Option<string>, geocode: Option<string> -> Option<Coord>)
    returns (out: seq<OutRow>)
    ensures out == Season(games, fetch, geocode)
    ensures forall g :: g in games ==> exists i :: 0 <= i < |out| && out[i].info == Info(g)
    ensures forall i, j :: 0 <= i < j < |out| ==> out[i] != out[j]
  {
    var sites := PrepareLocations(games);
    var locations, locationDict := AddLocations(sites, fetch);
    var coords, queries := FindCoords(locations, geocode);
    out := Assemble(games, locationDict, coords);
    AssembleCoversGames(games, locationDict, coords);
    AssembleDistinct(games, locationDict, coords);
    forall g | g in games ensures exists i :: 0 <= i < |out| && out[i].info == Info(g) {
      var row := Project(Enrich(g, locationDict, coords));
      var i :| 0 <= i < |out| && out[i] == row;
    }
  }

  /**
   * Only the page of the first game of each (home team, neutral site) pair is
   * fetched. When that one page fails to load, every game of the pair ends
   * up in the output with no latitude and longitude, whatever its own page
   * holds, provided the service has no answer for the absent venue.
   */
  lemma FailedFetchKeepsGame(games: seq<Game>, fetch: string -> Option<string>,
                             geocode: Option<string> -> Option<Coord>, g: Game)
    requires g in games
    requires forall k :: 0 <= k < |games| && IsFirstOfKey(games, SitePair, k) && SitePair(games[k]) == SitePair(g) ==>
               fetch(games[k].gameInfoUrl).None?
    requires geocode(None).None?
    ensures OutRow(None, None, Info(g)) in Season(games, fetch, geocode)
  {
    var sites := PrepareLocations(games);
    var locationDict := LocationDict(sites, fetch);
    var coords := CoordTable(SiteLocations(sites, fetch), geocode);
    PrepareLocationsCovers(games);
    PrepareLocationsKeepsFirst(games);
    PrepareLocationsKeyFormat(games);
    LocationDictComplete(games, fetch);
    LocationDictCoversGames(games, fetch);
    var i :| 0 <= i < |sites| && sites[i].homeTeam == g.homeTeam && sites[i].neutralSite == g.neutralSite;
    assert IsFirstSite(games, sites[i]);
    var k :| 0 <= k < |games| && IsFirstOfKey(games, SitePair, k) && sites[i] == ToSite(games[k]);
    assert games[k] in games && SitePair(games[k]) == SitePair(g);
    assert SiteLocations(sites, fetch)[i] == Correct(ScrapePage(fetch(sites[i].url))) == None;
    assert GameLocation(g, locationDict) == None;
    assert None !in coords;
    AssembleKeepsUnresolved(games, locationDict, coords, g);
  }
}
