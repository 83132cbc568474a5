/**
 * The venue scraper (`add_locations`): for every resolver row, fetch the
 * game's page, cut the venue name out of its markup, correct two known
 * mis-scraped names and build the key-to-venue dictionary.
 *
 * The browser is an oracle `fetch` from URL to page source; a failed fetch is
 * `None`, which the scraper treats like a page without the marker.
 */
module Scraper {
  import opened Wrappers
  import opened Text
  import opened Tables
  import opened Resolver

  /** The label cell that precedes the venue cell in a game page. */
  const Marker: string := "Location:</td>\n      <td>"

  /** The end of a table cell. */
  const CellEnd: string := "</td>\n"

  /**
   * `html.split(Marker)[1].split(CellEnd)[0]`, with the `IndexError` of a
   * missing marker turned into `None`.
   */
  function ExtractLocation(html: string): Option<string>
  {
    var parts := Split(html, Marker);
    if |parts| < 2 then None else Some(Split(parts[1], CellEnd)[0])
  }

  /** The text between the first marker and the next one (or the end of the page). */
  function VenueCell(html: string): string
    requires Contains(html, Marker)
  {
    ContainsIffFound(html, Marker);
    var a := Find(html, Marker, 0).value + |Marker|;
    html[a..NextAt(html, Marker, a)]
  }

  /** Extraction fails exactly on pages without the marker. */
  lemma ExtractLocationAbsent(html: string)
    ensures ExtractLocation(html).None? <==> !Contains(html, Marker)
  {
    SplitFromMore(html, Marker, 0);
    ContainsIffFound(html, Marker);
  }

  /**
   * On a page with the marker, the venue name is the start of the text after
   * the first marker, ends before the next marker, holds no cell end and, when
   * shorter than that text, is followed by a cell end.
   */
  lemma ExtractLocationContent(html: string)
    requires Contains(html, Marker)
    ensures ExtractLocation(html).Some?
    ensures ExtractLocation(html).value <= VenueCell(html)
    ensures ExtractLocation(html).value == VenueCell(html) ||
            ExtractLocation(html).value + CellEnd <= VenueCell(html)
    ensures !Contains(ExtractLocation(html).value, CellEnd)
    ensures !Contains(ExtractLocation(html).value, Marker)
  {
    ContainsIffFound(html, Marker);
    SplitSecondPiece(html, Marker, Find(html, Marker, 0).value);
    var cell := VenueCell(html);
    assert Split(html, Marker)[1] == cell;
    SplitFirstPiece(cell, CellEnd);
    PrefixNotContains(Split(cell, CellEnd)[0], cell, Marker);
  }

  /** The characters the layout proof relies on: neither constant re-starts inside itself. */
  lemma ConstantFacts()
    ensures forall k :: 0 < k < |Marker| ==> Marker[k] != Marker[0]
    ensures forall k :: 0 < k < |CellEnd| ==> CellEnd[k] != CellEnd[0]
    ensures forall k :: 0 <= k < |CellEnd| ==> CellEnd[k] != Marker[0]
  {
  }

  /** When no marker starts among the `m` characters after `a`, the next marker is at least `m` further on. */
  lemma MarkerFreeStretch(html: string, a: nat, m: nat)
    requires a + m <= |html|
    requires forall j :: 0 <= j < m ==> !OccursAt(html[a..], Marker, j)
    ensures NextAt(html, Marker, a) >= a + m
  {
    forall j | a <= j < a + m ensures !OccursAt(html, Marker, j) {
      OccursInSuffix(html, a, Marker, j - a);
    }
  }

  /**
   * On a page `before + Marker + t` whose `before` has no marker, the second
   * piece of the split starts with the first `m` characters of `t` when no
   * marker starts among them.
   */
  lemma SecondPieceStart(before: string, t: string, m: nat)
    requires !Contains(before, Marker)
    requires m <= |t|
    requires forall j :: 0 <= j < m ==> !OccursAt(t, Marker, j)
    ensures |Split(before + Marker + t, Marker)| >= 2
    ensures t[..m] <= Split(before + Marker + t, Marker)[1]
  {
    var html := before + Marker + t;
    assert Find(html, Marker, 0) == Some(|before|) by {
      ConstantFacts();
      FindAfterFreePrefix(before, Marker, t);
    }
    var a := |before| + |Marker|;
    SplitSecondPiece(html, Marker, |before|);
    assert html[a..] == t;
    MarkerFreeStretch(html, a, m);
    var e := NextAt(html, Marker, a);
    assert html[a..e][..m] == html[a..a + m] == t[..m];
  }

  /** No marker starts inside the cell end that follows a name. */
  lemma NoMarkerInCellEnd(name: string, after: string)
    ensures forall j :: |name| <= j < |name| + |CellEnd| ==> !OccursAt(name + CellEnd + after, Marker, j)
  {
    ConstantFacts();
    var t := name + CellEnd + after;
    forall j | |name| <= j < |name| + |CellEnd| ensures !OccursAt(t, Marker, j) {
      assert t[j] == CellEnd[j - |name|] != Marker[0];
      if j + |Marker| <= |t| {
        assert t[j..j + |Marker|][0] == t[j];
      }
    }
  }

  /** A piece that starts with a name free of cell ends and then a cell end is cut to that name. */
  lemma CutAtCellEnd(piece: string, name: string)
    requires name + CellEnd <= piece
    requires !Contains(name, CellEnd)
    ensures Split(piece, CellEnd)[0] == name
  {
    ConstantFacts();
    var tail := piece[|name| + |CellEnd|..];
    assert piece == name + CellEnd + tail;
    FindAfterFreePrefix(name, CellEnd, tail);
    SplitFromFirst(piece, CellEnd, 0);
    assert piece[0..|name|] == name;
  }

  /**
   * A page laid out as `before + Marker + name + CellEnd + after` yields
   * `name`, provided `before` has no marker, `name` has no cell end and no
   * marker starts inside `name`. (Asking only that `name` hold no marker is
   * not enough: the marker itself contains a cell end, so a name ending in
   * "Location:" followed by the rest of a marker is cut short.)
   */
  lemma ExtractFromLayout(before: string, name: string, after: string)
    requires !Contains(before, Marker)
    requires !Contains(name, CellEnd)
    requires forall j :: 0 <= j < |name| ==> !OccursAt(name + CellEnd + after, Marker, j)
    ensures ExtractLocation(before + Marker + name + CellEnd + after) == Some(name)
  {
    var t := name + CellEnd + after;
    var m := |name| + |CellEnd|;
    assert before + Marker + name + CellEnd + after == before + Marker + t;
    NoMarkerInCellEnd(name, after);
    SecondPieceStart(before, t, m);
    assert t[..m] == name + CellEnd;
    CutAtCellEnd(Split(before + Marker + t, Marker)[1], name);
  }

  /** One iteration's `try` block: a failed fetch and a missing marker both give `None`. */
  function ScrapePage(page: Option<string>): Option<string>
  {
    match page
    case None => None
    case Some(html) => ExtractLocation(html)
  }

  /** The scrape loop: one entry per URL, in URL order. */
  method ScrapeLocations(urls: seq<string>, fetch: string -> Option<string>) returns (locations: seq<Option<string>>)
    ensures |locations| == |urls|
    ensures forall i :: 0 <= i < |urls| ==> locations[i] == ScrapePage(fetch(urls[i]))
  {
    locations := [];
    for i := 0 to |urls|
      invariant |locations| == i
      invariant forall j :: 0 <= j < i ==> locations[j] == ScrapePage(fetch(urls[j]))
    {
      var location := ScrapePage(fetch(urls[i]));
      locations := locations + [location];
    }
  }

  /** The two venue names that geocode to the wrong place, with their replacements. */
  const Corrections: map<string, string> :=
    map["San Mateo JC" := "College of San Mateo", "Young Memorial FIeld" := "UAB"]

  /** `Series.replace(Corrections)` on one value: whole-value substitution. */
  function Correct(location: Option<string>): Option<string>
  {
    if location.Some? && location.value in Corrections then Some(Corrections[location.value]) else location
  }

  function CorrectAll(locations: seq<Option<string>>): seq<Option<string>>
  {
    MapSeq(locations, Correct)
  }

  /** Only the two listed names change, each to its replacement; `None` and every other name stay. */
  lemma CorrectOnlyRewritesTable(location: Option<string>)
    ensures Correct(location) != location <==>
              location == Some("San Mateo JC") || location == Some("Young Memorial FIeld")
    ensures location == Some("San Mateo JC") ==> Correct(location) == Some("College of San Mateo")
    ensures location == Some("Young Memorial FIeld") ==> Correct(location) == Some("UAB")
  {
  }

  /** No replacement is itself a name to replace, so correcting twice is correcting once. */
  lemma CorrectAllIdempotent(locations: seq<Option<string>>)
    ensures |CorrectAll(locations)| == |locations|
    ensures CorrectAll(CorrectAll(locations)) == CorrectAll(locations)
  {
    assert forall x :: x in Corrections.Values ==> x !in Corrections;
  }

  /** The corrected venue of every resolver row, in row order. */
  function SiteLocations(sites: seq<Site>, fetch: string -> Option<string>): seq<Option<string>>
  {
    CorrectAll(MapSeq(SiteUrls(sites), url => ScrapePage(fetch(url))))
  }

  /** `dict(zip(game_data['key'], game_data['location']))`. */
  function LocationDict(sites: seq<Site>, fetch: string -> Option<string>): map<string, Option<string>>
  {
    ZipToMap(SiteKeys(sites), SiteLocations(sites, fetch))
  }

  /**
   * `add_locations`: scrape every row's URL, correct the names, and return
   * the location column together with the key-to-location dictionary.
   */
  method AddLocations(sites: seq<Site>, fetch: string -> Option<string>)
    returns (locations: seq<Option<string>>, locationDict: map<string, Option<string>>)
    ensures |locations| == |sites|
    ensures forall i :: 0 <= i < |sites| ==> locations[i] == Correct(ScrapePage(fetch(sites[i].url)))
    ensures locations == SiteLocations(sites, fetch)
    ensures locationDict == LocationDict(sites, fetch)
  {
    var scraped := ScrapeLocations(SiteUrls(sites), fetch);
    locations := CorrectAll(scraped);
    assert scraped == MapSeq(SiteUrls(sites), url => ScrapePage(fetch(url)));
    locationDict := ZipToMap(SiteKeys(sites), locations);
  }

  /** Over the resolver's rows the dictionary has one entry per row, none overwritten. */
  lemma LocationDictComplete(games: seq<Game>, fetch: string -> Option<string>)
    ensures |LocationDict(PrepareLocations(games), fetch)| == |PrepareLocations(games)|
    ensures forall i :: 0 <= i < |PrepareLocations(games)| ==>
              PrepareLocations(games)[i].key in LocationDict(PrepareLocations(games), fetch) &&
              LocationDict(PrepareLocations(games), fetch)[PrepareLocations(games)[i].key] ==
                SiteLocations(PrepareLocations(games), fetch)[i]
  {
    var sites := PrepareLocations(games);
    PrepareLocationsUniqueKeys(games);
    ZipToMapSize(SiteKeys(sites), SiteLocations(sites, fetch));
  }

  /** Every game's recomputed key is a key of the dictionary. */
  lemma LocationDictCoversGames(games: seq<Game>, fetch: string -> Option<string>)
    ensures forall g :: g in games ==> VenueKey(g.homeTeam, g.neutralSite) in LocationDict(PrepareLocations(games), fetch)
  {
    var sites := PrepareLocations(games);
    PrepareLocationsKeyFormat(games);
    PrepareLocationsCovers(games);
    LocationDictComplete(games, fetch);
    forall g | g in games ensures VenueKey(g.homeTeam, g.neutralSite) in LocationDict(sites, fetch) {
      var i :| 0 <= i < |sites| && sites[i].homeTeam == g.homeTeam && sites[i].neutralSite == g.neutralSite;
      assert sites[i].key in LocationDict(sites, fetch);
    }
  }
}
