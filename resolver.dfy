/**
 * The location resolver (`prepare_locations`): one row per distinct
 * (home team, neutral site) pair of the season's games, with the venue-page
 * URL of the first game carrying the pair and the join key used later to
 * attach venues back to every game.
 */
module Resolver {
  import opened Tables

  /** One row of the season's game table. */
  datatype Game = Game(
    homeTeam: string,
    awayTeam: string,
    homeScore: int,
    awayScore: int,
    date: string,
    neutralSite: bool,
    gameInfoUrl: string)

  /** One row of the resolver's output table: columns home_team, neutral_site, url, key. */
  datatype Site = Site(homeTeam: string, neutralSite: bool, url: string, key: string)

  /** Python's `str(b)` for a boolean. */
  function FlagString(b: bool): string
  {
    if b then "True" else "False"
  }

  /** The join key: the home team followed by the rendered neutral-site flag. */
  function VenueKey(homeTeam: string, neutralSite: bool): string
  {
    homeTeam + FlagString(neutralSite)
  }

  /** The key determines the pair it was built from. */
  lemma VenueKeyInjective(h1: string, n1: bool, h2: string, n2: bool)
    requires VenueKey(h1, n1) == VenueKey(h2, n2)
    ensures h1 == h2 && n1 == n2
  {
    var k := VenueKey(h1, n1);
    // "True" and "False" differ in their second-to-last character.
    assert n1 == (k[|k| - 2] == 'u');
    assert n2 == (k[|k| - 2] == 'u');
    assert h1 == k[..|h1|] == h2;
  }

  /** The subset of columns `drop_duplicates` compares. */
  function SitePair(g: Game): (string, bool)
  {
    (g.homeTeam, g.neutralSite)
  }

  function ToSite(g: Game): Site
  {
    Site(g.homeTeam, g.neutralSite, g.gameInfoUrl, VenueKey(g.homeTeam, g.neutralSite))
  }

  /**
   * `prepare_locations`: drop the games repeating an earlier game's
   * (home team, neutral site) pair, keep the three columns and add the key.
   */
  function PrepareLocations(games: seq<Game>): seq<Site>
  {
    MapSeq(DropDuplicates(games, SitePair), ToSite)
  }

  /** `site` is built from the first game carrying its pair. */
  ghost predicate IsFirstSite(games: seq<Game>, site: Site)
  {
    exists k :: 0 <= k < |games| && IsFirstOfKey(games, SitePair, k) && site == ToSite(games[k])
  }

  /** Each resolver row's key is derived from its own pair. */
  lemma PrepareLocationsKeyFormat(games: seq<Game>)
    ensures forall i :: 0 <= i < |PrepareLocations(games)| ==>
              PrepareLocations(games)[i].key ==
                VenueKey(PrepareLocations(games)[i].homeTeam, PrepareLocations(games)[i].neutralSite)
  {
  }

  /** Each resolver row is built from the first game carrying its pair, with that game's URL. */
  lemma PrepareLocationsKeepsFirst(games: seq<Game>)
    ensures forall i :: 0 <= i < |PrepareLocations(games)| ==>
              IsFirstSite(games, PrepareLocations(games)[i])
  {
    var firsts, sites := DropDuplicates(games, SitePair), PrepareLocations(games);
    DropDuplicatesKeepsFirst(games, SitePair);
    forall i | 0 <= i < |sites| ensures IsFirstSite(games, sites[i]) {
      assert FirstOfItsKey(games, SitePair, firsts[i]);
      var k :| 0 <= k < |games| && IsFirstOfKey(games, SitePair, k) && games[k] == firsts[i];
      assert sites[i] == ToSite(firsts[i]);
    }
  }

  /** Every pair present in the games has a resolver row. */
  lemma PrepareLocationsCovers(games: seq<Game>)
    ensures forall g :: g in games ==>
              exists i :: 0 <= i < |PrepareLocations(games)| &&
                          PrepareLocations(games)[i].homeTeam == g.homeTeam &&
                          PrepareLocations(games)[i].neutralSite == g.neutralSite
  {
    var firsts, sites := DropDuplicates(games, SitePair), PrepareLocations(games);
    DropDuplicatesCovers(games, SitePair);
    forall g | g in games
      ensures exists i :: 0 <= i < |sites| && sites[i].homeTeam == g.homeTeam && sites[i].neutralSite == g.neutralSite
    {
      var k :| 0 <= k < |games| && games[k] == g;
      assert HasKey(firsts, SitePair, SitePair(games[k]));
      var i :| 0 <= i < |firsts| && SitePair(firsts[i]) == SitePair(games[k]);
      assert sites[i] == ToSite(firsts[i]);
    }
  }

  /** No two resolver rows share a pair, and so no two share a key. */
  lemma PrepareLocationsUniqueKeys(games: seq<Game>)
    ensures forall i, j :: 0 <= i < j < |PrepareLocations(games)| ==>
              PrepareLocations(games)[i].homeTeam != PrepareLocations(games)[j].homeTeam ||
              PrepareLocations(games)[i].neutralSite != PrepareLocations(games)[j].neutralSite
    ensures forall i, j :: 0 <= i < j < |PrepareLocations(games)| ==>
              PrepareLocations(games)[i].key != PrepareLocations(games)[j].key
  {
    var firsts := DropDuplicates(games, SitePair);
    var sites := PrepareLocations(games);
    DropDuplicatesDistinct(games, SitePair);
    forall i, j | 0 <= i < j < |sites| ensures sites[i].key != sites[j].key {
      assert SitePair(firsts[i]) != SitePair(firsts[j]);
      if sites[i].key == sites[j].key {
        VenueKeyInjective(sites[i].homeTeam, sites[i].neutralSite, sites[j].homeTeam, sites[j].neutralSite);
      }
    }
  }

  function SiteKeys(sites: seq<Site>): seq<string>
  {
    MapSeq(sites, (s: Site) => s.key)
  }

  function SiteUrls(sites: seq<Site>): seq<string>
  {
    MapSeq(sites, (s: Site) => s.url)
  }

  /**
   * Games that all share one (home team, neutral site) pair resolve to a
   * single row, keyed by that pair (two home games of "Tech" give the one key
   * "TechFalse").
   */
  lemma SharedPairResolvesToOneSite(games: seq<Game>)
    requires |games| > 0
    requires forall k :: 0 <= k < |games| ==> SitePair(games[k]) == SitePair(games[0])
    ensures PrepareLocations(games) == [ToSite(games[0])]
  {
    var sites := PrepareLocations(games);
    PrepareLocationsKeepsFirst(games);
    PrepareLocationsCovers(games);
    PrepareLocationsUniqueKeys(games);
    forall i | 0 <= i < |sites| ensures sites[i] == ToSite(games[0]) {
      assert IsFirstSite(games, sites[i]);
      var k :| 0 <= k < |games| && IsFirstOfKey(games, SitePair, k) && sites[i] == ToSite(games[k]);
      assert SitePair(games[0]) == SitePair(games[k]);
    }
    assert games[0] in games;
    assert |sites| > 1 ==> sites[0].key == sites[1].key;
  }
}
