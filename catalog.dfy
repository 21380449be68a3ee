/**
 The catalog of series the bot offers: the `database` literal, a dictionary from
 series id to `{nome, stagioni}` whose `stagioni` maps a season label to a list of
 `{episodio, file_id}` records. Dictionaries are modelled as sequences in insertion
 order (the order Python iterates them in); `IsDict` states that their keys are
 distinct, as Python guarantees.
 */
module Catalog {
  import opened Strings

  datatype Option<T> = None | Some(value: T)

  /** `{"episodio": title, "file_id": fileId}`; the file id is Telegram's video reference. */
  datatype Episode = Episode(title: string, fileId: string)

  /** One key of `stagioni` (such as "Stagione 1") with its episode list. */
  datatype Season = Season(name: string, episodes: seq<Episode>)

  /** One key of `database` with its `nome` and its `stagioni`. */
  datatype Series = Series(id: string, name: string, seasons: seq<Season>)

  type Catalog = seq<Series>

  /** The catalog the bot is started with; it is only ever read. */
  const Database: Catalog := [
    Series("serie1", "Serie TV 1", [
      Season("Stagione 1", [
        Episode("Episodio 1", "file_id_episodio1"),
        Episode("Episodio 2", "file_id_episodio2")
      ]),
      Season("Stagione 2", [
        Episode("Episodio 1", "file_id_episodio3")
      ])
    ]),
    Series("serie2", "Serie TV 2", [
      Season("Stagione 1", [
        Episode("Episodio 1", "file_id_episodio4")
      ])
    ])
  ]

  predicate DistinctIds(db: Catalog)
  {
    forall i, j :: 0 <= i < j < |db| ==> db[i].id != db[j].id
  }

  predicate DistinctNames(seasons: seq<Season>)
  {
    forall i, j :: 0 <= i < j < |seasons| ==> seasons[i].name != seasons[j].name
  }

  /** Both levels are Python dictionaries: no key occurs twice. */
  predicate IsDict(db: Catalog)
  {
    DistinctIds(db) && forall i :: 0 <= i < |db| ==> DistinctNames(db[i].seasons)
  }

  /** No file id of the season contains the character `d`, nor does its name. */
  predicate SeasonFreeOf(season: Season, d: char)
  {
    d !in season.name && forall k :: 0 <= k < |season.episodes| ==> d !in season.episodes[k].fileId
  }

  /** No season name or file id of the series contains `d`, nor does its id. */
  predicate SeriesFreeOf(series: Series, d: char)
  {
    d !in series.id && forall j :: 0 <= j < |series.seasons| ==> SeasonFreeOf(series.seasons[j], d)
  }

  /** No series id, season name or file id contains the character `d`. */
  predicate FreeOf(db: Catalog, d: char)
  {
    forall i :: 0 <= i < |db| ==> SeriesFreeOf(db[i], d)
  }

  /** `database.get(id)`: the series stored under `id`, if any. */
  function FindSeries(db: Catalog, id: string): (r: Option<Series>)
    ensures r.None? <==> forall i :: 0 <= i < |db| ==> db[i].id != id
    ensures r.Some? ==> r.value in db && r.value.id == id
  {
    if |db| == 0 then None
    else if db[0].id == id then Some(db[0])
    else FindSeries(db[1..], id)
  }

  /** `stagioni.get(name)`: the season stored under `name`, if any. */
  function FindSeason(seasons: seq<Season>, name: string): (r: Option<Season>)
    ensures r.None? <==> forall j :: 0 <= j < |seasons| ==> seasons[j].name != name
    ensures r.Some? ==> r.value in seasons && r.value.name == name
  {
    if |seasons| == 0 then None
    else if seasons[0].name == name then Some(seasons[0])
    else FindSeason(seasons[1..], name)
  }

  /** With distinct ids, looking up the id of the i-th series finds that series. */
  lemma {:induction false} FindSeriesAt(db: Catalog, i: nat)
    requires DistinctIds(db)
    requires i < |db|
    ensures FindSeries(db, db[i].id) == Some(db[i])
  {
    if i > 0 {
      assert db[0].id != db[i].id;
      assert DistinctIds(db[1..]) by {
        forall a, b | 0 <= a < b < |db| - 1 ensures db[1..][a].id != db[1..][b].id {
          assert db[a + 1].id != db[b + 1].id;
        }
      }
      FindSeriesAt(db[1..], i - 1);
    }
  }

  /** With distinct season names, looking up the name of the j-th season finds that season. */
  lemma {:induction false} FindSeasonAt(seasons: seq<Season>, j: nat)
    requires DistinctNames(seasons)
    requires j < |seasons|
    ensures FindSeason(seasons, seasons[j].name) == Some(seasons[j])
  {
    if j > 0 {
      assert seasons[0].name != seasons[j].name;
      assert DistinctNames(seasons[1..]) by {
        forall a, b | 0 <= a < b < |seasons| - 1
          ensures seasons[1..][a].name != seasons[1..][b].name
        {
          assert seasons[a + 1].name != seasons[b + 1].name;
        }
      }
      FindSeasonAt(seasons[1..], j - 1);
    }
  }

  /** Every episode of a list of seasons, season by season. */
  function SeasonsEpisodes(seasons: seq<Season>): seq<Episode>
  {
    if |seasons| == 0 then [] else seasons[0].episodes + SeasonsEpisodes(seasons[1..])
  }

  /** Every episode of the catalog, series by series. */
  function AllEpisodes(db: Catalog): seq<Episode>
  {
    if |db| == 0 then [] else SeasonsEpisodes(db[0].seasons) + AllEpisodes(db[1..])
  }

  /** No two episodes anywhere in the catalog share a file id. */
  predicate DistinctFileIds(db: Catalog)
  {
    var all := AllEpisodes(db);
    forall p, q :: 0 <= p < q < |all| ==> all[p].fileId != all[q].fileId
  }

  /** Where the k-th episode of the j-th season sits in `SeasonsEpisodes(seasons)`. */
  function SeasonsIndex(seasons: seq<Season>, j: nat, k: nat): (p: nat)
    requires j < |seasons| && k < |seasons[j].episodes|
    ensures p < |SeasonsEpisodes(seasons)|
    ensures SeasonsEpisodes(seasons)[p] == seasons[j].episodes[k]
  {
    if j == 0 then k else |seasons[0].episodes| + SeasonsIndex(seasons[1..], j - 1, k)
  }

  /** Where the episode at menu position (i, j, k) sits in `AllEpisodes(db)`. */
  function CatalogIndex(db: Catalog, i: nat, j: nat, k: nat): (p: nat)
    requires i < |db| && j < |db[i].seasons| && k < |db[i].seasons[j].episodes|
    ensures p < |AllEpisodes(db)|
    ensures AllEpisodes(db)[p] == db[i].seasons[j].episodes[k]
  {
    if i == 0 then SeasonsIndex(db[0].seasons, j, k)
    else |SeasonsEpisodes(db[0].seasons)| + CatalogIndex(db[1..], i - 1, j, k)
  }

  lemma {:induction false} SeasonsIndexInjective(seasons: seq<Season>, j: nat, k: nat, j': nat, k': nat)
    requires j < |seasons| && k < |seasons[j].episodes|
    requires j' < |seasons| && k' < |seasons[j'].episodes|
    requires SeasonsIndex(seasons, j, k) == SeasonsIndex(seasons, j', k')
    ensures j == j' && k == k'
  {
    if j > 0 && j' > 0 {
      SeasonsIndexInjective(seasons[1..], j - 1, k, j' - 1, k');
    }
  }

  /** Different menu positions sit at different places of `AllEpisodes`. */
  lemma {:induction false} CatalogIndexInjective(db: Catalog, i: nat, j: nat, k: nat, i': nat, j': nat, k': nat)
    requires i < |db| && j < |db[i].seasons| && k < |db[i].seasons[j].episodes|
    requires i' < |db| && j' < |db[i'].seasons| && k' < |db[i'].seasons[j'].episodes|
    requires CatalogIndex(db, i, j, k) == CatalogIndex(db, i', j', k')
    ensures i == i' && j == j' && k == k'
  {
    if i == 0 && i' == 0 {
      SeasonsIndexInjective(db[0].seasons, j, k, j', k');
    } else if i > 0 && i' > 0 {
      CatalogIndexInjective(db[1..], i - 1, j, k, i' - 1, j', k');
    }
  }

  /** With distinct file ids, two menu positions holding the same file id are the same position. */
  lemma SameFileIdSamePosition(db: Catalog, i: nat, j: nat, k: nat, i': nat, j': nat, k': nat)
    requires DistinctFileIds(db)
    requires i < |db| && j < |db[i].seasons| && k < |db[i].seasons[j].episodes|
    requires i' < |db| && j' < |db[i'].seasons| && k' < |db[i'].seasons[j'].episodes|
    requires db[i].seasons[j].episodes[k].fileId == db[i'].seasons[j'].episodes[k'].fileId
    ensures i == i' && j == j' && k == k'
  {
    var p, q := CatalogIndex(db, i, j, k), CatalogIndex(db, i', j', k');
    assert p == q;
    CatalogIndexInjective(db, i, j, k, i', j', k');
  }

  /** The seeded catalog's dictionaries have distinct keys. */
  lemma SeededIsDict()
    ensures IsDict(Database)
  {
  }

  /** No key or file id of the seeded catalog contains the callback delimiter or a newline. */
  lemma SeededFreeOf(d: char)
    requires d == '|' || d == '\n'
    ensures FreeOf(Database, d)
  {
    var s1, s2 := Database[0], Database[1];
    assert SeasonFreeOf(s1.seasons[0], d) by {
      assert d !in "Stagione 1" && d !in "file_id_episodio1" && d !in "file_id_episodio2";
    }
    assert SeasonFreeOf(s1.seasons[1], d) by {
      assert d !in "Stagione 2" && d !in "file_id_episodio3";
    }
    assert SeasonFreeOf(s2.seasons[0], d) by {
      assert d !in "Stagione 1" && d !in "file_id_episodio4";
    }
    assert SeriesFreeOf(s1, d) by { assert d !in "serie1"; }
    assert SeriesFreeOf(s2, d) by { assert d !in "serie2"; }
  }

  /** The seeded catalog's file ids are pairwise distinct. */
  lemma SeededDistinctFileIds()
    ensures DistinctFileIds(Database)
  {
    assert AllEpisodes(Database) == [
      Episode("Episodio 1", "file_id_episodio1"),
      Episode("Episodio 2", "file_id_episodio2"),
      Episode("Episodio 1", "file_id_episodio3"),
      Episode("Episodio 1", "file_id_episodio4")
    ];
  }
}
