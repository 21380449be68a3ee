/**
 The menu navigator: the five handlers of the bot, each a function from the
 catalog and the tapped button's callback string to what the bot does in reply.
 Telegram calls (`reply_text`, `edit_message_text`, `reply_video`) become the
 `Outcome` a handler returns, and the Python exceptions a handler can raise become
 failure outcomes.
 */
module Navigator {
  import opened Strings
  import opened Catalog
  import opened Callbacks

  /** An inline keyboard button; every keyboard of the bot holds one button per row. */
  datatype Button = Button(caption: string, callback: string)

  datatype Outcome =
    | Reply(text: string, buttons: seq<Button>)  // a new message with a keyboard
    | Edit(text: string, buttons: seq<Button>)   // the tapped message's text and keyboard replaced
    | SendVideo(fileId: string)                   // the video with this file id sent
    | NoReply                                     // nothing shown
    | LookupFailure                               // KeyError on the series id
    | IndexFailure                                // IndexError: the callback has no second field

  const SeriesPrompt: string := "Scegli una serie TV:"
  const BackCaption: string := "Torna indietro"

  function SeasonsPrompt(seriesName: string): string
  {
    "Scegli una stagione per *" + seriesName + "*:"
  }

  function EpisodesPrompt(seasonName: string): string
  {
    "Episodi di *" + seasonName + "*:"
  }

  /** One button per series, in catalog order, captioned with its name, calling back with its id. */
  function SeriesButtons(db: Catalog): (bs: seq<Button>)
    ensures |bs| == |db|
    ensures forall i :: 0 <= i < |db| ==> bs[i] == Button(db[i].name, db[i].id)
  {
    if |db| == 0 then [] else [Button(db[0].name, db[0].id)] + SeriesButtons(db[1..])
  }

  /** One button per season, in key order, calling back with the season callback. */
  function SeasonButtons(seriesId: string, seasons: seq<Season>): (bs: seq<Button>)
    ensures |bs| == |seasons|
    ensures forall j :: 0 <= j < |seasons| ==>
      bs[j] == Button(seasons[j].name, SeasonCallback(seriesId, seasons[j].name))
  {
    if |seasons| == 0 then []
    else
      [Button(seasons[0].name, SeasonCallback(seriesId, seasons[0].name))]
      + SeasonButtons(seriesId, seasons[1..])
  }

  /** One button per episode, in list order, calling back with the play callback. */
  function EpisodeButtons(episodes: seq<Episode>): (bs: seq<Button>)
    ensures |bs| == |episodes|
    ensures forall k :: 0 <= k < |episodes| ==>
      bs[k] == Button(episodes[k].title, PlayCallback(episodes[k].fileId))
  {
    if |episodes| == 0 then []
    else [Button(episodes[0].title, PlayCallback(episodes[0].fileId))] + EpisodeButtons(episodes[1..])
  }

  /** `start`: the series list, as a new message. */
  function Start(db: Catalog): (r: Outcome)
    ensures r.Reply? && r.text == SeriesPrompt
    ensures |r.buttons| == |db|
    ensures forall i :: 0 <= i < |db| ==> r.buttons[i] == Button(db[i].name, db[i].id)
  {
    Reply(SeriesPrompt, SeriesButtons(db))
  }

  /** The seasons view of a series: its seasons, then the button back to the series list. */
  function SeasonsView(series: Series): (r: Outcome)
    ensures r.Edit? && r.text == SeasonsPrompt(series.name)
    ensures |r.buttons| == |series.seasons| + 1
    ensures forall j :: 0 <= j < |series.seasons| ==>
      r.buttons[j] == Button(series.seasons[j].name, SeasonCallback(series.id, series.seasons[j].name))
    ensures r.buttons[|series.seasons|] == Button(BackCaption, BackToken)
  {
    Edit(SeasonsPrompt(series.name),
         SeasonButtons(series.id, series.seasons) + [Button(BackCaption, BackToken)])
  }

  /** `mostra_stagioni`: the callback is a series id; an unknown one leaves the message as it is. */
  function ShowSeasons(db: Catalog, data: string): (r: Outcome)
    ensures r.NoReply? <==> forall i :: 0 <= i < |db| ==> db[i].id != data
    ensures r.NoReply? || r.Edit?
    ensures FindSeries(db, data).Some? ==> r == SeasonsView(FindSeries(db, data).value)
  {
    match FindSeries(db, data)
    case None => NoReply
    case Some(series) => SeasonsView(series)
  }

  /** The episodes view of a season: its episodes, then the button back to the series' seasons. */
  function EpisodesView(seriesId: string, seasonName: string, episodes: seq<Episode>): (r: Outcome)
    ensures r.Edit? && r.text == EpisodesPrompt(seasonName)
    ensures |r.buttons| == |episodes| + 1
    ensures forall k :: 0 <= k < |episodes| ==>
      r.buttons[k] == Button(episodes[k].title, PlayCallback(episodes[k].fileId))
    ensures r.buttons[|episodes|] == Button(BackCaption, seriesId)
  {
    Edit(EpisodesPrompt(seasonName), EpisodeButtons(episodes) + [Button(BackCaption, seriesId)])
  }

  /**
   `mostra_episodi`: fields 0 and 1 of the callback are the series id and the season
   name. A callback without `|` has no field 1; an unknown series id is a failed
   dictionary lookup; an unknown season of a known series has no episodes.
   */
  function ShowEpisodes(db: Catalog, data: string): (r: Outcome)
    ensures r.IndexFailure? <==> Delimiter !in data
    ensures r.LookupFailure? <==>
      Delimiter in data && FindSeries(db, Split(data, Delimiter)[0]).None?
    ensures r.IndexFailure? || r.LookupFailure? || r.Edit?
    ensures r.Edit? ==>
      var fields := Split(data, Delimiter);
      var series := FindSeries(db, fields[0]).value;
      match FindSeason(series.seasons, fields[1])
      case None => r.text == EpisodesPrompt(fields[1]) && r.buttons == [Button(BackCaption, fields[0])]
      case Some(season) => r == EpisodesView(fields[0], fields[1], season.episodes)
  {
    var fields := Split(data, Delimiter);
    if |fields| < 2 then IndexFailure
    else
      var seriesId, seasonName := fields[0], fields[1];
      match FindSeries(db, seriesId)
      case None => LookupFailure
      case Some(series) =>
        var episodes := match FindSeason(series.seasons, seasonName)
          case None => []
          case Some(season) => season.episodes;
        EpisodesView(seriesId, seasonName, episodes)
  }

  /** `invia_episodio`: sends the video named by field 1 of the callback. */
  function SendEpisode(data: string): (r: Outcome)
    ensures r.IndexFailure? <==> Delimiter !in data
    ensures r.IndexFailure? || r.SendVideo?
    ensures r.SendVideo? ==> Delimiter !in r.fileId
  {
    var fields := Split(data, Delimiter);
    if |fields| < 2 then IndexFailure else SendVideo(fields[1])
  }

  /** `torna_indietro`: back to the series list. */
  function GoBack(db: Catalog): (r: Outcome)
    ensures r.Reply? && r.text == SeriesPrompt
    ensures |r.buttons| == |db|
    ensures forall i :: 0 <= i < |db| ==> r.buttons[i] == Button(db[i].name, db[i].id)
  {
    Start(db)
  }

  /**
   `invia_episodio` sends field 1 of the callback: the text after the first `|`, up
   to the next `|` if there is one, whatever precedes the first `|`.
   */
  lemma SendEpisodeSecondField(tag: string, rest: string)
    requires Delimiter !in tag
    ensures SendEpisode(tag + [Delimiter] + rest) == SendVideo(Split(rest, Delimiter)[0])
  {
    SplitAfterPrefix(tag, rest, Delimiter);
  }

  /** `invia_episodio`, given a play button's callback, sends exactly the file id the button was built from. */
  lemma PlayRoundTrip(fileId: string)
    requires Delimiter !in fileId
    ensures SendEpisode(PlayCallback(fileId)) == SendVideo(fileId)
  {
    PlayCallbackRoundTrip(fileId);
  }

  /** A callback the episodes pattern accepts never makes `mostra_episodi` raise IndexError. */
  lemma EpisodesPatternHasSeason(db: Catalog, data: string)
    requires EpisodesPattern(data)
    ensures !ShowEpisodes(db, data).IndexFailure?
  {
    PatternsGuaranteeSecondField(data);
  }

  /** A callback the play pattern accepts always makes `invia_episodio` send a video. */
  lemma PlayPatternSends(data: string)
    requires PlayPattern(data)
    ensures SendEpisode(data).SendVideo?
  {
    PatternsGuaranteeSecondField(data);
  }

  /** `mostra_stagioni`, given the i-th series button's callback, shows that series' seasons. */
  lemma SeriesButtonOpensSeasons(db: Catalog, i: nat)
    requires DistinctIds(db) && i < |db|
    ensures ShowSeasons(db, Start(db).buttons[i].callback) == SeasonsView(db[i])
  {
    FindSeriesAt(db, i);
  }

  /** `mostra_episodi`, given the j-th season button's callback, shows that season's episodes. */
  lemma SeasonButtonOpensEpisodes(db: Catalog, i: nat, j: nat)
    requires IsDict(db) && i < |db| && j < |db[i].seasons|
    requires Delimiter !in db[i].id && Delimiter !in db[i].seasons[j].name
    ensures var season := db[i].seasons[j];
      ShowEpisodes(db, SeasonsView(db[i]).buttons[j].callback)
      == EpisodesView(db[i].id, season.name, season.episodes)
  {
    var series := db[i];
    SeasonCallbackRoundTrip(series.id, series.seasons[j].name);
    FindSeriesAt(db, i);
    FindSeasonAt(series.seasons, j);
  }

  /** `invia_episodio`, given the k-th episode button's callback, sends that episode's video. */
  lemma EpisodeButtonSendsVideo(db: Catalog, i: nat, j: nat, k: nat)
    requires i < |db| && j < |db[i].seasons| && k < |db[i].seasons[j].episodes|
    requires Delimiter !in db[i].seasons[j].episodes[k].fileId
    ensures var season := db[i].seasons[j];
      SendEpisode(EpisodesView(db[i].id, season.name, season.episodes).buttons[k].callback)
      == SendVideo(season.episodes[k].fileId)
  {
    PlayRoundTrip(db[i].seasons[j].episodes[k].fileId);
  }

  /** `mostra_stagioni`, given an episodes view's back callback, shows the seasons of the series it came from. */
  lemma EpisodesBackOpensSeasons(db: Catalog, i: nat, seasonName: string, episodes: seq<Episode>)
    requires DistinctIds(db) && i < |db|
    ensures ShowSeasons(db, EpisodesView(db[i].id, seasonName, episodes).buttons[|episodes|].callback)
      == SeasonsView(db[i])
  {
    FindSeriesAt(db, i);
  }

  /** The callback of a seasons view's back button is accepted by the back pattern alone. */
  lemma SeasonsBackRouting(series: Series)
    ensures var c := SeasonsView(series).buttons[|series.seasons|].callback;
      BackPattern(c) && !SeasonsPattern(c) && !EpisodesPattern(c) && !PlayPattern(c)
  {
    BackTokenRouting();
  }

  /**
   The callback of a series button is accepted by the seasons pattern alone, provided
   its id contains no `|` and does not begin with a reserved word.
   */
  lemma SeriesButtonRouting(db: Catalog, i: nat)
    requires i < |db| && Delimiter !in db[i].id && SeasonsPattern(db[i].id)
    ensures var c := Start(db).buttons[i].callback;
      SeasonsPattern(c) && !EpisodesPattern(c) && !PlayPattern(c) && !BackPattern(c)
  {
    var c := Start(db).buttons[i].callback;
    assert forall p :: 0 <= p < |c| ==> c[p] != Delimiter;
    BackPatternExclusive(c);
  }

  /**
   In a catalog with distinct file ids, two episode buttons with `|`-free file ids
   that send the same video are the same button of the same season of the same series.
   */
  lemma PlayIdentifiesEpisode(db: Catalog, i: nat, j: nat, k: nat, i': nat, j': nat, k': nat)
    requires DistinctFileIds(db)
    requires i < |db| && j < |db[i].seasons| && k < |db[i].seasons[j].episodes|
    requires i' < |db| && j' < |db[i'].seasons| && k' < |db[i'].seasons[j'].episodes|
    requires Delimiter !in db[i].seasons[j].episodes[k].fileId
    requires Delimiter !in db[i'].seasons[j'].episodes[k'].fileId
    requires var s, s' := db[i].seasons[j], db[i'].seasons[j'];
      SendEpisode(EpisodesView(db[i].id, s.name, s.episodes).buttons[k].callback)
      == SendEpisode(EpisodesView(db[i'].id, s'.name, s'.episodes).buttons[k'].callback)
    ensures i == i' && j == j' && k == k'
  {
    EpisodeButtonSendsVideo(db, i, j, k);
    EpisodeButtonSendsVideo(db, i', j', k');
    SameFileIdSamePosition(db, i, j, k, i', j', k');
  }

  /** The callback of every series button of the seeded catalog is accepted by the seasons pattern alone. */
  lemma SeededSeriesRouting(i: nat)
    requires i < |Database|
    ensures var c := Start(Database).buttons[i].callback;
      SeasonsPattern(c) && !EpisodesPattern(c) && !PlayPattern(c) && !BackPattern(c)
  {
    SeededIdsUnreserved(i);
    SeededFreeOf(Delimiter);
    assert SeriesFreeOf(Database[i], Delimiter);
    SeriesButtonRouting(Database, i);
  }

  /**
   The seasons handler, given a season callback (which its pattern also accepts),
   finds no series under it and shows nothing, provided no series id holds `|`.
   */
  lemma SeasonCallbackUnknownToSeasons(db: Catalog, seriesId: string, seasonName: string)
    requires forall i :: 0 <= i < |db| ==> Delimiter !in db[i].id
    ensures ShowSeasons(db, SeasonCallback(seriesId, seasonName)) == NoReply
  {
    var c := SeasonCallback(seriesId, seasonName);
    forall i | 0 <= i < |db| ensures db[i].id != c {
      assert c[|seriesId|] == Delimiter;
    }
  }

  /**
   The episodes handler, given a play callback (which its pattern also accepts),
   looks up "play" as a series id and fails unless a series has that id.
   */
  lemma PlayCallbackUnknownToEpisodes(db: Catalog, fileId: string)
    requires forall i :: 0 <= i < |db| ==> db[i].id != "play"
    ensures ShowEpisodes(db, PlayCallback(fileId)) == LookupFailure
  {
    SplitAfterPrefix("play", fileId, Delimiter);
  }

  /** Every series id of the seeded catalog begins with neither reserved word. */
  lemma SeededIdsUnreserved(i: nat)
    requires i < |Database|
    ensures SeasonsPattern(Database[i].id)
  {
    var id := Database[i].id;
    assert id == "serie1" || id == "serie2";
    assert |id| == 6 && id[..4][0] == 's';
  }

  /**
   In the seeded catalog, the callback of the j-th season button of series i is
   accepted by both the seasons and the episodes patterns; `mostra_stagioni`, given
   it, shows nothing, and `mostra_episodi`, given it, shows that season's episodes.
   */
  lemma SeededSeasonButton(i: nat, j: nat)
    requires i < |Database| && j < |Database[i].seasons|
    ensures var c := SeasonsView(Database[i]).buttons[j].callback;
      var season := Database[i].seasons[j];
      && SeasonsPattern(c) && EpisodesPattern(c)
      && ShowSeasons(Database, c) == NoReply
      && ShowEpisodes(Database, c) == EpisodesView(Database[i].id, season.name, season.episodes)
  {
    var series := Database[i];
    SeededIsDict();
    SeededFreeOf(Delimiter);
    SeededFreeOf('\n');
    assert SeriesFreeOf(series, Delimiter) && SeriesFreeOf(series, '\n');
    assert SeasonFreeOf(series.seasons[j], Delimiter);
    SeededIdsUnreserved(i);
    SeasonCallbackOverlap(series.id, series.seasons[j].name);
    SeasonCallbackUnknownToSeasons(Database, series.id, series.seasons[j].name);
    SeasonButtonOpensEpisodes(Database, i, j);
  }

  /**
   In the seeded catalog, `invia_episodio`, given the callback of an episode button,
   sends that episode's video, and no other episode button sends the same video.
   */
  lemma SeededEpisodeButton(i: nat, j: nat, k: nat, i': nat, j': nat, k': nat)
    requires i < |Database| && j < |Database[i].seasons| && k < |Database[i].seasons[j].episodes|
    requires i' < |Database| && j' < |Database[i'].seasons| && k' < |Database[i'].seasons[j'].episodes|
    ensures var s, s' := Database[i].seasons[j], Database[i'].seasons[j'];
      var c := EpisodesView(Database[i].id, s.name, s.episodes).buttons[k].callback;
      var c' := EpisodesView(Database[i'].id, s'.name, s'.episodes).buttons[k'].callback;
      && SendEpisode(c) == SendVideo(s.episodes[k].fileId)
      && (SendEpisode(c) == SendEpisode(c') ==> i == i' && j == j' && k == k')
  {
    SeededFreeOf(Delimiter);
    SeededDistinctFileIds();
    assert SeriesFreeOf(Database[i], Delimiter) && SeriesFreeOf(Database[i'], Delimiter);
    assert SeasonFreeOf(Database[i].seasons[j], Delimiter);
    assert SeasonFreeOf(Database[i'].seasons[j'], Delimiter);
    EpisodeButtonSendsVideo(Database, i, j, k);
    var s, s' := Database[i].seasons[j], Database[i'].seasons[j'];
    if SendEpisode(EpisodesView(Database[i].id, s.name, s.episodes).buttons[k].callback)
       == SendEpisode(EpisodesView(Database[i'].id, s'.name, s'.episodes).buttons[k'].callback)
    {
      PlayIdentifiesEpisode(Database, i, j, k, i', j', k');
    }
  }
}
