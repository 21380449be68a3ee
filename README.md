# SerieTVTelegramBot menu navigator, in Dafny

This project models the menu navigator of the Telegram bot in `samserverbot.py`. The
bot offers a fixed catalog of TV series (`database`). Its menus have three levels:

- series;
- the seasons of a series;
- the episodes of a season.

The `/start` command is answered by `start`, which lists the series. Each button
carries a callback string, and the callback of a tapped button is handled by one
of four other handlers:

- `mostra_stagioni` lists the seasons of a series.
- `mostra_episodi` lists the episodes of a season.
- `invia_episodio` sends an episode's video.
- `torna_indietro` goes back to the series list.

Four regular-expression patterns choose which callbacks each handler is offered.

Modules:

- `Strings` (`strings.dfy`): Python's `str.split` with a one-character separator,
  its inverse `Join`, and `startswith`.
- `Catalog` (`catalog.dfy`): the catalog as values. The `database` literal is
  `Catalog.Database`. Each dictionary becomes a sequence in insertion order (the
  order Python iterates it in). `IsDict` states that its keys are distinct.
  `FindSeries`/`FindSeason` are `dict.get`.
- `Callbacks` (`callbacks.dfy`): the callback encodings `serie_id|stagione` and
  `play|file_id`, the reserved back token `indietro`, and the four handler patterns
  as string predicates.
- `Navigator` (`navigator.dfy`): the handlers as functions from the catalog and the
  callback string to an `Outcome`. An `Outcome` is one of:
  - a new message with buttons;
  - an edited message with buttons;
  - a video sent;
  - nothing;
  - the `KeyError` or `IndexError` the Python code would raise.

  The module also holds lemmas linking each button a view renders to what the
  handler of the next level does with its callback.

Pattern semantics follow Python's `re.match`, which the bot framework applies to
callback data:

- The match is anchored at the start of the string but not at its end.
- `.` does not match a newline, so `.*\|.*` needs a `|` with no newline before it.
- `$` also matches just before a final newline, so `^indietro$` accepts
  `"indietro\n"` as well as `"indietro"`. For strings without a newline it accepts
  `"indietro"` alone (`BackPattern`).

The patterns overlap:

- A season callback is accepted by the `mostra_stagioni` and the `mostra_episodi`
  patterns when the series id starts with neither `play` nor `indietro` and holds no
  newline, as every seeded id does.
- A play callback is accepted by the `mostra_episodi` and the `invia_episodio`
  patterns.

The framework's dispatch order decides which handler runs; it is not modelled.
Instead, two lemmas state what each handler does with a callback that reaches it
through an overlap:

- `mostra_stagioni` shows nothing for a season callback, when no series id holds `|`.
- `mostra_episodi` raises `KeyError` on a play callback, unless a series is called `play`.

## Model

| member | source | states |
|---|---|---|
| `Strings.Split` | samserverbot.py:59 | `split("|")` yields one field more than there are separators; there are two or more fields exactly when the separator occurs; no field contains it |
| `Strings.JoinSplit` | samserverbot.py:59 | joining the fields of a split with the separator gives back the original string |
| `Strings.SplitSingle` | samserverbot.py:59 | a string without the separator splits into itself alone |
| `Strings.SplitAfterPrefix` | samserverbot.py:59 | a separator-free prefix followed by the separator becomes the first field, and the rest splits on its own |
| `Strings.SplitJoin` | samserverbot.py:59-60 | splitting a join of separator-free fields gives back exactly those fields |
| `Catalog.FindSeries` | samserverbot.py:43 | `database.get(id)` is absent exactly when no series has that id; otherwise it is a catalog series with that id |
| `Catalog.FindSeason` | samserverbot.py:61 | `stagioni.get(name)` is absent exactly when no season has that name; otherwise it is a season of the series with that name |
| `Catalog.FindSeriesAt` | samserverbot.py:43 | with distinct ids, looking up the id of the i-th series returns that series |
| `Catalog.FindSeasonAt` | samserverbot.py:61 | with distinct season names, looking up the j-th season's name returns that season |
| `Catalog.SeasonsIndex` | samserverbot.py:8-24 | the k-th episode of the j-th season sits at this place of the series' flattened episode list |
| `Catalog.CatalogIndex` | samserverbot.py:5-26 | the episode at menu position (series i, season j, episode k) sits at this place of the catalog-wide episode list |
| `Catalog.CatalogIndexInjective` | samserverbot.py:5-26 | different menu positions sit at different places of the catalog-wide episode list |
| `Catalog.SameFileIdSamePosition` | samserverbot.py:5-26 | when all file ids are distinct, two menu positions holding the same file id are the same position |
| `Catalog.SeededIsDict` | samserverbot.py:5-26 | the seeded catalog has no repeated series id and no repeated season name within a series |
| `Catalog.SeededFreeOf` | samserverbot.py:5-26 | no series id, season name or file id of the seeded catalog contains `|` or a newline |
| `Catalog.SeededDistinctFileIds` | samserverbot.py:5-26 | the seeded catalog's file ids are pairwise distinct |
| `Callbacks.SeasonCallback` | samserverbot.py:47 | `f"{serie_id}|{stagione}"` always holds a `|`, and field 0 of its split is the series id whenever that id has no `|`, whatever the season name holds |
| `Callbacks.PlayCallback` | samserverbot.py:64 | `f"play|{file_id}"` always splits into two or more fields, the first being `"play"` |
| `Callbacks.SeasonsPattern` | samserverbot.py:91 | re.match of `^(?!play|indietro).*`: the string begins with neither `play` nor `indietro`; hence nothing the play or back pattern accepts |
| `Callbacks.EpisodesPattern` | samserverbot.py:92 | re.match of `.*\|.*`: a `|` with no newline before it; among newline-free strings, exactly those containing `|` |
| `Callbacks.PlayPattern` | samserverbot.py:93 | re.match of `^play\|`: the string starts with `play|`; it then splits into two or more fields, the first being `"play"` |
| `Callbacks.BackPattern` | samserverbot.py:94 | re.match of `^indietro$`: `indietro`, or `indietro` followed by one final newline; among newline-free strings, `indietro` alone; never a `|` |
| `Callbacks.BackPatternExclusive` | samserverbot.py:91-94 | whatever the back pattern accepts, none of the other three patterns accepts |
| `Callbacks.SeasonCallbackRoundTrip` | samserverbot.py:47-60 | splitting `serie_id|stagione` on `|` gives `[serie_id, stagione]` when neither contains `|` |
| `Callbacks.PlayCallbackRoundTrip` | samserverbot.py:64-76 | splitting `play|file_id` on `|` gives `["play", file_id]` when the file id has no `|` |
| `Callbacks.SeasonCallbackAmbiguous` | samserverbot.py:47 | without that restriction two different (series, season) pairs encode to the same callback |
| `Callbacks.PatternsGuaranteeSecondField` | samserverbot.py:92-93 | every string the episodes or play pattern accepts splits into at least two fields |
| `Callbacks.SeasonCallbackOverlap` | samserverbot.py:91-92 | a season callback built from an id that the seasons pattern accepts and that holds no newline is accepted by both the seasons and episodes patterns, and by neither of the others |
| `Callbacks.PlayCallbackOverlap` | samserverbot.py:92-93 | every play callback is accepted by both the episodes and play patterns, and by neither of the others |
| `Callbacks.BackTokenRouting` | samserverbot.py:91-94 | `indietro` is accepted by the back pattern and no other |
| `Navigator.SeriesButtons` | samserverbot.py:30-33 | one button per series, in catalog order, captioned with its `nome`, calling back with its id |
| `Navigator.SeasonButtons` | samserverbot.py:46-49 | one button per season, in key order, captioned with the season name, calling back with `serie_id|stagione` |
| `Navigator.EpisodeButtons` | samserverbot.py:63-66 | one button per episode, in list order, captioned with `episodio`, calling back with `play|file_id` |
| `Navigator.Start` | samserverbot.py:29-35 | a new message with the series prompt, and exactly one button per series in catalog order (name, id) |
| `Navigator.SeasonsView` | samserverbot.py:45-52 | an edit naming the series, with one button per season, then exactly one final "Torna indietro" button calling back with `indietro`: seasons + 1 buttons |
| `Navigator.ShowSeasons` | samserverbot.py:38-52 | an unknown series id gives no reply at all; a known one gives that series' seasons view; the handler never fails |
| `Navigator.EpisodesView` | samserverbot.py:63-69 | an edit naming the season, with one button per episode, then exactly one "Torna indietro" button calling back with the series id |
| `Navigator.ShowEpisodes` | samserverbot.py:55-69 | `IndexError` exactly when the callback has no `|`; `KeyError` exactly when field 0 is no series id; an unknown season of a known series shows only the back button; a known season shows its episodes view |
| `Navigator.SendEpisode` | samserverbot.py:72-77 | `IndexError` exactly when the callback has no `|`; otherwise sends a video whose file id holds no `|` |
| `Navigator.GoBack` | samserverbot.py:80-83 | back shows the series list: a new message with one button per series in catalog order |
| `Navigator.SendEpisodeSecondField` | samserverbot.py:76 | the video sent is field 1 of the callback: the text after the first `|`, up to the next `|`, whatever precedes the first `|` (so `play|a|b` sends `a`) |
| `Navigator.PlayRoundTrip` | samserverbot.py:64-77 | `invia_episodio`, given a play button's callback, sends exactly the file id the button was built from, when that id has no `|` |
| `Navigator.EpisodesPatternHasSeason` | samserverbot.py:59-60 | a callback the episodes pattern accepts never makes `mostra_episodi` raise `IndexError` |
| `Navigator.PlayPatternSends` | samserverbot.py:76-77 | a callback the play pattern accepts always makes `invia_episodio` send a video |
| `Navigator.SeriesButtonOpensSeasons` | samserverbot.py:31-52 | in a catalog with distinct ids, `mostra_stagioni`, given the i-th series button's callback, shows the i-th series' seasons |
| `Navigator.SeasonButtonOpensEpisodes` | samserverbot.py:47-69 | in a catalog with distinct keys, when the series id and the season name hold no `|`, `mostra_episodi`, given the j-th season button's callback, shows that season's episodes, with a back button to the series |
| `Navigator.EpisodeButtonSendsVideo` | samserverbot.py:64-77 | `invia_episodio`, given the k-th episode button's callback, sends that episode's file id, when that file id has no `|` |
| `Navigator.EpisodesBackOpensSeasons` | samserverbot.py:67 | `mostra_stagioni`, given the back callback of an episodes view, shows the seasons of the series it came from |
| `Navigator.SeasonsBackRouting` | samserverbot.py:50 | the back button of a seasons view is accepted by the back pattern only |
| `Navigator.SeriesButtonRouting` | samserverbot.py:31 | the callback of a series button whose id has no `|` and starts with no reserved word is accepted by the seasons pattern only |
| `Navigator.PlayIdentifiesEpisode` | samserverbot.py:64-77 | when all file ids are distinct and the two buttons' file ids hold no `|`, two episode buttons that send the same video are the same button of the same season of the same series |
| `Navigator.SeededSeriesRouting` | samserverbot.py:5-33 | every series button of the seeded catalog is accepted by the seasons pattern only |
| `Navigator.SeededIdsUnreserved` | samserverbot.py:6-18 | no seeded series id begins with `play` or `indietro` |
| `Navigator.SeededSeasonButton` | samserverbot.py:5-69 | in the seeded catalog, every season button's callback is accepted by both the seasons and episodes patterns; `mostra_stagioni`, given it, shows nothing; `mostra_episodi`, given it, shows that season's episodes |
| `Navigator.SeededEpisodeButton` | samserverbot.py:5-77 | in the seeded catalog, `invia_episodio`, given an episode button's callback, sends that episode's file id, and no other episode button sends the same video |
| `Navigator.SeasonCallbackUnknownToSeasons` | samserverbot.py:43-47 | `mostra_stagioni`, given a season callback, finds no series under it and shows nothing, when no series id holds `|` |
| `Navigator.PlayCallbackUnknownToEpisodes` | samserverbot.py:61-64 | `mostra_episodi`, given a play callback, looks up `"play"` as a series id and raises `KeyError` unless some series has that id, whatever the file id holds |

## Left out

- `main` (samserverbot.py:86-97): the `Updater` with its token, handler registration and polling. This is framework wiring; only its four patterns are modelled.
- The framework's dispatch order among the overlapping patterns is library behaviour and is not modelled. No lemma says which handler runs.
- The side effects of `query.answer`, `reply_text`, `edit_message_text` and `reply_video` are not modelled. Each handler instead returns the message, edit or video as an `Outcome` value.
- Navigator.GoBack: `torna_indietro` calls `start`, which replies through `update.message`. A Telegram callback-query update carries no `message` (the message is at `update.callback_query.message`), so as written this path fails in the source. The model keeps the intended transition instead: back shows the series list as a new message.
- The `*...*` Markdown markers are kept in the prompt texts as plain characters. No parse mode is modelled.
- A keyboard is a list of rows. Every keyboard here has one button per row, so it is modelled as a plain sequence of buttons.
- `bot.py` is not part of this model. It has a fixed-text `start`, an `echo` reply and `main` wiring, with no catalog logic.
- Adding episodes from channel posts, saving the catalog and removing episodes do not appear in `samserverbot.py`. The catalog there is a literal that is only read, so these are not modelled.
- The catalog with no series renders the series prompt with no buttons, since that is what `start` does. No separate "empty catalog" message is modelled.
