/**
 The callback "protocol" of the inline buttons and the four patterns that select
 which handler a tapped button's callback string is offered to.

 The bot framework tests a pattern with Python's `re.match`, which is anchored at
 the start of the string but not at its end, and in which `.` does not match a
 newline and `$` also matches just before a final newline. Each predicate below
 states what its pattern accepts under those rules.
 */
module Callbacks {
  import opened Strings

  /** Separates the two fields of a season or play callback. */
  const Delimiter: char := '|'

  /** The reserved callback of the "back to the series list" button. */
  const BackToken: string := "indietro"

  /**
   The callback of the button that opens a season: `f"{serie_id}|{stagione}"`.
   Field 0 of its split is the series id whenever that id holds no `|`, whatever the
   season name holds.
   */
  function SeasonCallback(seriesId: string, season: string): (c: string)
    ensures Delimiter in c
    ensures Delimiter !in seriesId ==> Split(c, Delimiter)[0] == seriesId
  {
    var c := seriesId + [Delimiter] + season;
    assert Delimiter !in seriesId ==> Split(c, Delimiter)[0] == seriesId by {
      if Delimiter !in seriesId {
        SplitAfterPrefix(seriesId, season, Delimiter);
      }
    }
    c
  }

  /**
   The callback of the button that plays an episode: `f"play|{file_id}"`. It always
   has a field 1, and its field 0 is always "play".
   */
  function PlayCallback(fileId: string): (c: string)
    ensures |Split(c, Delimiter)| >= 2
    ensures Split(c, Delimiter)[0] == "play"
  {
    SplitAfterPrefix("play", fileId, Delimiter);
    "play" + [Delimiter] + fileId
  }

  /** `^indietro$` (the back handler); among newline-free strings it accepts `indietro` alone. */
  predicate BackPattern(c: string): (ok: bool)
    ensures ok ==> Delimiter !in c && StartsWith(c, BackToken)
    ensures '\n' !in c ==> (ok <==> c == BackToken)
  {
    assert (BackToken + "\n")[8] == '\n';
    assert (BackToken + "\n")[..8] == BackToken;
    c == BackToken || c == BackToken + "\n"
  }

  /** `^play\|` (the play handler): the string has a field 1 and its field 0 is "play". */
  predicate PlayPattern(c: string): (ok: bool)
    ensures ok ==> |Split(c, Delimiter)| >= 2 && Split(c, Delimiter)[0] == "play"
  {
    if StartsWith(c, "play|") then
      assert c == "play" + [Delimiter] + c[5..];
      SplitAfterPrefix("play", c[5..], Delimiter);
      true
    else false
  }

  /**
   `^(?!play|indietro).*` (the seasons handler): neither reserved word begins `c`;
   so it rejects everything the play and back patterns accept.
   */
  predicate SeasonsPattern(c: string): (ok: bool)
    ensures ok ==> !PlayPattern(c) && !BackPattern(c)
  {
    assert StartsWith(c, "play|") ==> c[..4] == "play";
    !StartsWith(c, "play") && !StartsWith(c, BackToken)
  }

  /**
   `.*\|.*` (the episodes handler): a `|` occurs before any newline. Among
   newline-free strings it accepts exactly those containing `|`.
   */
  predicate EpisodesPattern(c: string): (ok: bool)
    ensures ok ==> Delimiter in c
    ensures '\n' !in c ==> (ok <==> Delimiter in c)
  {
    exists i :: 0 <= i < |c| && c[i] == Delimiter && '\n' !in c[..i]
  }

  /** A season callback splits back into the series id and the season name. */
  lemma SeasonCallbackRoundTrip(seriesId: string, season: string)
    requires Delimiter !in seriesId && Delimiter !in season
    ensures Split(SeasonCallback(seriesId, season), Delimiter) == [seriesId, season]
  {
    var fields := [seriesId, season];
    assert fields[1..] == [season];
    assert Join(fields, Delimiter) == SeasonCallback(seriesId, season);
    SplitJoin(fields, Delimiter);
  }

  /** Field 1 of a play callback is the file id it was built from. */
  lemma PlayCallbackRoundTrip(fileId: string)
    requires Delimiter !in fileId
    ensures Split(PlayCallback(fileId), Delimiter) == ["play", fileId]
  {
    var fields := ["play", fileId];
    assert fields[1..] == [fileId];
    assert Join(fields, Delimiter) == PlayCallback(fileId);
    SplitJoin(fields, Delimiter);
  }

  /**
   Without the restriction on the delimiter the encoding is ambiguous: two
   different (series, season) pairs produce the same callback.
   */
  lemma SeasonCallbackAmbiguous()
    ensures SeasonCallback("a|b", "c") == SeasonCallback("a", "b|c")
  {
  }

  /** Whatever the episodes or play pattern accepts splits into at least two fields. */
  lemma PatternsGuaranteeSecondField(c: string)
    requires EpisodesPattern(c) || PlayPattern(c)
    ensures |Split(c, Delimiter)| >= 2
  {
    if PlayPattern(c) {
      assert c[4] == Delimiter;
    }
  }

  /** Whatever the back pattern accepts, no other pattern accepts. */
  lemma BackPatternExclusive(c: string)
    ensures BackPattern(c) ==> !SeasonsPattern(c) && !EpisodesPattern(c) && !PlayPattern(c)
  {
    if BackPattern(c) {
      assert c[..8] == BackToken;
      assert c[0] == 'i';
    }
  }

  /**
   A season callback built from a series id that the seasons pattern accepts is
   accepted both by the seasons pattern and by the episodes pattern, and by neither
   of the other two.
   */
  lemma SeasonCallbackOverlap(seriesId: string, season: string)
    requires SeasonsPattern(seriesId) && '\n' !in seriesId
    ensures var c := SeasonCallback(seriesId, season);
      SeasonsPattern(c) && EpisodesPattern(c) && !PlayPattern(c) && !BackPattern(c)
  {
    var c := SeasonCallback(seriesId, season);
    var n := |seriesId|;
    assert c[n] == Delimiter && c[..n] == seriesId;
    if n >= 4 {
      assert c[..4] == seriesId[..4];
    } else {
      assert c[n] != "play"[n];
    }
    if n >= 8 {
      assert c[..8] == seriesId[..8];
    } else {
      assert c[n] != BackToken[n];
    }
    BackPatternExclusive(c);
  }

  /**
   A play callback is accepted both by the episodes pattern and by the play
   pattern, and by neither of the other two.
   */
  lemma PlayCallbackOverlap(fileId: string)
    ensures var c := PlayCallback(fileId);
      EpisodesPattern(c) && PlayPattern(c) && !SeasonsPattern(c) && !BackPattern(c)
  {
    var c := PlayCallback(fileId);
    assert c[..5] == "play|";
    assert c[4] == Delimiter && '\n' !in c[..4];
    BackPatternExclusive(c);
  }

  /** The back token is accepted by the back pattern only. */
  lemma BackTokenRouting()
    ensures BackPattern(BackToken)
    ensures !SeasonsPattern(BackToken) && !EpisodesPattern(BackToken) && !PlayPattern(BackToken)
  {
    BackPatternExclusive(BackToken);
  }
}
