/** The two load procedures of the job: the song file (songs, then
    artists) and the log file (time, then users, then the songplay loop).
    Each insert loop is a method whose result is tied to Batches.RunAll;
    the lemmas here say what each loop leaves in its table. The songplay
    loop is modelled as the code is written; a separate, clearly labelled
    variant gives the behaviour the job was meant to have. */
module Etl {
  import opened Common
  import opened Records
  import opened Schema
  import opened Batches

  /** Positions of the rows at which the database fails for a reason
      outside the model, per loop of the song file. */
  datatype SongFileFaults = SongFileFaults(songs: set<nat>, artists: set<nat>)

  /** The same for the log file: time rows, user rows, song lookups and
      songplay inserts, by position in their lists. */
  datatype LogFileFaults = LogFileFaults(times: set<nat>, users: set<nat>, lookups: set<nat>, songplays: set<nat>)

  /** The upsert of a user row and the insert of an artist row never fail
      on their own: their conflict clauses absorb duplicate keys. */
  function UserStep(users: UserTable, row: UserRow): Option<UserTable> {
    Some(UserUpserted(users, row))
  }

  function ArtistStep(artists: ArtistTable, row: ArtistRow): Option<ArtistTable> {
    Some(ArtistInserted(artists, row))
  }

  // ---------------------------------------------------------------------
  // What the loops leave in their tables
  // ---------------------------------------------------------------------

  /** Without faults the user loop upserts every row in order. */
  lemma {:induction false} UserRunIsFold(users: UserTable, rows: seq<UserRow>, faults: set<nat>)
    requires forall i :: 0 <= i < |rows| ==> i !in faults
    ensures RunAll(users, rows, faults, UserStep) == Run(UpsertUsers(users, rows), None)
    decreases |rows|
  {
    if rows != [] {
      UserRunIsFold(users, rows[..|rows| - 1], faults);
    }
  }

  /** Without faults the artist loop inserts every row in order. */
  lemma {:induction false} ArtistRunIsFold(artists: ArtistTable, rows: seq<ArtistRow>, faults: set<nat>)
    requires forall i :: 0 <= i < |rows| ==> i !in faults
    ensures RunAll(artists, rows, faults, ArtistStep) == Run(InsertArtists(artists, rows), None)
    decreases |rows|
  {
    if rows != [] {
      ArtistRunIsFold(artists, rows[..|rows| - 1], faults);
    }
  }

  /** After a song loop that went through, every row's song_id is in the
      table. */
  lemma {:induction false} SongRunKeys(songs: SongTable, rows: seq<SongRow>, faults: set<nat>, i: nat)
    requires RunAll(songs, rows, faults, SongInserted).failedAt.None?
    requires i < |rows|
    ensures rows[i].songId in RunAll(songs, rows, faults, SongInserted).table
    decreases |rows|
  {
    var n := |rows| - 1;
    if i < n {
      SongRunKeys(songs, rows[..n], faults, i);
    }
  }

  /** The song_ids of the rows. */
  function SongIds(rows: seq<SongRow>): set<string>
    decreases |rows|
  {
    if rows == [] then {} else SongIds(rows[..|rows| - 1]) + {rows[|rows| - 1].songId}
  }

  /** An id is among the rows' song_ids exactly when some row carries it. */
  lemma {:induction false} SongIdsSpec(rows: seq<SongRow>)
    ensures forall id :: id in SongIds(rows) <==> exists i :: 0 <= i < |rows| && rows[i].songId == id
    decreases |rows|
  {
    if rows != [] {
      var n := |rows| - 1;
      var pre := rows[..n];
      SongIdsSpec(pre);
      forall id ensures id in SongIds(rows) <==> exists i :: 0 <= i < |rows| && rows[i].songId == id {
        if exists i :: 0 <= i < |pre| && pre[i].songId == id {
          var i :| 0 <= i < |pre| && pre[i].songId == id;
          assert rows[i].songId == id;
        }
        if exists i :: 0 <= i < |rows| && rows[i].songId == id {
          var i :| 0 <= i < |rows| && rows[i].songId == id;
          if i < n {
            assert pre[i].songId == id;
          }
        }
      }
    }
  }

  /** Without faults, rows whose song_ids are new and pairwise distinct all
      go in: the table ends with exactly the old songs and the new ids. */
  lemma {:induction false} SongRunDistinct(songs: SongTable, rows: seq<SongRow>, faults: set<nat>)
    requires forall i :: 0 <= i < |rows| ==> i !in faults && rows[i].songId !in songs
    requires forall i, j :: 0 <= i < j < |rows| ==> rows[i].songId != rows[j].songId
    ensures var r := RunAll(songs, rows, faults, SongInserted);
      r.failedAt.None? && r.table.Keys == songs.Keys + SongIds(rows)
    decreases |rows|
  {
    if rows != [] {
      var n := |rows| - 1;
      var pre := rows[..n];
      SongRunDistinct(songs, pre, faults);
      SongIdsSpec(pre);
      forall i | 0 <= i < |pre| ensures pre[i].songId != rows[n].songId {
        assert pre[i] == rows[i];
      }
    }
  }

  /** The songs table t holds exactly the old songs, unchanged, and one row
      per song row, under a song_id that was not among the old songs. */
  ghost predicate SongsLoaded(songs: SongTable, rows: seq<SongRow>, t: SongTable) {
    && (forall id :: id in songs ==> id in t && t[id] == songs[id])
    && (forall i :: 0 <= i < |rows| ==>
          rows[i].songId !in songs
          && rows[i].songId in t
          && t[rows[i].songId] == SongInfo(rows[i].title, rows[i].artistId, rows[i].year, rows[i].duration))
    && (forall id :: id in t ==> id in songs || exists i :: 0 <= i < |rows| && rows[i].songId == id)
  }

  /** One successful song insert extends what the loop has loaded by its row. */
  lemma SongsLoadedStep(songs: SongTable, pre: seq<SongRow>, row: SongRow, p: SongTable, t: SongTable)
    requires SongsLoaded(songs, pre, p)
    requires SongInserted(p, row) == Some(t)
    ensures SongsLoaded(songs, pre + [row], t)
  {
    var rows := pre + [row];
    forall i | 0 <= i < |pre|
      ensures rows[i].songId !in songs && rows[i].songId in t
      ensures t[rows[i].songId] == SongInfo(rows[i].title, rows[i].artistId, rows[i].year, rows[i].duration)
    {
      assert rows[i] == pre[i];
    }
    forall id | id in t ensures id in songs || exists i :: 0 <= i < |rows| && rows[i].songId == id {
      if id == row.songId {
        assert rows[|pre|].songId == id;
      } else if id !in songs {
        var i :| 0 <= i < |pre| && pre[i].songId == id;
        assert rows[i].songId == id;
      }
    }
    assert rows[|pre|] == row;
  }

  /** A song loop that goes through leaves exactly the old songs, unchanged,
      and one row per inserted song: each row's song_id was new and now
      holds that row's fields. */
  lemma {:induction false} SongRunContents(songs: SongTable, rows: seq<SongRow>, faults: set<nat>)
    requires RunAll(songs, rows, faults, SongInserted).failedAt.None?
    ensures SongsLoaded(songs, rows, RunAll(songs, rows, faults, SongInserted).table)
    decreases |rows|
  {
    if rows != [] {
      var n := |rows| - 1;
      var pre := rows[..n];
      SongRunContents(songs, pre, faults);
      var p := RunAll(songs, pre, faults, SongInserted).table;
      var t := RunAll(songs, rows, faults, SongInserted).table;
      assert SongInserted(p, rows[n]) == Some(t);
      SongsLoadedStep(songs, pre, rows[n], p, t);
      assert pre + [rows[n]] == rows;
    } else {
      assert SongsLoaded(songs, rows, songs);
    }
  }

  /** A song_id that repeats within the rows is a primary-key error at the
      latest at its second occurrence, and that error ends the loop. */
  lemma SongRunDuplicateFails(songs: SongTable, rows: seq<SongRow>, faults: set<nat>, i: nat, j: nat)
    requires i < j < |rows| && rows[i].songId == rows[j].songId
    ensures var r := RunAll(songs, rows, faults, SongInserted);
      r.failedAt.Some? && r.failedAt.value <= j
  {
    var pre := rows[..j + 1];
    if RunAll(songs, rows[..j], faults, SongInserted).failedAt.None? {
      SongRunKeys(songs, rows[..j], faults, i);
      assert pre[..j] == rows[..j];
    } else {
      assert pre[..j] == rows[..j];
    }
    assert rows == pre + rows[j + 1..];
    RunAllStopsAtFailure(songs, pre, rows[j + 1..], faults, SongInserted);
  }

  /** Every row of the time table is the time row of its key. */
  ghost predicate TimesConsistent(times: TimeTable) {
    forall k :: k in times ==> times[k] == TimeOf(k)
  }

  /** Whatever happens in the time loop, the table keeps holding the time
      row of each of its keys. */
  lemma {:induction false} TimeRunConsistent(times: TimeTable, es: seq<Event>, faults: set<nat>)
    requires TimesConsistent(times)
    ensures TimesConsistent(RunAll(times, TimeEntries(es), faults, TimeInserted).table)
    decreases |es|
  {
    if es != [] {
      var n := |es| - 1;
      var pre := es[..n];
      assert TimeEntries(es)[..n] == TimeEntries(pre);
      TimeRunConsistent(times, pre, faults);
    }
  }

  /** Without faults, and with no NaT entry, the time loop goes through and
      the table gains exactly the start times of the entries, repeated ones
      once. */
  lemma {:induction false} TimeRunKeys(times: TimeTable, entries: seq<TimeEntry>, faults: set<nat>)
    requires forall i :: 0 <= i < |entries| ==> i !in faults && entries[i].At?
    ensures var r := RunAll(times, entries, faults, TimeInserted);
      && r.failedAt.None?
      && forall k :: k in r.table <==> k in times || exists i :: 0 <= i < |entries| && entries[i].row.start == k
    decreases |entries|
  {
    if entries != [] {
      var n := |entries| - 1;
      var pre := entries[..n];
      TimeRunKeys(times, pre, faults);
      var r := RunAll(times, entries, faults, TimeInserted);
      forall k ensures k in r.table <==> k in times || exists i :: 0 <= i < |entries| && entries[i].row.start == k {
        if exists i :: 0 <= i < |pre| && pre[i].row.start == k {
          var i :| 0 <= i < |pre| && pre[i].row.start == k;
          assert entries[i].row.start == k;
        }
        if exists i :: 0 <= i < |entries| && entries[i].row.start == k {
          var i :| 0 <= i < |entries| && entries[i].row.start == k;
          if i < n {
            assert pre[i].row.start == k;
          }
        }
      }
    }
  }

  /** The time insert of a NaT entry is refused, so the time loop stops
      there at the latest. */
  lemma TimeRunStopsAtNaT(times: TimeTable, entries: seq<TimeEntry>, faults: set<nat>, j: nat)
    requires j < |entries| && entries[j].NaT?
    ensures var r := RunAll(times, entries, faults, TimeInserted);
      r.failedAt.Some? && r.failedAt.value <= j
  {
    var pre := entries[..j + 1];
    assert pre[..j] == entries[..j];
    assert entries == pre + entries[j + 1..];
    RunAllStopsAtFailure(times, pre, entries[j + 1..], faults, TimeInserted);
  }

  /** For the time entries of a log: without faults and with every event
      timestamped, the loop goes through and the table gains exactly the
      events' timestamps, each with its time row; an event without a
      timestamp stops the loop at the latest at its position. */
  lemma TimeLoadSpec(times: TimeTable, es: seq<Event>, faults: set<nat>)
    requires TimesConsistent(times)
    ensures var r := RunAll(times, TimeEntries(es), faults, TimeInserted);
      && TimesConsistent(r.table)
      && ((forall i :: 0 <= i < |es| ==> i !in faults && es[i].ts.Some?) ==>
            r.failedAt.None? && forall k :: k in r.table <==> k in times || exists i :: 0 <= i < |es| && es[i].ts == Some(k))
      && (forall j :: 0 <= j < |es| && es[j].ts.None? ==> r.failedAt.Some? && r.failedAt.value <= j)
  {
    var entries := TimeEntries(es);
    TimeRunConsistent(times, es, faults);
    forall i | 0 <= i < |es| ensures entries[i].At? <==> es[i].ts.Some?
      ensures es[i].ts.Some? ==> entries[i].row.start == es[i].ts.value
    {
      if es[i].ts.Some? {
        assert TimeOf(es[i].ts.value).start == es[i].ts.value;
      }
    }
    if forall i :: 0 <= i < |es| ==> i !in faults && es[i].ts.Some? {
      TimeRunKeys(times, entries, faults);
    }
    forall j | 0 <= j < |es| && es[j].ts.None?
      ensures RunAll(times, entries, faults, TimeInserted).failedAt.Some?
      ensures RunAll(times, entries, faults, TimeInserted).failedAt.value <= j
    {
      TimeRunStopsAtNaT(times, entries, faults, j);
    }
  }

  // ---------------------------------------------------------------------
  // The insert loops
  // ---------------------------------------------------------------------

  method LoadSongs(store: Store, rows: seq<SongRow>, faults: set<nat>) returns (failedAt: Option<nat>)
    requires store.Valid()
    modifies store`songs
    ensures store.Valid()
    ensures RunAll(old(store.songs), rows, faults, SongInserted) == Run(store.songs, failedAt)
  {
    var i := 0;
    while i < |rows|
      invariant store.Valid()
      invariant 0 <= i <= |rows|
      invariant RunAll(old(store.songs), rows[..i], faults, SongInserted) == Run(store.songs, None)
    {
      var ok := store.InsertSong(rows[i], i in faults);
      assert rows[..i + 1][..i] == rows[..i];
      if !ok {
        assert rows == rows[..i + 1] + rows[i + 1..];
        RunAllStopsAtFailure(old(store.songs), rows[..i + 1], rows[i + 1..], faults, SongInserted);
        return Some(i);
      }
      i := i + 1;
    }
    assert rows[..i] == rows;
    return None;
  }

  method LoadArtists(store: Store, rows: seq<ArtistRow>, faults: set<nat>) returns (failedAt: Option<nat>)
    requires store.Valid()
    modifies store`artists
    ensures store.Valid()
    ensures RunAll(old(store.artists), rows, faults, ArtistStep) == Run(store.artists, failedAt)
  {
    var i := 0;
    while i < |rows|
      invariant store.Valid()
      invariant 0 <= i <= |rows|
      invariant RunAll(old(store.artists), rows[..i], faults, ArtistStep) == Run(store.artists, None)
    {
      var ok := store.InsertArtist(rows[i], i in faults);
      assert rows[..i + 1][..i] == rows[..i];
      if !ok {
        assert rows == rows[..i + 1] + rows[i + 1..];
        RunAllStopsAtFailure(old(store.artists), rows[..i + 1], rows[i + 1..], faults, ArtistStep);
        return Some(i);
      }
      i := i + 1;
    }
    assert rows[..i] == rows;
    return None;
  }

  method LoadTimes(store: Store, entries: seq<TimeEntry>, faults: set<nat>) returns (failedAt: Option<nat>)
    requires store.Valid()
    modifies store`times
    ensures store.Valid()
    ensures RunAll(old(store.times), entries, faults, TimeInserted) == Run(store.times, failedAt)
  {
    var i := 0;
    while i < |entries|
      invariant store.Valid()
      invariant 0 <= i <= |entries|
      invariant RunAll(old(store.times), entries[..i], faults, TimeInserted) == Run(store.times, None)
    {
      var ok := store.InsertTime(entries[i], i in faults);
      assert entries[..i + 1][..i] == entries[..i];
      if !ok {
        assert entries == entries[..i + 1] + entries[i + 1..];
        RunAllStopsAtFailure(old(store.times), entries[..i + 1], entries[i + 1..], faults, TimeInserted);
        return Some(i);
      }
      i := i + 1;
    }
    assert entries[..i] == entries;
    return None;
  }

  method LoadUsers(store: Store, rows: seq<UserRow>, faults: set<nat>) returns (failedAt: Option<nat>)
    requires store.Valid()
    modifies store`users
    ensures store.Valid()
    ensures RunAll(old(store.users), rows, faults, UserStep) == Run(store.users, failedAt)
  {
    var i := 0;
    while i < |rows|
      invariant store.Valid()
      invariant 0 <= i <= |rows|
      invariant RunAll(old(store.users), rows[..i], faults, UserStep) == Run(store.users, None)
    {
      var ok := store.UpsertUser(rows[i], i in faults);
      assert rows[..i + 1][..i] == rows[..i];
      if !ok {
        assert rows == rows[..i + 1] + rows[i + 1..];
        RunAllStopsAtFailure(old(store.users), rows[..i + 1], rows[i + 1..], faults, UserStep);
        return Some(i);
      }
      i := i + 1;
    }
    assert rows[..i] == rows;
    return None;
  }

  /** process_song_file: clean the records, insert the song rows, then the
      artist rows. The artist loop runs whatever happened to the song loop.
      An empty record list makes a frame without columns, and reading its
      song_id column raises KeyError before any statement is sent: keyError,
      with the tables unchanged. */
  method ProcessSongFile(store: Store, recs: seq<SongRecord>, faults: SongFileFaults)
    returns (keyError: bool, songsFailedAt: Option<nat>, artistsFailedAt: Option<nat>)
    requires store.Valid()
    modifies store`songs, store`artists
    ensures store.Valid()
    ensures keyError <==> recs == []
    ensures keyError ==> store.songs == old(store.songs) && store.artists == old(store.artists)
    ensures RunAll(old(store.songs), SongRows(recs), faults.songs, SongInserted) == Run(store.songs, songsFailedAt)
    ensures RunAll(old(store.artists), ArtistRows(recs), faults.artists, ArtistStep) == Run(store.artists, artistsFailedAt)
  {
    if recs == [] {
      assert SongRows(recs) == [] && ArtistRows(recs) == [];
      return true, None, None;
    }
    keyError := false;
    songsFailedAt := LoadSongs(store, SongRows(recs), faults.songs);
    artistsFailedAt := LoadArtists(store, ArtistRows(recs), faults.artists);
  }

  // ---------------------------------------------------------------------
  // The songplay loop, as written
  // ---------------------------------------------------------------------

  /** The rows song_select returns for a candidate's song, artist and length. */
  function Lookup(songs: SongTable, artists: ArtistTable, c: Candidate): set<(string, string)> {
    SongSelect(songs, artists, c.song, c.artist, c.length)
  }

  /** What fetchone() may have returned for a candidate. */
  predicate Fetched(songs: SongTable, artists: ArtistTable, c: Candidate, results: Option<(string, string)>) {
    (results.None? <==> Lookup(songs, artists, c) == {})
    && (results.Some? ==> results.value in Lookup(songs, artists, c))
  }

  /** The fact row for a candidate with the given keys. */
  function FactOf(c: Candidate, songId: Option<string>, artistId: Option<string>): Songplay {
    Songplay(c.start, c.userId, c.level, songId, artistId, c.sessionId, c.location, c.userAgent)
  }

  datatype SongplayOutcome =
    | LoopCompleted                        // no lookup raised: nothing was inserted
    | ResultsUnbound                       // the very first lookup raised, before results was ever set
    | LookupFailed(at: nat, inserted: bool) // the lookup of row at raised; inserted: the except branch inserted a fact

  /** The effect of the loop as written. Only the except branch of the
      lookup inserts, and the try is around the whole loop, so:
      - when no lookup raises, nothing is inserted;
      - when the first lookup raises, results is not yet bound: an error;
      - when the lookup of row j > 0 raises, the loop ends there, and if
        row j-1's lookup had found a song (and the insert does not fail),
        one fact is inserted: row j's fields with row j-1's keys. */
  ghost predicate AsWritten(songs: SongTable, artists: ArtistTable, cands: seq<Candidate>, lookups: set<nat>,
                            inserts: set<nat>, plays0: SongplayTable, serial0: nat, plays: SongplayTable, serial: nat,
                            outcome: SongplayOutcome)
  {
    match FirstIn(lookups, |cands|)
    case None => outcome == LoopCompleted && plays == plays0 && serial == serial0
    case Some(j) =>
      if j == 0 then outcome == ResultsUnbound && plays == plays0 && serial == serial0
      else
        var matches := Lookup(songs, artists, cands[j - 1]);
        && outcome == LookupFailed(j, matches != {} && j !in inserts)
        && if outcome.inserted then
             && serial == serial0 + 1 && serial0 !in plays0
             && serial0 in plays && plays == plays0[serial0 := plays[serial0]]
             && var p := plays[serial0];
             && p.songId.Some? && p.artistId.Some? && (p.songId.value, p.artistId.value) in matches
             && p == FactOf(cands[j], p.songId, p.artistId)
           else plays == plays0 && serial == serial0
  }

  method ResolveSongplaysAsWritten(store: Store, cands: seq<Candidate>, lookups: set<nat>, inserts: set<nat>)
    returns (outcome: SongplayOutcome)
    requires store.Valid()
    modifies store`songplays, store`serial
    ensures store.Valid()
    ensures AsWritten(store.songs, store.artists, cands, lookups, inserts,
                      old(store.songplays), old(store.serial), store.songplays, store.serial, outcome)
  {
    var bound := false;
    var results: Option<(string, string)> := None;
    var i := 0;
    while i < |cands|
      invariant 0 <= i <= |cands|
      invariant FirstIn(lookups, i) == None
      invariant bound <==> i > 0
      invariant bound ==> Fetched(store.songs, store.artists, cands[i - 1], results)
      invariant store.songplays == old(store.songplays) && store.serial == old(store.serial)
    {
      if i in lookups {
        // the except branch
        if !bound {
          return ResultsUnbound;
        }
        var inserted := false;
        if results.Some? {
          var (songId, artistId) := results.value;
          inserted := store.InsertSongplay(FactOf(cands[i], Some(songId), Some(artistId)), i in inserts);
        }
        return LookupFailed(i, inserted);
      }
      results := store.FetchSong(cands[i].song, cands[i].artist, cands[i].length);
      bound := true;
      i := i + 1;
    }
    return LoopCompleted;
  }

  /** If no lookup raises, the loop as written inserts no songplay row. */
  lemma NoLookupErrorNoFacts(songs: SongTable, artists: ArtistTable, cands: seq<Candidate>, lookups: set<nat>,
                             inserts: set<nat>, plays0: SongplayTable, serial0: nat, plays: SongplayTable,
                             serial: nat, outcome: SongplayOutcome)
    requires AsWritten(songs, artists, cands, lookups, inserts, plays0, serial0, plays, serial, outcome)
    requires forall i :: 0 <= i < |cands| ==> i !in lookups
    ensures outcome == LoopCompleted && plays == plays0
  {
  }

  /** The loop as written inserts at most one songplay row, whatever the
      input. */
  lemma AtMostOneFact(songs: SongTable, artists: ArtistTable, cands: seq<Candidate>, lookups: set<nat>,
                      inserts: set<nat>, plays0: SongplayTable, serial0: nat, plays: SongplayTable,
                      serial: nat, outcome: SongplayOutcome)
    requires AsWritten(songs, artists, cands, lookups, inserts, plays0, serial0, plays, serial, outcome)
    ensures |plays| <= |plays0| + 1
    ensures plays0.Keys <= plays.Keys
  {
  }

  /** process_log_file as written: the time rows of all events, then the
      user rows of the cleaned events, then the songplay loop over them. An
      empty log makes a frame without columns, and reading its ts column
      raises KeyError before any statement is sent: keyError, with the
      tables unchanged (the other results are then those of an empty run). */
  method ProcessLogFile(store: Store, es: seq<Event>, faults: LogFileFaults)
    returns (keyError: bool, timesFailedAt: Option<nat>, usersFailedAt: Option<nat>, songplays: SongplayOutcome)
    requires store.Valid()
    modifies store`times, store`users, store`songplays, store`serial
    ensures store.Valid()
    ensures keyError <==> es == []
    ensures keyError ==> store.times == old(store.times) && store.users == old(store.users)
                         && store.songplays == old(store.songplays) && store.serial == old(store.serial)
    ensures RunAll(old(store.times), TimeEntries(es), faults.times, TimeInserted) == Run(store.times, timesFailedAt)
    ensures RunAll(old(store.users), UserRows(es), faults.users, UserStep) == Run(store.users, usersFailedAt)
    ensures AsWritten(store.songs, store.artists, Candidates(es), faults.lookups, faults.songplays,
                      old(store.songplays), old(store.serial), store.songplays, store.serial, songplays)
  {
    if es == [] {
      assert TimeEntries(es) == [] && UserRows(es) == [] && Candidates(es) == [];
      return true, None, None, LoopCompleted;
    }
    keyError := false;
    timesFailedAt := LoadTimes(store, TimeEntries(es), faults.times);
    usersFailedAt := LoadUsers(store, UserRows(es), faults.users);
    songplays := ResolveSongplaysAsWritten(store, Candidates(es), faults.lookups, faults.songplays);
  }

  // ---------------------------------------------------------------------
  // Intended variant (not what the code does): one fact per cleaned event
  // ---------------------------------------------------------------------

  /** The fact row meant for candidate c: its own fields, with the keys of a
      song the lookup found, or NULL keys when the lookup raised or found
      nothing. */
  ghost predicate IntendedFact(songs: SongTable, artists: ArtistTable, c: Candidate, lookupFailed: bool, p: Songplay) {
    var matches := Lookup(songs, artists, c);
    && p == FactOf(c, p.songId, p.artistId)
    && (lookupFailed || matches == {} ==> p.songId.None? && p.artistId.None?)
    && (!lookupFailed && matches != {} ==>
          p.songId.Some? && p.artistId.Some? && (p.songId.value, p.artistId.value) in matches)
  }

  /** How many of the first k songplay inserts go through: those whose
      position is not in inserts. Each successful insert takes the next
      value of the sequence. */
  function Inserted(inserts: set<nat>, k: nat): (r: nat)
    ensures r <= k
    decreases k
  {
    if k == 0 then 0 else Inserted(inserts, k - 1) + if k - 1 in inserts then 0 else 1
  }

  /** A candidate whose insert goes through takes an id below that of every
      later one: the ids of the inserted rows are pairwise distinct. */
  lemma {:induction false} InsertedIncreasing(inserts: set<nat>, j: nat, k: nat)
    requires j < k && j !in inserts
    ensures Inserted(inserts, j) < Inserted(inserts, k)
    decreases k
  {
    if j < k - 1 {
      InsertedIncreasing(inserts, j, k - 1);
    }
  }

  /** Every id the first n inserts hand out belongs to one of them: the
      candidate at position k, not in inserts, with Inserted(inserts, k)
      earlier successful inserts. */
  lemma {:induction false} InsertedOnto(inserts: set<nat>, n: nat, m: nat)
    requires m < Inserted(inserts, n)
    ensures exists k :: 0 <= k < n && k !in inserts && Inserted(inserts, k) == m
    decreases n
  {
    if m < Inserted(inserts, n - 1) {
      InsertedOnto(inserts, n - 1, m);
      var k :| 0 <= k < n - 1 && k !in inserts && Inserted(inserts, k) == m;
    } else {
      assert n - 1 !in inserts && Inserted(inserts, n - 1) == m;
    }
  }

  /** The songplay_id the k-th candidate's insert takes, when it goes
      through: the sequence's value before the loop, plus the number of
      earlier inserts that went through. */
  ghost function SongplayIds(serial0: nat, inserts: set<nat>): nat -> nat {
    k => serial0 + Inserted(inserts, k)
  }

  /** Candidate k, unless its insert fails, has its intended fact row under
      the id ids(k). */
  ghost predicate FactAt(songs: SongTable, artists: ArtistTable, cands: seq<Candidate>, lookups: set<nat>,
                         inserts: set<nat>, plays: SongplayTable, ids: nat -> nat, k: nat)
    requires k < |cands|
  {
    k !in inserts ==> ids(k) in plays && IntendedFact(songs, artists, cands[k], k in lookups, plays[ids(k)])
  }

  /** Each of the first n candidates whose insert goes through has its
      intended fact row, under its id. */
  ghost predicate AllIntended(songs: SongTable, artists: ArtistTable, cands: seq<Candidate>, lookups: set<nat>,
                              inserts: set<nat>, plays: SongplayTable, ids: nat -> nat, n: nat)
    requires n <= |cands|
  {
    forall k: nat :: k < n ==> FactAt(songs, artists, cands, lookups, inserts, plays, ids, k)
  }

  /** Adding the intended row of candidate i under its id, which no earlier
      inserted candidate has, extends the intended rows by one and leaves the
      earlier ones as they were. */
  lemma AllIntendedAppend(songs: SongTable, artists: ArtistTable, cands: seq<Candidate>, lookups: set<nat>,
                          inserts: set<nat>, plays: SongplayTable, ids: nat -> nat, i: nat, p: Songplay)
    requires i < |cands| && i !in inserts && ids(i) !in plays
    requires forall k: nat :: k < i && k !in inserts ==> ids(k) != ids(i)
    requires AllIntended(songs, artists, cands, lookups, inserts, plays, ids, i)
    requires IntendedFact(songs, artists, cands[i], i in lookups, p)
    ensures AllIntended(songs, artists, cands, lookups, inserts, plays[ids(i) := p], ids, i + 1)
  {
    var plays' := plays[ids(i) := p];
    forall k: nat | k < i + 1
      ensures FactAt(songs, artists, cands, lookups, inserts, plays', ids, k)
    {
      if k < i {
        assert FactAt(songs, artists, cands, lookups, inserts, plays, ids, k);
      }
    }
  }

  /** A candidate whose insert fails adds no row, and the intended rows
      reach one candidate further. */
  lemma AllIntendedSkip(songs: SongTable, artists: ArtistTable, cands: seq<Candidate>, lookups: set<nat>,
                        inserts: set<nat>, plays: SongplayTable, ids: nat -> nat, i: nat)
    requires i < |cands| && i in inserts
    requires AllIntended(songs, artists, cands, lookups, inserts, plays, ids, i)
    ensures AllIntended(songs, artists, cands, lookups, inserts, plays, ids, i + 1)
  {
    assert FactAt(songs, artists, cands, lookups, inserts, plays, ids, i);
  }

  /** Every id the intended loop handed out holds the intended row of the
      candidate that took it: the new rows are exactly the facts of the
      candidates whose inserts went through, and nothing else. */
  lemma IntendedRowsOnly(songs: SongTable, artists: ArtistTable, cands: seq<Candidate>, lookups: set<nat>,
                         inserts: set<nat>, plays: SongplayTable, serial0: nat, id: nat)
    requires AllIntended(songs, artists, cands, lookups, inserts, plays, SongplayIds(serial0, inserts), |cands|)
    requires serial0 <= id < serial0 + Inserted(inserts, |cands|)
    ensures id in plays
    ensures exists k :: 0 <= k < |cands| && k !in inserts && id == serial0 + Inserted(inserts, k)
                        && IntendedFact(songs, artists, cands[k], k in lookups, plays[id])
  {
    InsertedOnto(inserts, |cands|, id - serial0);
    var k :| 0 <= k < |cands| && k !in inserts && Inserted(inserts, k) == id - serial0;
    assert FactAt(songs, artists, cands, lookups, inserts, plays, SongplayIds(serial0, inserts), k);
  }

  /** The songplay table after the intended loop has handled the first i
      candidates, starting from plays0 with the sequence at serial0: one new
      id per insert that went through, the old rows kept, and each inserted
      candidate's intended row under its id. */
  ghost predicate IntendedSoFar(songs: SongTable, artists: ArtistTable, cands: seq<Candidate>, lookups: set<nat>,
                                inserts: set<nat>, plays0: SongplayTable, serial0: nat,
                                plays: SongplayTable, serial: nat, i: nat)
    requires i <= |cands|
  {
    && serial == serial0 + Inserted(inserts, i)
    && (forall id :: id in plays <==> id in plays0 || serial0 <= id < serial)
    && (forall id :: id in plays0 ==> plays[id] == plays0[id])
    && AllIntended(songs, artists, cands, lookups, inserts, plays, SongplayIds(serial0, inserts), i)
  }

  /** The intended fact row for candidate c: the keys song_select returns,
      or NULL keys when the lookup raises or finds nothing. */
  method IntendedFactFor(store: Store, c: Candidate, lookupFailed: bool) returns (p: Songplay)
    ensures IntendedFact(store.songs, store.artists, c, lookupFailed, p)
  {
    var songId: Option<string> := None;
    var artistId: Option<string> := None;
    if !lookupFailed {
      var results := store.FetchSong(c.song, c.artist, c.length);
      if results.Some? {
        songId, artistId := Some(results.value.0), Some(results.value.1);
      }
    }
    p := FactOf(c, songId, artistId);
  }

  /** An insert that goes through puts its row under the sequence's next
      value, which was free: the ids handed out grow by one, and the old
      rows are kept. */
  lemma SongplayKeysInsert(inserts: set<nat>, plays0: SongplayTable, serial0: nat,
                           plays: SongplayTable, serial: nat, i: nat, p: Songplay)
    requires i !in inserts && serial !in plays
    requires serial == serial0 + Inserted(inserts, i)
    requires forall id :: id in plays <==> id in plays0 || serial0 <= id < serial
    requires forall id :: id in plays0 ==> plays[id] == plays0[id]
    ensures serial + 1 == serial0 + Inserted(inserts, i + 1)
    ensures forall id :: id in plays[serial := p] <==> id in plays0 || serial0 <= id < serial + 1
    ensures forall id :: id in plays0 ==> plays[serial := p][id] == plays0[id]
  {
  }

  /** Candidate i's insert goes through: its intended row lands under the
      sequence's next value, which is i's id. */
  lemma IntendedSoFarInsert(songs: SongTable, artists: ArtistTable, cands: seq<Candidate>, lookups: set<nat>,
                            inserts: set<nat>, plays0: SongplayTable, serial0: nat,
                            plays: SongplayTable, serial: nat, i: nat, p: Songplay)
    requires i < |cands| && i !in inserts && serial !in plays
    requires IntendedSoFar(songs, artists, cands, lookups, inserts, plays0, serial0, plays, serial, i)
    requires IntendedFact(songs, artists, cands[i], i in lookups, p)
    ensures IntendedSoFar(songs, artists, cands, lookups, inserts, plays0, serial0, plays[serial := p], serial + 1, i + 1)
  {
    var ids := SongplayIds(serial0, inserts);
    assert ids(i) == serial;
    forall k: nat | k < i && k !in inserts ensures ids(k) != ids(i) {
      InsertedIncreasing(inserts, k, i);
    }
    AllIntendedAppend(songs, artists, cands, lookups, inserts, plays, ids, i, p);
    SongplayKeysInsert(inserts, plays0, serial0, plays, serial, i, p);
  }

  /** Candidate i's insert fails: the table and the sequence stay as they
      were. */
  lemma IntendedSoFarSkip(songs: SongTable, artists: ArtistTable, cands: seq<Candidate>, lookups: set<nat>,
                          inserts: set<nat>, plays0: SongplayTable, serial0: nat,
                          plays: SongplayTable, serial: nat, i: nat)
    requires i < |cands| && i in inserts
    requires IntendedSoFar(songs, artists, cands, lookups, inserts, plays0, serial0, plays, serial, i)
    ensures IntendedSoFar(songs, artists, cands, lookups, inserts, plays0, serial0, plays, serial, i + 1)
  {
    assert Inserted(inserts, i + 1) == Inserted(inserts, i);
    AllIntendedSkip(songs, artists, cands, lookups, inserts, plays, SongplayIds(serial0, inserts), i);
  }

  /** INTENDED VARIANT. Every candidate yields exactly one fact row, under a
      fresh songplay_id, in order, unless its own insert fails: each insert
      has its own try, so a failed one skips only its row. The rows already
      there are unchanged. */
  method ResolveSongplaysIntended(store: Store, cands: seq<Candidate>, lookups: set<nat>, inserts: set<nat>)
    requires store.Valid()
    modifies store`songplays, store`serial
    ensures store.Valid()
    ensures store.serial == old(store.serial) + Inserted(inserts, |cands|)
    ensures forall id :: id in store.songplays <==> id in old(store.songplays) || old(store.serial) <= id < store.serial
    ensures forall id :: id in old(store.songplays) ==> store.songplays[id] == old(store.songplays)[id]
    ensures AllIntended(store.songs, store.artists, cands, lookups, inserts, store.songplays,
                        SongplayIds(old(store.serial), inserts), |cands|)
  {
    var i := 0;
    while i < |cands|
      invariant 0 <= i <= |cands|
      invariant store.Valid()
      invariant store.songs == old(store.songs) && store.artists == old(store.artists)
      invariant IntendedSoFar(store.songs, store.artists, cands, lookups, inserts, old(store.songplays), old(store.serial),
                              store.songplays, store.serial, i)
    {
      var p := IntendedFactFor(store, cands[i], i in lookups);
      ghost var plays, serial := store.songplays, store.serial;
      var ok := store.InsertSongplay(p, i in inserts);
      if ok {
        IntendedSoFarInsert(store.songs, store.artists, cands, lookups, inserts, old(store.songplays), old(store.serial),
                            plays, serial, i, p);
      } else {
        IntendedSoFarSkip(store.songs, store.artists, cands, lookups, inserts, old(store.songplays), old(store.serial),
                          plays, serial, i);
      }
      i := i + 1;
    }
  }

  /** INTENDED VARIANT of process_log_file: as written for the empty log
      and for the time and user rows, with the intended songplay loop. */
  method ProcessLogFileIntended(store: Store, es: seq<Event>, faults: LogFileFaults)
    returns (keyError: bool, timesFailedAt: Option<nat>, usersFailedAt: Option<nat>)
    requires store.Valid()
    modifies store`times, store`users, store`songplays, store`serial
    ensures store.Valid()
    ensures keyError <==> es == []
    ensures RunAll(old(store.times), TimeEntries(es), faults.times, TimeInserted) == Run(store.times, timesFailedAt)
    ensures RunAll(old(store.users), UserRows(es), faults.users, UserStep) == Run(store.users, usersFailedAt)
    ensures store.serial == old(store.serial) + Inserted(faults.songplays, |Candidates(es)|)
    ensures forall id :: id in store.songplays <==> id in old(store.songplays) || old(store.serial) <= id < store.serial
    ensures forall id :: id in old(store.songplays) ==> store.songplays[id] == old(store.songplays)[id]
    ensures AllIntended(store.songs, store.artists, Candidates(es), faults.lookups, faults.songplays, store.songplays,
                        SongplayIds(old(store.serial), faults.songplays), |Candidates(es)|)
  {
    if es == [] {
      assert TimeEntries(es) == [] && UserRows(es) == [] && Candidates(es) == [];
      return true, None, None;
    }
    keyError := false;
    timesFailedAt := LoadTimes(store, TimeEntries(es), faults.times);
    usersFailedAt := LoadUsers(store, UserRows(es), faults.users);
    var cands := Candidates(es);
    ResolveSongplaysIntended(store, cands, faults.lookups, faults.songplays);
  }

  // ---------------------------------------------------------------------
  // End-to-end: one song, one play of it
  // ---------------------------------------------------------------------

  const ScenarioSongId := "SOSITYK12A8C13765E"
  const ScenarioArtistId := "ARUKJUP12086C1411F"
  const ScenarioTitle := "Mother of All..."
  const ScenarioDuration: Float := 244.3

  function ScenarioSong(name: string): SongRecord {
    SongRecord(Some(ScenarioSongId), ScenarioTitle, Some(ScenarioArtistId), 0, ScenarioDuration, name, "", None, None)
  }

  /** A NextSong event by user at ts, playing title by the artist name. */
  function ScenarioEvent(user: string, ts: int, title: string, name: string): Event {
    Event(Some(ts), Some(user), "", "", "", "free", 1, "", "", Some(name), Some(title), Some(ScenarioDuration), "NextSong")
  }

  /** One song file holding one song, then one log file holding one play of
      that song by a named user, on an empty database, as the code is
      written: every dimension table gains its row, but songplays stays
      empty. */
  method ScenarioAsWritten(name: string, user: string, ts: int) returns (store: Store, outcome: SongplayOutcome)
    requires user != ""
    ensures outcome == LoopCompleted
    ensures store.songs == map[ScenarioSongId := SongInfo(ScenarioTitle, ScenarioArtistId, 0, ScenarioDuration)]
    ensures store.artists == map[ScenarioArtistId := ArtistInfo(name, "", None, None)]
    ensures store.users == map[user := UserInfo("", "", "", "free")]
    ensures store.times == map[ts := TimeOf(ts)]
    ensures store.songplays == map[]
  {
    store := new Store();
    ScenarioSongFile(store, name);
    var e := ScenarioEvent(user, ts, ScenarioTitle, name);
    SingleEventRows(e);
    RunAllSingle(map[], TimeEntryOf(e), {}, TimeInserted);
    RunAllSingle(map[], UserRowOf(e), {}, UserStep);
    var timesFailedAt, usersFailedAt;
    var keyError;
    keyError, timesFailedAt, usersFailedAt, outcome := ProcessLogFile(store, [e], LogFileFaults({}, {}, {}, {}));
  }

  /** Loads the one-song file into an empty store. */
  method ScenarioSongFile(store: Store, name: string)
    requires store.Valid() && store.songs == map[] && store.artists == map[]
    modifies store`songs, store`artists
    ensures store.Valid()
    ensures store.songs == map[ScenarioSongId := SongInfo(ScenarioTitle, ScenarioArtistId, 0, ScenarioDuration)]
    ensures store.artists == map[ScenarioArtistId := ArtistInfo(name, "", None, None)]
  {
    var r := ScenarioSong(name);
    SingleSongRows(r);
    RunAllSingle(map[], SongRowOf(r), {}, SongInserted);
    RunAllSingle(map[], ArtistRowOf(r), {}, ArtistStep);
    var keyError, songsFailedAt, artistsFailedAt := ProcessSongFile(store, [r], SongFileFaults({}, {}));
  }

  /** The same run with the intended songplay loop: the play becomes the one
      songplay row, with the song's keys exactly when the played title is the
      song's, and with NULL keys otherwise. */
  method ScenarioIntended(name: string, user: string, ts: int, title: string) returns (store: Store)
    requires user != ""
    ensures store.songplays.Keys == {1}
    ensures var p := store.songplays[1];
      && p.start == ts && p.userId == user
      && (p.songId == Some(ScenarioSongId) && p.artistId == Some(ScenarioArtistId) <==> title == ScenarioTitle)
      && (title != ScenarioTitle ==> p.songId.None? && p.artistId.None?)
  {
    store := new Store();
    ScenarioSongFile(store, name);
    var e := ScenarioEvent(user, ts, title, name);
    SingleEventRows(e);
    var keyError, timesFailedAt, usersFailedAt := ProcessLogFileIntended(store, [e], LogFileFaults({}, {}, {}, {}));
    assert Inserted({}, 1) == 1;
    SongSelectSpec(store.songs, store.artists, Some(title), Some(name), Some(ScenarioDuration),
                   ScenarioSongId, ScenarioArtistId);
    assert store.songplays.Keys == {1} by {
      forall id ensures id in store.songplays <==> id == 1 { }
    }
    assert FactAt(store.songs, store.artists, Candidates([e]), {}, {}, store.songplays, SongplayIds(1, {}), 0);
    var p := store.songplays[1];
    if p.songId.Some? && p.artistId.Some? && title == ScenarioTitle {
      SongSelectSpec(store.songs, store.artists, Some(title), Some(name), Some(ScenarioDuration),
                     p.songId.value, p.artistId.value);
    }
  }
}
