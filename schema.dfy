/** The star schema as an in-memory store: one map per table, keyed on the
    table's primary key, and the exact effect each insert statement has on
    its table, including its conflict rule. songplay's key is a serial
    counter. The song lookup is a pure query over the songs and artists
    tables. */
module Schema {
  import opened Common
  import opened Records

  // ---------------------------------------------------------------------
  // Tables (the primary key is the map key)
  // ---------------------------------------------------------------------

  datatype UserInfo = UserInfo(firstName: string, lastName: string, gender: string, level: string)
  type UserTable = map<string, UserInfo>

  datatype SongInfo = SongInfo(title: string, artistId: string, year: int, duration: Float)
  type SongTable = map<string, SongInfo>

  datatype ArtistInfo = ArtistInfo(name: string, location: string, latitude: Option<Float>, longitude: Option<Float>)
  type ArtistTable = map<string, ArtistInfo>

  /** Keyed on start_time; the row repeats its key. */
  type TimeTable = map<int, TimeRow>

  datatype Songplay = Songplay(
    start: int,
    userId: string,
    level: string,
    songId: Option<string>,
    artistId: Option<string>,
    sessionId: int,
    location: string,
    userAgent: string)
  type SongplayTable = map<nat, Songplay>

  // ---------------------------------------------------------------------
  // The insert statements
  // ---------------------------------------------------------------------

  /** users: INSERT ... ON CONFLICT (user_id) DO UPDATE SET level. */
  function UserUpserted(users: UserTable, row: UserRow): UserTable {
    if row.userId in users then users[row.userId := users[row.userId].(level := row.level)]
    else users[row.userId := UserInfo(row.firstName, row.lastName, row.gender, row.level)]
  }

  /** songs: a plain INSERT, so a song_id already in the table violates the
      primary key and the statement fails (None). */
  function SongInserted(songs: SongTable, row: SongRow): Option<SongTable> {
    if row.songId in songs then None
    else Some(songs[row.songId := SongInfo(row.title, row.artistId, row.year, row.duration)])
  }

  /** artists: INSERT ... ON CONFLICT (artist_id) DO NOTHING. */
  function ArtistInserted(artists: ArtistTable, row: ArtistRow): ArtistTable {
    if row.artistId in artists then artists
    else artists[row.artistId := ArtistInfo(row.name, row.location, row.latitude, row.longitude)]
  }

  /** time: INSERT ... ON CONFLICT (start_time) DO NOTHING. The insert of
      a row with a missing timestamp (NaT) is refused and the statement
      fails (None). */
  function TimeInserted(times: TimeTable, e: TimeEntry): Option<TimeTable> {
    match e
    case NaT => None
    case At(t) => Some(if t.start in times then times else times[t.start := t])
  }

  /** An upsert of an existing user_id replaces only its level, with the new
      value; a new user_id adds one row with all of the row's fields; every
      other user is left as it was. */
  lemma UserUpsertedSpec(users: UserTable, row: UserRow)
    ensures var u := UserUpserted(users, row);
      && u.Keys == users.Keys + {row.userId}
      && u[row.userId].level == row.level
      && (row.userId in users ==> u[row.userId] == users[row.userId].(level := row.level))
      && (row.userId !in users ==> u[row.userId] == UserInfo(row.firstName, row.lastName, row.gender, row.level))
      && forall id :: id in users && id != row.userId ==> u[id] == users[id]
  {
  }

  /** A song insert either fails, exactly when the song_id is taken, or adds
      exactly one row under the new song_id. */
  lemma SongInsertedSpec(songs: SongTable, row: SongRow)
    ensures SongInserted(songs, row).None? <==> row.songId in songs
    ensures SongInserted(songs, row).Some? ==>
      var s := SongInserted(songs, row).value;
      && s.Keys == songs.Keys + {row.songId} && |s| == |songs| + 1
      && s[row.songId] == SongInfo(row.title, row.artistId, row.year, row.duration)
      && forall id :: id in songs ==> s[id] == songs[id]
  {
  }

  /** Inserting an existing artist_id leaves the table as it is (the first
      write wins); a new artist_id adds exactly one row. */
  lemma ArtistInsertedSpec(artists: ArtistTable, row: ArtistRow)
    ensures row.artistId in artists ==> ArtistInserted(artists, row) == artists
    ensures row.artistId !in artists ==>
      var a := ArtistInserted(artists, row);
      && a.Keys == artists.Keys + {row.artistId} && |a| == |artists| + 1
      && a[row.artistId] == ArtistInfo(row.name, row.location, row.latitude, row.longitude)
      && forall id :: id in artists ==> a[id] == artists[id]
  {
  }

  /** Inserting the same time entry twice has the effect of inserting it
      once, and an existing start_time keeps its row. */
  lemma TimeInsertedIdempotent(times: TimeTable, e: TimeEntry)
    ensures TimeInserted(times, e).Some? ==> TimeInserted(TimeInserted(times, e).value, e) == TimeInserted(times, e)
    ensures e.At? && e.row.start in times ==> TimeInserted(times, e) == Some(times)
    ensures e.At? ==> var t := TimeInserted(times, e).value; e.row.start in t && t.Keys == times.Keys + {e.row.start}
    ensures e.At? && e.row.start !in times ==>
      var t := TimeInserted(times, e).value;
      t[e.row.start] == e.row && forall k :: k in times ==> t[k] == times[k]
  {
  }

  // ---------------------------------------------------------------------
  // Sequences of statements
  // ---------------------------------------------------------------------

  /** The user table after upserting rows in order. */
  function UpsertUsers(users: UserTable, rows: seq<UserRow>): UserTable
    decreases |rows|
  {
    if rows == [] then users
    else UserUpserted(UpsertUsers(users, rows[..|rows| - 1]), rows[|rows| - 1])
  }

  /** The row at position k of rows is the last one for its user_id. */
  ghost predicate LastFor(rows: seq<UserRow>, k: int) {
    0 <= k < |rows| && forall j :: k < j < |rows| ==> rows[j].userId != rows[k].userId
  }

  /** The row at position k of rows is the first one for its user_id. */
  ghost predicate FirstFor(rows: seq<UserRow>, k: int) {
    0 <= k < |rows| && forall j :: 0 <= j < k ==> rows[j].userId != rows[k].userId
  }

  /** After a sequence of upserts the table holds exactly the old users and
      the upserted ids. */
  lemma {:induction false} UpsertUsersKeys(users: UserTable, rows: seq<UserRow>, id: string)
    ensures id in UpsertUsers(users, rows) <==> id in users || exists k :: 0 <= k < |rows| && rows[k].userId == id
    decreases |rows|
  {
    if rows != [] {
      var n := |rows| - 1;
      var pre := rows[..n];
      UpsertUsersKeys(users, pre, id);
      if exists k :: 0 <= k < |rows| && rows[k].userId == id {
        var k :| 0 <= k < |rows| && rows[k].userId == id;
        if k < n {
          assert pre[k].userId == id;
        }
      }
    }
  }

  /** Each upserted user's level is the one of the last upsert for its id. */
  lemma {:induction false} UpsertUsersLastLevel(users: UserTable, rows: seq<UserRow>, k: int)
    requires LastFor(rows, k)
    ensures rows[k].userId in UpsertUsers(users, rows)
    ensures UpsertUsers(users, rows)[rows[k].userId].level == rows[k].level
    decreases |rows|
  {
    var n := |rows| - 1;
    if k < n {
      var pre := rows[..n];
      assert LastFor(pre, k);
      UpsertUsersLastLevel(users, pre, k);
    }
  }

  /** A user who was in the table before keeps its names and gender through
      any sequence of upserts. */
  lemma {:induction false} UpsertUsersKeepFields(users: UserTable, rows: seq<UserRow>, id: string)
    requires id in users
    ensures id in UpsertUsers(users, rows)
    ensures var i := UpsertUsers(users, rows)[id];
      i.firstName == users[id].firstName && i.lastName == users[id].lastName && i.gender == users[id].gender
    decreases |rows|
  {
    if rows != [] {
      UpsertUsersKeepFields(users, rows[..|rows| - 1], id);
    }
  }

  /** A new user has the names and gender of the first upsert for its id. */
  lemma {:induction false} UpsertUsersFirstFields(users: UserTable, rows: seq<UserRow>, k: int)
    requires FirstFor(rows, k) && rows[k].userId !in users
    ensures rows[k].userId in UpsertUsers(users, rows)
    ensures var i := UpsertUsers(users, rows)[rows[k].userId];
      i.firstName == rows[k].firstName && i.lastName == rows[k].lastName && i.gender == rows[k].gender
    decreases |rows|
  {
    var n := |rows| - 1;
    var pre := rows[..n];
    var id := rows[k].userId;
    if k < n {
      assert FirstFor(pre, k);
      UpsertUsersFirstFields(users, pre, k);
    } else {
      assert forall j :: 0 <= j < |pre| ==> pre[j].userId != id;
      UpsertUsersKeys(users, pre, id);
    }
  }

  /** A user that no row upserts is left exactly as it was. */
  lemma {:induction false} UpsertUsersUntouched(users: UserTable, rows: seq<UserRow>, id: string)
    requires id in users
    requires forall k :: 0 <= k < |rows| ==> rows[k].userId != id
    ensures id in UpsertUsers(users, rows) && UpsertUsers(users, rows)[id] == users[id]
    decreases |rows|
  {
    if rows != [] {
      var pre := rows[..|rows| - 1];
      assert forall k :: 0 <= k < |pre| ==> pre[k] == rows[k];
      UpsertUsersUntouched(users, pre, id);
    }
  }

  /** The artist table after inserting rows in order. */
  function InsertArtists(artists: ArtistTable, rows: seq<ArtistRow>): ArtistTable
    decreases |rows|
  {
    if rows == [] then artists
    else ArtistInserted(InsertArtists(artists, rows[..|rows| - 1]), rows[|rows| - 1])
  }

  /** After a sequence of artist inserts the table holds exactly the old
      artists and the inserted ids. */
  lemma {:induction false} InsertArtistsKeys(artists: ArtistTable, rows: seq<ArtistRow>, id: string)
    ensures id in InsertArtists(artists, rows) <==> id in artists || exists k :: 0 <= k < |rows| && rows[k].artistId == id
    decreases |rows|
  {
    if rows != [] {
      var n := |rows| - 1;
      var pre := rows[..n];
      InsertArtistsKeys(artists, pre, id);
      if exists k :: 0 <= k < |rows| && rows[k].artistId == id {
        var k :| 0 <= k < |rows| && rows[k].artistId == id;
        if k < n {
          assert pre[k].artistId == id;
        }
      }
    }
  }

  /** An artist that was in the table keeps its row whatever is inserted. */
  lemma {:induction false} InsertArtistsKeep(artists: ArtistTable, rows: seq<ArtistRow>, id: string)
    requires id in artists
    ensures id in InsertArtists(artists, rows) && InsertArtists(artists, rows)[id] == artists[id]
    decreases |rows|
  {
    if rows != [] {
      InsertArtistsKeep(artists, rows[..|rows| - 1], id);
    }
  }

  /** A new artist has the row of the first insert for its id: the first
      write wins. */
  lemma {:induction false} InsertArtistsFirstWins(artists: ArtistTable, rows: seq<ArtistRow>, k: int)
    requires 0 <= k < |rows| && rows[k].artistId !in artists
    requires forall j :: 0 <= j < k ==> rows[j].artistId != rows[k].artistId
    ensures rows[k].artistId in InsertArtists(artists, rows)
    ensures InsertArtists(artists, rows)[rows[k].artistId]
         == ArtistInfo(rows[k].name, rows[k].location, rows[k].latitude, rows[k].longitude)
    decreases |rows|
  {
    var n := |rows| - 1;
    var pre := rows[..n];
    var id := rows[k].artistId;
    if k < n {
      assert pre[k] == rows[k];
      assert forall j :: 0 <= j < k ==> pre[j] == rows[j];
      InsertArtistsFirstWins(artists, pre, k);
    } else {
      assert forall j :: 0 <= j < |pre| ==> pre[j] == rows[j];
      InsertArtistsKeys(artists, pre, id);
    }
  }

  // ---------------------------------------------------------------------
  // The song lookup
  // ---------------------------------------------------------------------

  /** One row of songs LEFT JOIN artists ON s.artist_id = a.artist_id: the
      song and, when there is one, the artist row with the song's
      artist_id (NULL columns otherwise). */
  datatype JoinRow = JoinRow(songId: string, song: SongInfo, artist: Option<(string, ArtistInfo)>)

  function LeftJoin(songs: SongTable, artists: ArtistTable): set<JoinRow> {
    set sid | sid in songs ::
      JoinRow(sid, songs[sid],
        if songs[sid].artistId in artists then Some((songs[sid].artistId, artists[songs[sid].artistId])) else None)
  }

  /** SQL's = in a WHERE clause: a NULL on either side is never a match. */
  predicate SqlEq<T(==)>(column: Option<T>, param: Option<T>) {
    column.Some? && param.Some? && column.value == param.value
  }

  function ArtistName(j: JoinRow): Option<string> {
    if j.artist.Some? then Some(j.artist.value.1.name) else None
  }

  /** song_select: the (song_id, artist_id) of the joined rows whose title,
      artist name and duration equal the parameters. The condition on the
      artist's name makes the outer join an inner one: a song whose artist
      is not in the artists table never matches, and the artist_id returned
      is always the song's own. */
  function SongSelect(songs: SongTable, artists: ArtistTable, title: Option<string>, name: Option<string>, duration: Option<Float>)
    : set<(string, string)>
  {
    set j | j in LeftJoin(songs, artists)
        && SqlEq(Some(j.song.title), title) && SqlEq(ArtistName(j), name) && SqlEq(Some(j.song.duration), duration)
      :: (j.songId, j.artist.value.0)
  }

  /** A pair is returned exactly when it is a song's id and that song's own
      artist_id, the artist is in the artists table, and title, artist name
      and duration all equal the (non-NULL) parameters. */
  lemma SongSelectSpec(songs: SongTable, artists: ArtistTable, title: Option<string>, name: Option<string>,
                       duration: Option<Float>, sid: string, aid: string)
    ensures (sid, aid) in SongSelect(songs, artists, title, name, duration) <==>
      && sid in songs && aid == songs[sid].artistId && aid in artists
      && Some(songs[sid].title) == title && Some(artists[aid].name) == name && Some(songs[sid].duration) == duration
  {
    if sid in songs && aid == songs[sid].artistId && aid in artists {
      var j := JoinRow(sid, songs[sid], Some((aid, artists[aid])));
      assert j in LeftJoin(songs, artists);
    }
  }

  // ---------------------------------------------------------------------
  // The store
  // ---------------------------------------------------------------------

  /** The database the job writes to. A statement may also fail for a
      reason outside this model (a lost connection, say): each method takes
      that as a parameter, fault, and then changes nothing. */
  class Store {
    var users: UserTable
    var songs: SongTable
    var artists: ArtistTable
    var times: TimeTable
    var songplays: SongplayTable
    /** The next value of songplay_id's sequence. */
    var serial: nat

    /** Every songplay_id handed out so far is below the sequence's next
        value, and the sequence starts at 1. */
    predicate Valid()
      reads this
    {
      serial >= 1 && forall id :: id in songplays ==> 1 <= id < serial
    }

    /** The freshly created, empty schema. */
    constructor ()
      ensures Valid()
      ensures users == map[] && songs == map[] && artists == map[] && times == map[]
      ensures songplays == map[] && serial == 1
    {
      users, songs, artists, times := map[], map[], map[], map[];
      songplays, serial := map[], 1;
    }

    method UpsertUser(row: UserRow, fault: bool) returns (ok: bool)
      requires Valid()
      modifies this`users
      ensures Valid()
      ensures ok == !fault
      ensures users == if ok then UserUpserted(old(users), row) else old(users)
    {
      ok := !fault;
      if ok {
        users := UserUpserted(users, row);
      }
    }

    method InsertSong(row: SongRow, fault: bool) returns (ok: bool)
      requires Valid()
      modifies this`songs
      ensures Valid()
      ensures ok == (!fault && SongInserted(old(songs), row).Some?)
      ensures songs == if ok then SongInserted(old(songs), row).value else old(songs)
    {
      var r := SongInserted(songs, row);
      ok := !fault && r.Some?;
      if ok {
        songs := r.value;
      }
    }

    method InsertArtist(row: ArtistRow, fault: bool) returns (ok: bool)
      requires Valid()
      modifies this`artists
      ensures Valid()
      ensures ok == !fault
      ensures artists == if ok then ArtistInserted(old(artists), row) else old(artists)
    {
      ok := !fault;
      if ok {
        artists := ArtistInserted(artists, row);
      }
    }

    method InsertTime(e: TimeEntry, fault: bool) returns (ok: bool)
      requires Valid()
      modifies this`times
      ensures Valid()
      ensures ok == (!fault && TimeInserted(old(times), e).Some?)
      ensures times == if ok then TimeInserted(old(times), e).value else old(times)
    {
      var r := TimeInserted(times, e);
      ok := !fault && r.Some?;
      if ok {
        times := r.value;
      }
    }

    /** songplay: the key is the sequence's next value, distinct from every
        key already in the table; the other rows stay as they are. */
    method InsertSongplay(p: Songplay, fault: bool) returns (ok: bool)
      requires Valid()
      modifies this`songplays, this`serial
      ensures Valid()
      ensures ok == !fault
      ensures ok ==> old(serial) !in old(songplays) && songplays == old(songplays)[old(serial) := p]
      ensures ok ==> serial == old(serial) + 1
      ensures !ok ==> songplays == old(songplays) && serial == old(serial)
    {
      ok := !fault;
      if ok {
        songplays := songplays[serial := p];
        serial := serial + 1;
      }
    }

    /** Runs song_select and fetches one row of the result, if there is
        one. Which row the database returns first is not fixed, so any
        match may come back. */
    method FetchSong(title: Option<string>, name: Option<string>, duration: Option<Float>)
      returns (r: Option<(string, string)>)
      ensures r.None? <==> SongSelect(songs, artists, title, name, duration) == {}
      ensures r.Some? ==> r.value in SongSelect(songs, artists, title, name, duration)
    {
      var matches := SongSelect(songs, artists, title, name, duration);
      if matches == {} {
        r := None;
      } else {
        var m :| m in matches;
        r := Some(m);
      }
    }
  }
}
