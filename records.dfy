/** The in-memory side of the job: raw song and event records as the JSON
    lines give them, the cleaning filters, the projections into table rows
    and the derivation of the time dimension from a millisecond timestamp. */
module Records {
  import opened Common
  import opened Calendar

  // ---------------------------------------------------------------------
  // Song records
  // ---------------------------------------------------------------------

  /** One line of the song data set. An absent field or a JSON null is None. */
  datatype SongRecord = SongRecord(
    songId: Option<string>,
    title: string,
    artistId: Option<string>,
    year: int,
    duration: Float,
    artistName: string,
    artistLocation: string,
    artistLatitude: Option<Float>,
    artistLongitude: Option<Float>)

  /** A key column survives the cleaning when it is neither missing nor the
      empty string (the empty string is first turned into NaN, and NaN rows
      are dropped). */
  predicate Present(f: Option<string>) {
    f.Some? && f.value != ""
  }

  predicate SongKept(r: SongRecord) {
    Present(r.songId) && Present(r.artistId)
  }

  predicate SongDropped(r: SongRecord) {
    !SongKept(r)
  }

  /** The song records left after dropping those without a song_id or an
      artist_id. */
  function CleanSongs(recs: seq<SongRecord>): seq<SongRecord> {
    Filter(SongKept, recs)
  }

  datatype SongRow = SongRow(songId: string, title: string, artistId: string, year: int, duration: Float)

  datatype ArtistRow = ArtistRow(
    artistId: string,
    name: string,
    location: string,
    latitude: Option<Float>,
    longitude: Option<Float>)

  function SongRowOf(r: SongRecord): SongRow
    requires SongKept(r)
  {
    SongRow(r.songId.value, r.title, r.artistId.value, r.year, r.duration)
  }

  function ArtistRowOf(r: SongRecord): ArtistRow
    requires SongKept(r)
  {
    ArtistRow(r.artistId.value, r.artistName, r.artistLocation, r.artistLatitude, r.artistLongitude)
  }

  /** The song rows the job inserts: one per cleaned record, in order. */
  function SongRows(recs: seq<SongRecord>): seq<SongRow> {
    var clean := CleanSongs(recs);
    seq(|clean|, k requires 0 <= k < |clean| => SongRowOf(clean[k]))
  }

  /** The artist rows the job inserts: one per cleaned record, in order, with
      no removal of repeated artists. */
  function ArtistRows(recs: seq<SongRecord>): seq<ArtistRow> {
    var clean := CleanSongs(recs);
    seq(|clean|, k requires 0 <= k < |clean| => ArtistRowOf(clean[k]))
  }

  /** A song file with one well-keyed record yields its one song row and its
      one artist row. */
  lemma SingleSongRows(r: SongRecord)
    requires SongKept(r)
    ensures SongRows([r]) == [SongRowOf(r)] && ArtistRows([r]) == [ArtistRowOf(r)]
  {
    assert CleanSongs([r]) == [r];
  }

  /** A record survives the cleaning exactly when both of its keys are
      present and non-empty; the records that go are exactly the others. */
  lemma CleanSongsSpec(recs: seq<SongRecord>)
    ensures forall r :: r in CleanSongs(recs) <==> r in recs && Present(r.songId) && Present(r.artistId)
    ensures |CleanSongs(recs)| == |recs| - |Filter(SongDropped, recs)|
  {
    forall r ensures r in CleanSongs(recs) <==> r in recs && SongKept(r) {
      FilterMember(SongKept, recs, r);
    }
    FilterPartition(SongKept, SongDropped, recs);
  }

  /** Cleaning a longer file cleans each part in turn: survivors keep the
      order they had in the input. */
  lemma CleanSongsOrder(a: seq<SongRecord>, b: seq<SongRecord>)
    ensures CleanSongs(a + b) == CleanSongs(a) + CleanSongs(b)
  {
    FilterAppend(SongKept, a, b);
  }

  /** Each cleaned record yields exactly one song row and exactly one artist
      row, both lists as long as the cleaned list and aligned on artist_id;
      a song row is in the list exactly when some surviving record projects
      to it. */
  lemma SongFileRowsSpec(recs: seq<SongRecord>)
    ensures |SongRows(recs)| == |ArtistRows(recs)| == |CleanSongs(recs)|
    ensures forall k :: 0 <= k < |SongRows(recs)| ==> SongRows(recs)[k].artistId == ArtistRows(recs)[k].artistId
    ensures forall row :: row in SongRows(recs) <==> exists r :: r in recs && SongKept(r) && SongRowOf(r) == row
    ensures forall row :: row in ArtistRows(recs) <==> exists r :: r in recs && SongKept(r) && ArtistRowOf(r) == row
  {
    var clean := CleanSongs(recs);
    CleanSongsSpec(recs);
    forall row | row in SongRows(recs)
      ensures exists r :: r in recs && SongKept(r) && SongRowOf(r) == row
    {
      var k :| 0 <= k < |clean| && SongRows(recs)[k] == row;
      assert clean[k] in clean;
    }
    forall row | exists r :: r in recs && SongKept(r) && SongRowOf(r) == row
      ensures row in SongRows(recs)
    {
      var r :| r in recs && SongKept(r) && SongRowOf(r) == row;
      assert r in clean;
      var k :| 0 <= k < |clean| && clean[k] == r;
      assert SongRows(recs)[k] == row;
    }
    forall row | row in ArtistRows(recs)
      ensures exists r :: r in recs && SongKept(r) && ArtistRowOf(r) == row
    {
      var k :| 0 <= k < |clean| && ArtistRows(recs)[k] == row;
      assert clean[k] in clean;
    }
    forall row | exists r :: r in recs && SongKept(r) && ArtistRowOf(r) == row
      ensures row in ArtistRows(recs)
    {
      var r :| r in recs && SongKept(r) && ArtistRowOf(r) == row;
      assert r in clean;
      var k :| 0 <= k < |clean| && clean[k] == r;
      assert ArtistRows(recs)[k] == row;
    }
  }

  // ---------------------------------------------------------------------
  // Event records
  // ---------------------------------------------------------------------

  /** One line of the event log. ts is the millisecond Unix timestamp. */
  datatype Event = Event(
    ts: Option<int>,
    userId: Option<string>,
    firstName: string,
    lastName: string,
    gender: string,
    level: string,
    sessionId: int,
    location: string,
    userAgent: string,
    artist: Option<string>,
    song: Option<string>,
    length: Option<Float>,
    page: string)

  /** An event survives the cleaning when its userId is present and
      non-empty and its timestamp is present. The page field plays no part. */
  predicate EventKept(e: Event) {
    Present(e.userId) && e.ts.Some?
  }

  predicate EventDropped(e: Event) {
    !EventKept(e)
  }

  function CleanEvents(es: seq<Event>): seq<Event> {
    Filter(EventKept, es)
  }

  datatype UserRow = UserRow(userId: string, firstName: string, lastName: string, gender: string, level: string)

  /** A row of the songplay frame: the fields of a cleaned event that the
      lookup and the fact insert use. */
  datatype Candidate = Candidate(
    start: int,
    userId: string,
    level: string,
    sessionId: int,
    location: string,
    userAgent: string,
    artist: Option<string>,
    song: Option<string>,
    length: Option<Float>)

  function UserRowOf(e: Event): UserRow
    requires EventKept(e)
  {
    UserRow(e.userId.value, e.firstName, e.lastName, e.gender, e.level)
  }

  function CandidateOf(e: Event): Candidate
    requires EventKept(e)
  {
    Candidate(e.ts.value, e.userId.value, e.level, e.sessionId, e.location, e.userAgent, e.artist, e.song, e.length)
  }

  /** The user rows the job upserts: one per cleaned event, in order. */
  function UserRows(es: seq<Event>): seq<UserRow> {
    var clean := CleanEvents(es);
    seq(|clean|, k requires 0 <= k < |clean| => UserRowOf(clean[k]))
  }

  /** The songplay candidates: one per cleaned event, in order. */
  function Candidates(es: seq<Event>): seq<Candidate> {
    var clean := CleanEvents(es);
    seq(|clean|, k requires 0 <= k < |clean| => CandidateOf(clean[k]))
  }

  /** A log with one event that keeps its userId and timestamp yields its
      one user row and its one songplay candidate. */
  lemma SingleEventRows(e: Event)
    requires EventKept(e)
    ensures UserRows([e]) == [UserRowOf(e)] && Candidates([e]) == [CandidateOf(e)]
  {
    assert CleanEvents([e]) == [e];
  }

  /** Cleaning a longer log cleans each part in turn: surviving events, and
      so the user rows and candidates, keep the order they had in the log. */
  lemma CleanEventsOrder(a: seq<Event>, b: seq<Event>)
    ensures CleanEvents(a + b) == CleanEvents(a) + CleanEvents(b)
  {
    FilterAppend(EventKept, a, b);
  }

  /** The user rows are exactly the events with a non-empty userId and a
      timestamp, whatever their page, in order; user rows and songplay
      candidates come from the same events, position by position, and each
      candidate carries its event's song, artist and length as the lookup
      key. */
  lemma EventRowsSpec(es: seq<Event>)
    ensures forall e :: e in CleanEvents(es) <==> e in es && Present(e.userId) && e.ts.Some?
    ensures |UserRows(es)| == |Candidates(es)| == |CleanEvents(es)|
    ensures forall u :: u in UserRows(es) <==> exists e :: e in es && EventKept(e) && UserRowOf(e) == u
    ensures forall k :: 0 <= k < |Candidates(es)| ==>
      var c, e := Candidates(es)[k], CleanEvents(es)[k];
      && c.userId == UserRows(es)[k].userId && c.level == UserRows(es)[k].level
      && c.song == e.song && c.artist == e.artist && c.length == e.length && Some(c.start) == e.ts
  {
    var clean := CleanEvents(es);
    forall e ensures e in clean <==> e in es && EventKept(e) {
      FilterMember(EventKept, es, e);
    }
    forall u | u in UserRows(es)
      ensures exists e :: e in es && EventKept(e) && UserRowOf(e) == u
    {
      var k :| 0 <= k < |clean| && UserRows(es)[k] == u;
      assert clean[k] in clean;
    }
    forall u | exists e :: e in es && EventKept(e) && UserRowOf(e) == u
      ensures u in UserRows(es)
    {
      var e :| e in es && EventKept(e) && UserRowOf(e) == u;
      assert e in clean;
      var k :| 0 <= k < |clean| && clean[k] == e;
      assert UserRows(es)[k] == u;
    }
  }

  /** Only the keys decide an event's fate: two logs that differ only in
      the page of their events clean to the same users and candidates. */
  lemma {:induction false} CleanEventsIgnorePage(es: seq<Event>, es': seq<Event>)
    requires |es| == |es'|
    requires forall k :: 0 <= k < |es| ==> es'[k] == es[k].(page := es'[k].page)
    ensures UserRows(es) == UserRows(es') && Candidates(es) == Candidates(es')
  {
    SameCleaning(es, es');
  }

  lemma {:induction false} SameCleaning(es: seq<Event>, es': seq<Event>)
    requires |es| == |es'|
    requires forall k :: 0 <= k < |es| ==> es'[k] == es[k].(page := es'[k].page)
    ensures |CleanEvents(es)| == |CleanEvents(es')|
    ensures forall k :: 0 <= k < |CleanEvents(es)| ==>
      CleanEvents(es')[k] == CleanEvents(es)[k].(page := CleanEvents(es')[k].page)
    decreases |es|
  {
    if es != [] {
      var tl, tl' := es[1..], es'[1..];
      SameCleaning(tl, tl');
      assert EventKept(es[0]) == EventKept(es'[0]);
      var c, c' := CleanEvents(tl), CleanEvents(tl');
      if EventKept(es[0]) {
        assert CleanEvents(es) == [es[0]] + c;
        assert CleanEvents(es') == [es'[0]] + c';
      } else {
        assert CleanEvents(es) == c && CleanEvents(es') == c';
      }
    }
  }

  // ---------------------------------------------------------------------
  // Time dimension
  // ---------------------------------------------------------------------

  const MsPerHour: int := 3600000
  const MsPerDay: int := 86400000

  datatype TimeRow = TimeRow(start: int, hour: int, day: int, week: int, month: int, year: int, weekday: int)

  /** The time row of an event, or NaT when its timestamp is missing. */
  datatype TimeEntry = NaT | At(row: TimeRow)

  /** The time fields of a millisecond timestamp, in UTC. Division rounds
      towards minus infinity, so timestamps before 1970 fall on the right
      day and hour too. */
  function TimeOf(ts: int): (t: TimeRow)
    ensures t.start == ts
    ensures 0 <= t.hour <= 23 && 0 <= t.weekday <= 6
    ensures 1 <= t.month <= 12 && 1 <= t.day <= DaysInMonth(t.year, t.month)
    ensures 1 <= t.week <= 53
  {
    var n := ts / MsPerDay;
    var d := CivilFromDays(n);
    IsoWeekCorrect(n);
    TimeRow(ts, (ts % MsPerDay) / MsPerHour, d.day, IsoWeek(n), d.month, d.year, Weekday(n))
  }

  /** What it means for t to be the time row of ts: ts falls in hour t.hour
      of the calendar date (t.year, t.month, t.day), t.weekday is that day's
      weekday (Monday = 0) and t.week its ISO 8601 week. */
  ghost predicate TimeRowOf(ts: int, t: TimeRow) {
    var d := Date(t.year, t.month, t.day);
    && t.start == ts
    && ValidDate(d) && 0 <= t.hour <= 23
    && DayNumber(d) * MsPerDay + t.hour * MsPerHour <= ts < DayNumber(d) * MsPerDay + (t.hour + 1) * MsPerHour
    && t.weekday == Weekday(DayNumber(d))
    && IsIsoWeek(DayNumber(d), t.week)
  }

  /** TimeOf gives the time row of its timestamp ... */
  lemma TimeOfCorrect(ts: int)
    ensures TimeRowOf(ts, TimeOf(ts))
  {
    var n := ts / MsPerDay;
    CivilFromDaysCorrect(n);
    IsoWeekCorrect(n);
    var t := TimeOf(ts);
    assert Date(t.year, t.month, t.day) == CivilFromDays(n);
  }

  /** ... and it is the only one: the fields are fixed by the timestamp. */
  lemma TimeRowOfUnique(ts: int, t: TimeRow)
    requires TimeRowOf(ts, t)
    ensures t == TimeOf(ts)
  {
    var d := Date(t.year, t.month, t.day);
    var n := ts / MsPerDay;
    assert DayNumber(d) == n && t.hour == (ts % MsPerDay) / MsPerHour;
    TimeOfCorrect(ts);
    var u := TimeOf(ts);
    DayNumberUnique(d, Date(u.year, u.month, u.day));
    IsoWeekUnique(n, t.week, u.week);
  }

  /** The example of the log data: 1541105830796 ms is Thursday 2018-11-01,
      20:57:10.796 UTC, in ISO week 44. */
  lemma TimeOfExample()
    ensures TimeOf(1541105830796) == TimeRow(1541105830796, 20, 1, 44, 11, 2018, 3)
  {
    var d := Date(2018, 11, 1);
    assert DayNumber(d) == 17836;
    CivilFromDaysUnique(d);
    assert Weekday(17836) == 3;
  }

  function TimeEntryOf(e: Event): TimeEntry {
    if e.ts.Some? then At(TimeOf(e.ts.value)) else NaT
  }

  /** The time entries, built from every event before any cleaning. */
  function TimeEntries(es: seq<Event>): seq<TimeEntry> {
    seq(|es|, k requires 0 <= k < |es| => TimeEntryOf(es[k]))
  }

  /** There is one time entry per event: as many entries as surviving and
      dropped events together. */
  lemma TimeEntriesCount(es: seq<Event>)
    ensures |TimeEntries(es)| == |CleanEvents(es)| + |Filter(EventDropped, es)|
  {
    FilterPartition(EventKept, EventDropped, es);
  }

  /** Every event with a timestamp has its time row among the entries, at
      its own position, also an event the cleaning drops for its empty
      userId. */
  lemma TimeEntryAt(es: seq<Event>, k: nat)
    requires k < |es| && es[k].ts.Some?
    ensures TimeEntries(es)[k].At? && TimeRowOf(es[k].ts.value, TimeEntries(es)[k].row)
  {
    TimeOfCorrect(es[k].ts.value);
  }
}
