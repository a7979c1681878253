# Sparkify ETL core, modelled in Dafny

Sparkify's batch ETL job loads two kinds of JSON input into a PostgreSQL star
schema. The inputs are song metadata records and user-activity log events. The
schema has four dimension tables (`songs`, `artists`, `users`, `time`) and one
fact table (`songplay`). This project models the deterministic core of that job:

- **`process_song_file`**: drops song records with a missing or empty
  `song_id`/`artist_id`, projects the rest to song rows and artist rows, and
  inserts them in order.
- **`process_log_file`**: derives one time-dimension row per event from its
  millisecond timestamp (UTC hour, day, ISO 8601 week, month, year and
  weekday). It drops events with an empty `userId` or no timestamp, upserts
  the user rows, and runs the songplay lookup/insert loop.
- **The insert statements and `song_select`**: the exact effect of each
  statement on its table, including its conflict rule. Users update `level`
  only. Artists and time do nothing on conflict. Songs have no conflict
  clause, so a duplicate is an error. Songplay gets a fresh serial key.
  `song_select` is a join over songs and artists.

Modules:

- `Common`: `Option`, opaque floats and an order-preserving `Filter`.
- `Calendar`: proleptic Gregorian arithmetic on day numbers from 1970-01-01.
  This covers the civil date, the weekday with Monday = 0, and the ISO 8601
  week as section 4.1.4 of ISO 8601:2004 defines it (the year that holds the
  week's Thursday).
- `Records`: raw records, the cleaning filters, the projections and the time
  row of a timestamp.
- `Schema`: tables as maps keyed on their primary keys, the statements as
  functions, `song_select`, and a `Store` class whose methods change the
  tables in place.
- `Batches`: the shape shared by every insert loop in the job. It is a `for`
  loop of statements inside a single `try`, so the first failure ends the
  loop.
- `Etl`: the loops as methods, the two `process_*` procedures and two
  end-to-end scenarios.

The songplay loop is modelled as the code is written: it inserts only in the
`except` branch of the lookup. A separate variant, labelled INTENDED VARIANT,
gives the behaviour the code evidently aims at instead: one fact row per
cleaned event, as the docstring of `process_log_file` (original_etl.py:82)
suggests, with NULL keys when there is no match, as the otherwise unused
`songid, artistid = None, None` branch (original_etl.py:165) suggests. Each
insert keeps its own `try`, as at original_etl.py:156-162, so an insert that
fails skips only its own row. The finding below describes the gap.

Database failures that no modelled constraint explains, such as a lost
connection, are not modelled as events. Each loop instead takes the set of
row positions where such a failure happens (a *fault set*). Two failures are
modelled as refusals of the statement itself: a duplicate `song_id`, and the
`time` insert of a row whose timestamp is missing (pandas' NaT, "not a
time"). `cursor.fetchone()` may return any matching row; this is modelled as
a nondeterministic choice (`:|`) among the matches.

### What the code does and what it evidently means to do

- One `try` wraps each whole `for` loop of inserts (original_etl.py:63-79,
  124-141). The first failing statement therefore skips every later row of
  that loop, and the next loop still runs, although the message printed on
  failure names only the one offending row. `Batches.RunAll` models the code.
- The docstring of `process_log_file` (original_etl.py:82) says it populates
  the `song_play` table, and the loop looks up song and artist ids for every
  cleaned event. The code inserts a fact only when a lookup raises, using the
  failing row's fields and the previous row's lookup result
  (original_etl.py:144-166). `Etl.ResolveSongplaysAsWritten` models the code;
  the separate intended variant inserts one fact per cleaned event.

No line of the source says what a lookup that fails should produce. The
intended variant's choice is to give that event its fact row with NULL keys,
the same as a lookup that finds no match. The NULL keys themselves sit badly
with the schema: sql_queries.py:12 declares songplay's `song_id` and
`artist_id` NOT NULL, so under the declared schema such rows would be
refused. The model leaves NOT NULL out (see below).

## Model

| member | source | states |
|---|---|---|
| Records.CleanSongsSpec | original_etl.py:48-52 | a song record survives cleaning exactly when its song_id and artist_id are both present and non-empty; the number dropped is exactly the number of records failing that test |
| Records.CleanSongsOrder | original_etl.py:51-52 | cleaning distributes over concatenation, so survivors keep their input order |
| Records.SongFileRowsSpec | original_etl.py:55-60 | there is one song row and one artist row per survivor, with no de-duplication; both lists have the survivor count and agree on artist_id at each position; a row is in a list exactly when it is the projection of some surviving record |
| Records.SingleSongRows | original_etl.py:55-60 | a file with one well-keyed record yields exactly that record's song row and artist row |
| Records.EventRowsSpec | original_etl.py:106-117 | an event survives exactly when its userId is non-empty and its ts is present; user rows and candidates have the survivor count; a user row is in the list exactly when it is the projection of a surviving event; candidate k carries user row k's userId and level, and event k's song, artist, length and ts |
| Records.CleanEventsOrder | original_etl.py:108-112 | cleaning distributes over concatenation, so surviving events keep their log order |
| Records.SingleEventRows | original_etl.py:114-117 | a log with one surviving event yields exactly its user row and its candidate |
| Records.CleanEventsIgnorePage | original_etl.py:106-115 | logs that differ only in the page fields of their events yield the same user rows and candidates; there is no filter on page type |
| Records.SameCleaning | original_etl.py:110-112 | such logs clean to lists of the same length that agree position by position except in page |
| Records.TimeOf | original_etl.py:93-104 | the time row of a timestamp keeps the timestamp as start_time and has hour 0..23, weekday 0..6, month 1..12, a day valid for its month and year, and week 1..53 |
| Records.TimeOfCorrect | original_etl.py:93-104 | the timestamp falls in that hour of that calendar date; the weekday is the date's weekday with Monday = 0; the week is the ISO 8601 week of the date |
| Records.TimeRowOfUnique | original_etl.py:93-104 | only one time row meets that description, so the fields are determined by the timestamp alone |
| Records.TimeOfExample | original_etl.py:93-104 | 1541105830796 ms is 2018-11-01, hour 20, weekday 3 (Thursday), ISO week 44 |
| Records.TimeEntriesCount | original_etl.py:96-112 | the time rows are built before cleaning: there is one entry per event, as many as surviving plus dropped events |
| Records.TimeEntryAt | original_etl.py:96-104 | every event with a timestamp has its correct time row at its own position, including an event that the userId cleaning drops |
| Calendar.CivilFromDays | original_etl.py:99-103 | the date of a day number is a valid calendar date |
| Calendar.CivilFromDaysCorrect | original_etl.py:99-103 | the date CivilFromDays gives has the day number it was given |
| Calendar.CivilFromDaysUnique | original_etl.py:99-103 | CivilFromDays inverts DayNumber on every valid date |
| Calendar.DayNumberUnique | original_etl.py:99-103 | distinct valid dates have distinct day numbers |
| Calendar.YearStartStep | original_etl.py:103 | year 1970 starts at day 0, and each year starts where the previous one, of 365 or 366 days, ends |
| Calendar.YearStartMonotone | original_etl.py:103 | an earlier year ends no later than a later one starts |
| Calendar.YearUnique | original_etl.py:103 | a day number lies in exactly one year |
| Calendar.YearOfDay | original_etl.py:103 | the year holding day n and n's offset into that year, with the offset within the year's length |
| Calendar.FindMonth | original_etl.py:100-102 | the month and day for an offset into a year form a valid date at that offset |
| Calendar.Weekday | original_etl.py:104 | the weekday of a day number is in 0..6 |
| Calendar.IsoWeekCorrect | original_etl.py:101 | the ordinal-date week formula gives, for every day, the ISO 8601 week of that day (the block of the year that holds the week's Thursday), and a number in 1..53 |
| Calendar.DateWeekCorrect | original_etl.py:101 | the same for a date given with its day number |
| Calendar.IsoWeekUnique | original_etl.py:101 | a day has exactly one ISO week number |
| Calendar.IsoWeekConstantInWeek | original_etl.py:101 | the seven days from a Monday have weekdays 0..6 and share every ISO week number |
| Calendar.OrdinalWeekCases | original_etl.py:101 | each branch of the ordinal-date formula corresponds to the Thursday lying in the previous year, this year or the next year |
| Calendar.ThursdayWeek | original_etl.py:101 | a Thursday within three days of year y's bounds has its week counted in the year that holds it |
| Schema.UserUpsertedSpec | sql_queries.py:33-36 | upserting an existing user_id replaces only its level with the new value; a new user_id gets all of the row's fields; every other user is unchanged |
| Schema.SongInsertedSpec | sql_queries.py:38-39 | a song insert fails exactly when its song_id, the primary key of line 18, is already present; otherwise it adds exactly that one row and keeps the others |
| Schema.ArtistInsertedSpec | sql_queries.py:41-43 | inserting an existing artist_id leaves the table unchanged (the first write wins); a new artist_id adds exactly one row |
| Schema.TimeInsertedIdempotent | sql_queries.py:45-47 | under the start_time primary key of line 24, inserting the same time row twice is the same as inserting it once; an existing start_time keeps its row; the key set grows by the row's start_time; a new start_time holds exactly that row and every old row keeps its value |
| Schema.UpsertUsersKeys | sql_queries.py:33-36 | after a sequence of upserts, the users are exactly the old ones plus the upserted ids |
| Schema.UpsertUsersLastLevel | sql_queries.py:33-36 | each upserted user's level is the level of the last upsert for its id |
| Schema.UpsertUsersFirstFields | sql_queries.py:33-36 | a new user's names and gender come from the first upsert for its id |
| Schema.UpsertUsersKeepFields | sql_queries.py:33-36 | a user already present keeps its names and gender through any sequence of upserts |
| Schema.UpsertUsersUntouched | sql_queries.py:33-36 | a user that no row upserts is left exactly as it was |
| Schema.InsertArtistsKeys | sql_queries.py:41-43 | after a sequence of artist inserts, the artists are exactly the old ones plus the inserted ids |
| Schema.InsertArtistsKeep | sql_queries.py:41-43 | an artist already present keeps its row whatever is inserted |
| Schema.InsertArtistsFirstWins | sql_queries.py:41-43 | a new artist gets the row of the first insert for its id |
| Schema.SongSelectSpec | sql_queries.py:51-55 | (song_id, artist_id) is returned exactly when the song exists, artist_id is that song's own, the artist row exists, and title, artist name and duration equal the non-NULL parameters; so a song with no artist row never matches |
| Schema.Store.constructor | sql_queries.py:11-25 | the schema starts with empty tables and the songplay_id sequence at 1 |
| Schema.Store.UpsertUser | sql_queries.py:33-36 | the users table becomes the upserted table unless the statement faults, and then it is unchanged; Valid is kept |
| Schema.Store.InsertSong | sql_queries.py:38-39 | the insert succeeds exactly when it does not fault and the song_id is new; the table changes only on success; Valid is kept |
| Schema.Store.InsertArtist | sql_queries.py:41-43 | the artists table becomes the inserted table unless the statement faults; Valid is kept |
| Schema.Store.InsertTime | sql_queries.py:45-47 | the insert succeeds exactly when it does not fault and the entry has a timestamp; the table changes only on success; Valid is kept |
| Schema.Store.InsertSongplay | sql_queries.py:29-31 | a successful insert adds the row under the next value of the SERIAL key of line 11, which is distinct from every existing songplay_id; the other rows and the id invariant are kept |
| Schema.Store.FetchSong | original_etl.py:147-148 | fetchone returns no row exactly when song_select matches nothing, and otherwise one of its matches |
| Batches.RunAll | original_etl.py:63-79 | a loop that stops reports a position inside the row list |
| Batches.RunAllStopsAtFailure | original_etl.py:63-69 | once a statement of the loop fails, the later rows change nothing |
| Batches.RunAllFirstFailure | original_etl.py:63-69 | a stopped loop applied every row before the failing one, and that row faulted or was refused |
| Batches.RunAllNoFault | original_etl.py:63-69 | a loop that goes through met no fault at any row |
| Batches.RunAllSingle | original_etl.py:63-69 | a loop over one row fails exactly when that row faults or is refused, and otherwise leaves the statement's table |
| Etl.UserRunIsFold | original_etl.py:134-136 | without faults the user loop upserts every row, in order |
| Etl.ArtistRunIsFold | original_etl.py:72-75 | without faults the artist loop inserts every row, in order |
| Etl.SongRunKeys | original_etl.py:63-66 | after a song loop that goes through, every row's song_id is in the table |
| Etl.SongIdsSpec | original_etl.py:63-66 | an id is among the rows' song_ids exactly when some row carries it |
| Etl.SongRunDistinct | original_etl.py:63-66 | without faults, rows with new, pairwise distinct song_ids all go in, and the table is exactly the old songs plus those ids |
| Etl.SongsLoadedStep | original_etl.py:63-66 | one successful song insert extends what the loop has loaded by exactly its row: old songs unchanged, the new song_id holding the row's fields, nothing else added |
| Etl.SongRunContents | original_etl.py:63-66 | after a song loop that goes through, every old song keeps its row, each row's song_id was new and now holds that row's title, artist_id, year and duration, and the table holds nothing else |
| Etl.SongRunDuplicateFails | original_etl.py:63-69 | a song_id that repeats among the rows stops the loop at its second occurrence at the latest |
| Etl.TimeRunConsistent | original_etl.py:124-127 | whatever happens in the time loop, each row of the time table is the time row of its key |
| Etl.TimeRunKeys | original_etl.py:124-127 | without faults or NaT entries, the time loop goes through and the table gains exactly the entries' start times, a repeated one only once |
| Etl.TimeRunStopsAtNaT | original_etl.py:124-127 | a NaT entry stops the time loop at its position at the latest |
| Etl.TimeLoadSpec | original_etl.py:96-127 | for a log's time entries, the table stays consistent; without faults and with every event timestamped, the keys are exactly the old ones plus the events' timestamps; an event with no timestamp stops the loop at its position at the latest |
| Etl.LoadSongs | original_etl.py:63-70 | the song loop's result and final table are those of RunAll over the rows |
| Etl.LoadArtists | original_etl.py:72-79 | the same for the artist loop |
| Etl.LoadTimes | original_etl.py:124-131 | the same for the time loop |
| Etl.LoadUsers | original_etl.py:134-140 | the same for the user loop |
| Etl.ProcessSongFile | original_etl.py:35-79 | an empty record list raises KeyError (the frame has no song_id column) before any statement, leaving the tables unchanged; otherwise the song loop runs over the cleaned song rows and the artist loop over the artist rows whatever happened to the song loop |
| Etl.ResolveSongplaysAsWritten | original_etl.py:144-166 | the songplay loop has exactly the effect AsWritten describes (see Findings) |
| Etl.NoLookupErrorNoFacts | original_etl.py:144-166 | the loop as written inserts no songplay row when no lookup raises |
| Etl.AtMostOneFact | original_etl.py:144-166 | the loop as written adds at most one songplay row and removes none |
| Etl.ProcessLogFile | original_etl.py:81-167 | an empty log raises KeyError (the frame has no ts column) before any statement, leaving the tables unchanged; otherwise the time loop runs over every event's entry, the user loop over the cleaned user rows, then the songplay loop as written |
| Etl.ScenarioAsWritten | original_etl.py:35-167 | one matching song and one play of it by a user: songs, artists, users and time gain their single rows, and songplay stays empty |
| Etl.InsertedIncreasing | original_etl.py:144-166 | a candidate whose insert goes through takes a smaller id than every later candidate, so the inserted rows' ids are pairwise distinct |
| Etl.InsertedOnto | original_etl.py:144-166 | every id the inserts hand out belongs to some candidate whose insert went through, so no id in the new range is left without its row |
| Etl.IntendedRowsOnly | original_etl.py:144-166 | INTENDED VARIANT: every id in the range the loop handed out holds the intended row of the candidate, with a non-faulting insert, that took it |
| Etl.AllIntendedAppend | original_etl.py:144-166 | adding candidate i's intended row under an id no earlier inserted candidate has extends the intended rows by one and keeps the earlier ones |
| Etl.AllIntendedSkip | original_etl.py:156-162 | a candidate whose insert fails adds no row and the intended rows reach one candidate further |
| Etl.IntendedFactFor | original_etl.py:146-147 | INTENDED VARIANT: the fact row for a candidate carries its own fields, with the keys of a song_select match when the lookup succeeds and finds one, and NULL keys otherwise |
| Etl.IntendedSoFarInsert | original_etl.py:156-159 | INTENDED VARIANT: an insert that goes through adds the candidate's intended row under the sequence's next value, which is that candidate's id, and keeps the old rows |
| Etl.IntendedSoFarSkip | original_etl.py:160-162 | INTENDED VARIANT: an insert that fails leaves the table and the sequence as they were, and the intended rows reach one candidate further |
| Etl.ResolveSongplaysIntended | original_etl.py:144-166 | INTENDED VARIANT: each candidate whose own insert does not fault gets exactly one fact row, under the sequence's next value at that point, with the keys of a matching song when the lookup succeeds and NULL keys otherwise; a faulting insert skips only its row; the sequence advances by the number of inserts that went through and the earlier rows are unchanged |
| Etl.ProcessLogFileIntended | original_etl.py:81-167 | INTENDED VARIANT: the same as ProcessLogFile, empty-log KeyError included, with the intended songplay loop and its per-row insert faults |
| Etl.ScenarioSongFile | original_etl.py:35-79 | loading the one-song file into an empty store leaves exactly its song row and its artist row |
| Etl.ScenarioIntended | original_etl.py:35-167 | INTENDED VARIANT of the scenario: there is exactly one songplay row; it has the song's keys exactly when the played title matches and NULL keys otherwise |
| Common.Filter | original_etl.py:51-52 | the filter keeps only elements that satisfy the test and adds none |
| Common.FilterMember | original_etl.py:51-52 | an element survives the filter exactly when it is in the input and satisfies the test |
| Common.FilterPartition | original_etl.py:51-52 | what the filter keeps and what it drops make up the input exactly, as multisets |
| Common.FirstIn | original_etl.py:144-166 | the least position below n in a set, if there is one: the first lookup that raises |

## Left out

- `get_file`, `process_data`, `main` and create_tables.py are left out. They are file-system walking, JSON parsing, connection setup and DDL execution. The inputs are the parsed record lists.
- DDL column types and NOT NULL clauses are not modelled; the model only says that the `time` insert of a NaT row is refused. Several of the create strings put the constraint before the type (sql_queries.py:12, 18, 21). Only the primary keys and the songplay sequence are modelled.
- Etl.ResolveSongplaysIntended: its NULL-keyed fact rows are accepted by the model, because NOT NULL is not modelled; under the NOT NULL that sql_queries.py:12 declares on songplay's song_id and artist_id they would be refused. NULL keys on a lookup error are this variant's own choice; the source does not say what a failed lookup should produce.
- `songplay.start_time` is declared `int` while `time.start_time` is a `timestamp`. Both are modelled as the same millisecond count.
- The string-to-int cast of `userId` is not modelled. User ids are strings.
- The exact pandas parsing of `ts` is not modelled. `ts` is an optional millisecond count: a missing one is NaT and drops the event. The `''` replacement on `ts` after conversion is a no-op and is not modelled.
- pandas' datetime range limit (about the years 1677 to 2262) is not modelled. `TimeOf` is total over all integer timestamps.
- Floating-point values (`duration`, `length`, latitude, longitude) are opaque values compared only for equality. There is no rounding.
- The causes of database errors (connectivity, constraint message text) are not modelled. Failures not explained by a modelled constraint are the fault-set parameters.
- Rollback of the connection after an error is not modelled. Each statement's effect stands or is absent.
- Etl.ProcessSongFile, Etl.ProcessLogFile: the KeyError is modelled for an empty record list only. A non-empty list in which no record carries the `song_id`/`artist_id` (or `ts`/`userId`) key at all raises it too; the model does not tell an absent key from a null one, and treats both as missing.
- Etl.ResolveSongplaysIntended: a failing songplay insert is taken to skip only its own row, as the inner `try` around the insert at original_etl.py:156-162 does; this per-row rule is the variant's reading of the code.
- Schema.Store.InsertSongplay: a failed insert does not consume a sequence value in the model. PostgreSQL's SERIAL does consume one, so real ids can leave gaps.
- `print` logging is left out. The `NameError` when the very first lookup raises, before `results` is bound (original_etl.py:149-154), is the outcome `ResultsUnbound`.
- Schema.Store.FetchSong: which matching row `fetchone` returns is not fixed. The model only promises some match.
- There is no concurrency: the job is a single sequential batch.

## Findings

| source | as written | input that shows it | evidently intended | confidence | as-written member | corrected member |
|---|---|---|---|---|---|---|
| original_etl.py:144-166 | the songplay insert sits inside the `except` branch of the lookup loop: when no lookup raises, no songplay row is inserted; when the lookup of row j raises, it inserts row j's fields with row j-1's song and artist keys | one song file with one song and one log with one play of it (original_etl.py:35-167), in ScenarioAsWritten: every dimension table gets its row and songplay stays empty | every cleaned event yields exactly one songplay row, linked to its song when the lookup finds one and with NULL keys otherwise (the keys that are NULL would be refused by the NOT NULL that sql_queries.py:12 declares on song_id and artist_id) | not executed | Etl.ResolveSongplaysAsWritten, Etl.NoLookupErrorNoFacts, Etl.ScenarioAsWritten | Etl.ResolveSongplaysIntended, Etl.ScenarioIntended |
