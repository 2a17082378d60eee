# Isengard incremental-build cache, modelled in Dafny

Isengard decides whether a rule must run again by looking it up in a
persistent SQLite cache, `isengard2/_db.py`. The cache maps the fingerprint
of a rule's inputs to a run id (`rule_run`). For each run it holds the
output fingerprint of every target that run produced (`target_output`). A
`version` table holds one row, keyed by `VERSION_MAGIC_NUMBER`, whose value
must equal `DB_VERSION`. If the value differs, or the version table is
missing, the file is deleted and recreated empty. The code as written
raises instead on two kinds of unreadable file: a file that is not a
database, and a version table without the magic row (see Findings). The
model's `init_or_reset_db` follows the corrected check, which resets those
files too.

This model gives the tables as Dafny maps. Each constraint the SQL declares
becomes a property of the map:

- `UNIQUE(fingerprint)` makes `rule_run` a map from fingerprint to id.
- `INTEGER PRIMARY KEY` makes that map injective (`IdsInjective`).
- `UNIQUE(run, target)` keys `target_output` on `OutputKey(run, target)`.

Files:

- `outcomes.dfy` (module `Outcomes`): `Option`, `Result`, `Outcome` and the
  failures: `IsengardDBError` at its three raise points, the SQLite
  integrity error, and the two errors that escape the version check as
  written (`NotADatabase`, `MissingVersionRow`).
- `store_spec.dfy` (module `StoreSpec`): the two cache tables as a value,
  the point lookups, and `RecordRun`, the meaning of one
  `set_rule_previous_run` transaction. Also the lemmas about it: the id is
  stable per fingerprint, ids are injective, outputs are replaced whole,
  other runs are untouched, and a repeated target rolls everything back.
- `schema_spec.dfy` (module `SchemaSpec`): what lies at the database path
  (`Disk`), `InitOrResetSpec` (the meaning of `init_or_reset_db` with the
  corrected version check `StoredVersion`), its lemmas, and the version
  check as written, `ReadVersionAsWritten` (see Findings).
- `db.dfy` (module `Cache`): class `DB`, whose fields are the file at the
  path and an open flag for the connection. Its methods change the state in
  place and are proved against the functions above. `InitOrReset` is
  `init_or_reset_db` with the corrected version check; `Close` ends the
  `DB.connect` scope. The fetches are
  functions over the fields. `SetRulePreviousRun` runs the transaction
  step by step: upsert, resolve the id, delete the run's rows, then an
  insert loop (`InsertOutputs`). If the loop fails, the tables are restored,
  which models the rollback of `with self.con:`.

The environment's outcomes are parameters: whether `sqlite3_connect`
succeeds, how `path.unlink()` ends, and how the recreation ends (`ResetEnv`).
The id SQLite allocates for a new `rule_run` row is any id no row uses yet.

## Model

| member | source | states |
|---|---|---|
| `StoreSpec.LookupRun` | isengard2/_db.py:51 | the point lookup by fingerprint returns an id exactly when the fingerprint has a row, and then that row's id |
| `StoreSpec.LookupOutput` | isengard2/_db.py:58 | the point lookup by (run, target) returns a fingerprint exactly when that pair has a row, and then that row's fingerprint |
| `StoreSpec.FreshIdExists` | isengard2/_db.py:30 | the INTEGER PRIMARY KEY allocator has an id no row uses, for any finite table (the 64-bit bound is left out) |
| `StoreSpec.UpsertRun` | isengard2/_db.py:52-55 | the upsert adds `fp` and nothing else; every existing row keeps its id, so a conflict is a no-op; a new fingerprint gets the allocated id |
| `StoreSpec.DeleteOutputs` | isengard2/_db.py:56 | after the delete no row of the run remains, every row of another run is kept with its fingerprint, and no row is added |
| `StoreSpec.RecordRun` | isengard2/_db.py:118-131 | the transaction fails exactly when `outs` repeats a target, with the integrity error; on success the fingerprint looks up to the returned id |
| `StoreSpec.OutputRows` | isengard2/_db.py:129 | the rows `executemany` inserts all belong to the run, and each belongs to an entry of `outs`; every entry's (run, target) gets a row |
| `StoreSpec.Paired` | isengard2/_db.py:129 | reference reading of an output list: a found fingerprint is paired with the target in the list; None means no entry names the target |
| `StoreSpec.PairedAt` | isengard2/_db.py:40 | if no target repeats, each entry's fingerprint is what the list pairs with its target |
| `StoreSpec.OutputRowsAt` | isengard2/_db.py:129 | if no target repeats, the row inserted for each entry holds that entry's fingerprint, whatever the insertion order |
| `StoreSpec.OutputRowsRead` | isengard2/_db.py:129 | the inserted rows, read back target by target, equal the list's pairing (the row exists exactly when the list names the target) |
| `StoreSpec.InsertNext` | isengard2/_db.py:129 | one insertion step: the (run, target) key is taken only by an earlier entry of this call, and inserting yields the rows of one more entry |
| `StoreSpec.InsertedTargetRepeats` | isengard2/_db.py:40 | an insertion that hits an existing (run, target) row means the list repeats a target |
| `StoreSpec.NewTargetKeepsDistinct` | isengard2/_db.py:40 | an insertion that hits no row keeps the inserted prefix free of repeated targets |
| `StoreSpec.RecordRunResolvesId` | isengard2/_db.py:52-55 | the resolved id is the fingerprint's existing id, or the fresh id if it had no row; looking the fingerprint up afterwards returns that id |
| `StoreSpec.RecordRunKeepsRuns` | isengard2/_db.py:123 | no `rule_run` row is removed or changes its id; only `fp`'s row may be added |
| `StoreSpec.RecordRunKeepsIdsInjective` | isengard2/_db.py:30-31 | ids stay injective, and the resolved id belongs to no other fingerprint |
| `StoreSpec.RecordRunReplacesOutputs` | isengard2/_db.py:128-129 | afterwards the run's output for every target is exactly what `outs` pairs with it, or None; nothing of the earlier output set remains |
| `StoreSpec.RecordRunKeepsOtherOutputs` | isengard2/_db.py:56 | every other run's output rows are unchanged (the delete is scoped `WHERE run = ?`) |
| `StoreSpec.RecordRunKeepsReferences` | isengard2/_db.py:41-42 | every output row still refers to an existing run (the foreign key is kept although SQLite does not enforce it by default) |
| `StoreSpec.RecordRunTwice` | isengard2/_db.py:118-131 | recording the same fingerprint twice returns the same id, and the outputs then reflect only the second list |
| `StoreSpec.RecordRunDistinct` | isengard2/_db.py:30-31 | recording two different fingerprints returns two different run ids |
| `SchemaSpec.StoredVersion` | isengard2/_db.py:68-73 | the corrected version reading: the magic row's value when the version table has that row, and -1 in every other case (no table, no row, not a database) |
| `SchemaSpec.InitOrResetSpec` | isengard2/_db.py:61-97 | `init_or_reset_db` with the corrected version check: every failure is an IsengardDBError, and every success leaves a store whose version is DB_VERSION |
| `SchemaSpec.InitKeepsCompatible` | isengard2/_db.py:67-75 | a file whose version equals DB_VERSION is returned unchanged with all its rows, whatever unlink and recreate would do |
| `SchemaSpec.InitResetsIncompatible` | isengard2/_db.py:68-93 | if the version is missing, unreadable (-1) or different, a successful reset leaves no run or output rows and exactly one version row (VERSION_MAGIC_NUMBER, DB_VERSION) |
| `SchemaSpec.InitFailsOnlyAtThreePoints` | isengard2/_db.py:62-95 | with the corrected version check, the call fails exactly on a failed open, on an unlink failure other than file-not-found, or on a failed recreate; each is an IsengardDBError and an absent file is no error |
| `SchemaSpec.InitIsIdempotent` | isengard2/_db.py:61-97 | every successful call leaves a compatible store, so a second call that opens it keeps it as it is |
| `SchemaSpec.InitOnAbsentPath` | isengard2/_db.py:63-93 | opening an absent path successfully yields a ready store with zero run and output rows |
| `SchemaSpec.InitKeepsWellFormed` | isengard2/_db.py:28-32 | the file left behind still has injective run ids |
| `SchemaSpec.ReadVersionAsWritten` | isengard2/_db.py:68-73 | the version check as written: it returns the stored version, or -1 without a version table, and it fails exactly on a non-SQLite file or a version table that lacks the magic row |
| `SchemaSpec.MissingVersionRowEscapes` | isengard2/_db.py:69-73 | a version table without the magic row makes the written check raise, while the corrected check resets the store |
| `SchemaSpec.ForeignFileEscapes` | isengard2/_db.py:68-73 | a file that is not a database makes the written check raise, while the corrected check resets it |
| `SchemaSpec.FailedRecreateBreaksNextOpen` | isengard2/_db.py:86-95 | a recreation that fails after the version table was created leaves that table without the magic row; the written check then raises on the next call, while the corrected check resets the file |
| `Cache.DB.constructor` | isengard2/_db.py:107-110 | the object holds the file found at the path, with no connection open until `InitOrReset` opens it |
| `Cache.DB.InitOrReset` | isengard2/_db.py:61-97 | the new file and the outcome are those of `InitOrResetSpec` (corrected version check) on the old file; the connection is open exactly when the call succeeds |
| `Cache.DB.Close` | isengard2/_db.py:106-112 | the end of the `connect` scope closes the connection and leaves the file as it is |
| `Cache.DB.FetchRulePreviousRun` | isengard2/_db.py:114-116 | returns an id exactly when the fingerprint has a `rule_run` row, and then that row's id |
| `Cache.DB.FetchTargetOutputFingerprint` | isengard2/_db.py:133-135 | returns a fingerprint exactly when (run, target) has a row, and then that row's fingerprint |
| `Cache.DB.SetRulePreviousRun` | isengard2/_db.py:118-131 | the new tables are those of `RecordRun`; on a repeated target both tables are as before; on success, fetching `fp` returns the id, the run's outputs are exactly `outs`, other runs' outputs and all earlier run ids are kept |
| `Cache.DB.InsertOutputs` | isengard2/_db.py:129 | the insert loop succeeds exactly when no target repeats, and then adds exactly the rows of `outs` |

## Left out

- The SQLite engine, the SQL text and the cursor API. The tables are maps
  whose behaviour follows the constraints and statements in the file.
- The file system and SQLite side effects of `sqlite3_connect`, `path.unlink()`
  and the recreation. Their outcomes are the `ResetEnv` parameter.
- The exact id SQLite's `INTEGER PRIMARY KEY` picks. The model only promises
  an id no row uses; `SetRulePreviousRun` returns it as a ghost value.
- `StoreSpec.FreshIdExists`: ids are unbounded integers. SQLite's rowids are
  64-bit, and an insert fails with SQLITE_FULL once none is left; that
  failure is not modelled.
- Concurrency and cross-process locking, which are left to SQLite. A
  busy/locked or I/O error while opening or recreating the file surfaces as
  IsengardDBError; the model covers it only as a failed step of `ResetEnv`.
- `SchemaSpec.InitKeepsCompatible` covers only a version read that succeeds.
  The version read catches every OperationalError, including "database is
  locked" once SQLite's busy timeout runs out and "disk I/O error", and
  takes it as version -1. A transient failure of that read therefore makes
  the code delete and recreate a compatible cache, possibly one another
  process is using. The model has no transient read failure, so it does not
  capture this.
- `IsengardDBError` and `ResolvedTargetID` come from `_exceptions` and
  `_target`. Those files are not part of this model. The error is a
  `Failure` variant and a target id is a string.
- The context manager of `DB.connect`. It is modelled as `InitOrReset`
  followed by `Close`, and the fetches require an open connection. The
  model builds the `DB` object on the file first and opens the connection
  afterwards, so a failed open leaves a closed object; the code raises
  before any `DB` object exists.
- `Cache.DB.InitOrReset`: it, `SchemaSpec.InitOrResetSpec` and the lemmas
  about it follow the corrected version check `StoredVersion`, which reads
  a non-database file or a version table without the magic row as -1 and
  resets the file. The code as written raises on those files;
  `SchemaSpec.ReadVersionAsWritten` models that check.
- Which of the `rule_run` and `target_output` tables exist after a failed
  recreation. Python's sqlite3 module runs CREATE TABLE outside any
  transaction, so the statements before the failure stay. The model records
  only whether the version table was created (then empty, since the INSERT
  is rolled back). Only the corrected check resets such a file on the next
  call; the code as written raises TypeError on it.
- `Cache.DB.InitOrReset`: after a failed recreate, the Python connection is
  not closed explicitly. The model marks it closed, since no `DB` object is
  ever built on it.

## Findings

| source | as written | input that shows it | evidently intended | confidence | as-written member | corrected member |
|---|---|---|---|---|---|---|
| isengard2/_db.py:68-73 | `current_db_version, = cur.fetchone()` unpacks None when the version table has no row for the magic number. The resulting TypeError is not caught | a database whose `version` table exists but is empty, which the program itself leaves behind when a recreation fails after its first CREATE TABLE (`SchemaSpec.FailedRecreateBreaksNextOpen`) | treat the store as invalid (version -1) and reset it, as the comment on line 72 says | medium, not executed | `SchemaSpec.MissingVersionRowEscapes` | `SchemaSpec.InitResetsIncompatible` |
| isengard2/_db.py:68-73 | only OperationalError is caught; a file that is not an SQLite database raises DatabaseError, its parent class, which escapes | any non-SQLite file at the path | treat the file as an incompatible store and reset it | medium, not executed | `SchemaSpec.ForeignFileEscapes` | `SchemaSpec.InitResetsIncompatible` |
