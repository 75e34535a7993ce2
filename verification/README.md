# baudolo (backup-docker-to-local), modelled in Dafny

baudolo backs up the Docker volumes of one host into a versioned directory tree. Each run creates
`<backups_dir>/<machine_id>/<repo_name>/<timestamp>/`. For every volume it then:

- dumps the MariaDB and PostgreSQL databases of the volume's containers into `sql/`, using the
  credentials in `databases.csv`;
- copies the volume's files into `files/` with rsync, hard-linked against the newest other
  snapshot;
- stops and restarts the attached containers around a second copy when their images ask for it.

At the end of the run, it hard-restarts the Docker Compose projects named on the command line. A
separate seeder adds or updates rows of `databases.csv`. The restore side finds a backup by the
same layout.

The model is a set of pure functions. Every command whose effect or failure the model tracks
becomes a structured `Actions.Command`: the dumps, rsync, `docker stop`/`start` and the compose
calls. How such a command ends is decided by an `Oracle` that sees every action taken before it. A component returns the actions it takes and whether it ended normally or by an
exception (`Actions.Run`). Docker's answers are fields of `App.Host`:

- the volume list;
- the containers per volume;
- each container's image and each volume's mountpoint;
- the listing of the versions directory;
- the parsed credential table.

The modules follow the source:

- `Volume`: `backup/volume.py`.
- `Db`: `backup/db.py`.
- `Compose`: `backup/compose.py`.
- `App`: `backup/app.py` and the two helpers of `backup/docker.py` it uses.
- `Seed`: `seed/__main__.py`.
- `RestorePaths`: `restore/paths.py`.
- Shared helpers:
  - `Text`: Python's `in` and `str.strip()`;
  - `Lex`: Python's string order and `sorted(..., reverse=True)`;
  - `PosixPath`: `os.path.join` and `os.path.basename`;
  - `Credentials`: selecting the table rows of an instance.

## Model

| member | source | states |
|---|---|---|
| Text.Contains | src/baudolo/backup/docker.py:12-14 | `p in s` holds exactly when `p` occurs in `s` at some position |
| Text.Strip | src/baudolo/seed/__main__.py:15 | the stripped value is a contiguous slice of the input with only whitespace cut from either end, and it neither starts nor ends with whitespace |
| Text.StripIdempotent | src/baudolo/seed/__main__.py:15 | stripping twice is stripping once |
| Text.StripEmptyIffAllSpace | src/baudolo/seed/__main__.py:15-20 | a value strips to empty exactly when it is all whitespace |
| Lex.LexLessCharacterization | src/baudolo/backup/volume.py:19 | Python's string `<` is "proper prefix, or smaller at the first difference" |
| Lex.LexLeqReflexive | src/baudolo/backup/volume.py:19 | the version order is reflexive |
| Lex.LexLeqTotal | src/baudolo/backup/volume.py:19 | any two version names are comparable |
| Lex.LexLeqAntisymmetric | src/baudolo/backup/volume.py:19 | two names each `<=` the other are equal |
| Lex.LexLeqTransitive | src/baudolo/backup/volume.py:19 | the version order is transitive |
| Lex.Insert | src/baudolo/backup/volume.py:19 | inserting into a descending list keeps it descending and adds exactly that element |
| Lex.SortDesc | src/baudolo/backup/volume.py:19 | `sorted(versions, reverse=True)` is a descending permutation of the listing |
| Lex.SortedDescUnique | src/baudolo/backup/volume.py:19 | there is only one descending arrangement of a listing, so the sort result is determined |
| PosixPath.Basename | src/baudolo/backup/compose.py:54 | the basename is the longest suffix without `/` |
| PosixPath.BasenameOfJoin | src/baudolo/backup/compose.py:53-54 | the basename of `join(parent, name)` is `name` for a single component |
| PosixPath.JoinAllAppend | src/baudolo/restore/paths.py:17-23 | joining in two steps equals joining all parts at once |
| Volume.FirstQualifying | src/baudolo/backup/volume.py:20-24 | the loop returns the first listed version whose snapshot exists and is not the current destination, or none when no version qualifies |
| Volume.LastBackupVersion | src/baudolo/backup/volume.py:16-24 | the chosen version is the greatest listed version that qualifies; there is none exactly when no version qualifies |
| Volume.CandidateShape | src/baudolo/backup/volume.py:21-29 | a version's snapshot path is the rsync destination that version's run wrote |
| Volume.LastBackupDir | src/baudolo/backup/volume.py:16-24 | the link base is an existing snapshot directory other than the destination, of the newest qualifying version |
| Volume.ExcludesExactlyCurrentVersion | src/baudolo/backup/volume.py:21-22 | the `!= current` test rules out the version being written and, for single-component names, no other version |
| Volume.BackupVolume | src/baudolo/backup/volume.py:27-46 | create `files/`, then one rsync from the mountpoint with the fixed flags; `--link-dest` is present exactly when some other snapshot qualifies; only a failure that does not mention vanished files aborts |
| Credentials.EntriesFor | src/baudolo/backup/db.py:40 | the selected rows are exactly the rows of the instance |
| Credentials.EntriesForAppend | src/baudolo/backup/db.py:40 | selection keeps table order |
| Db.CutAtMarker | src/baudolo/backup/db.py:18 | the cut ends at the first `_`/`-` followed by `database`, `db` or `postgres`, and no earlier marker exists |
| Db.GetInstance | src/baudolo/backup/db.py:15-18 | a listed container is its own instance; otherwise the instance is the name's prefix before the first marker, or the whole name when there is none |
| Db.PgSingle | src/baudolo/backup/db.py:69-81 | one pg_dump; when it fails, exactly one pg_dumpall with the same credentials into the cluster file; only a failed pg_dumpall aborts |
| Db.BackupDatabase | src/baudolo/backup/db.py:39-46 | nothing at all when no row names the instance; otherwise `sql/` is created first |
| Db.DumpRowsOnlyDumpRows | src/baudolo/backup/db.py:48-82 | every action of the dump loop is a dump of this container with the credentials of one of the rows, writing that row's file or the cluster file, and of the right engine |
| Db.MariadbOneDumpPerRow | src/baudolo/backup/db.py:55-61 | MariaDB: exactly one mariadb-dump per row, in table order; the loop completes exactly when all succeed, and otherwise stops at the first failure |
| Db.PostgresDumpsUntilEmptyRow | src/baudolo/backup/db.py:63-82 | PostgreSQL, on completion: one pg_dump per row, in order, up to the first row with an empty database |
| Db.PostgresFallback | src/baudolo/backup/db.py:69-81 | every failed pg_dump is followed at once by the pg_dumpall fallback; conversely a pg_dumpall is run only right after a failed pg_dump with the same container and credentials, or as the last action for a row without a database; an aborted loop ended with a failed pg_dumpall |
| Db.PostgresEmptyRowStops | src/baudolo/backup/db.py:65-67 | a row with an empty database ends the loop with a pg_dumpall, and later rows are not processed |
| Db.BackupDatabaseOnlyDumps | src/baudolo/backup/db.py:31-82 | `backup_database` only creates `sql/` and dumps the container's instance rows, every dump, cluster dumps included, using the credentials of a row of that instance |
| Db.DumpRowsFollowPlan | src/baudolo/backup/db.py:48-82 | the loop's single-database dumps are always a prefix of the rows' plan (one mariadb-dump per row, or one pg_dump per row before the first empty database), and the whole plan when the loop returns normally |
| Db.BackupDatabaseDumpsRows | src/baudolo/backup/db.py:31-82 | `backup_database` dumps its instance's rows in table order without skipping one; after `sql/`, MariaDB does one mariadb-dump per row up to the first failure, and PostgreSQL falls back after every failed pg_dump, runs pg_dumpall only as that fallback or last for a row without a database, and ends early only on a failed pg_dumpall |
| Db.DumpRowsSucceed | src/baudolo/backup/db.py:48-82 | when every command succeeds, the dump loop returns normally |
| Db.BackupDatabaseSucceeds | src/baudolo/backup/db.py:31-82 | when every command succeeds, `backup_database` returns normally |
| Compose.ParseRender | src/baudolo/backup/compose.py:24-28 | a compose command line can be read back as the call it renders |
| Compose.RenderParse | src/baudolo/backup/compose.py:24-28 | every command line that reads as a call is that call's rendering |
| Compose.BuildComposeCmd | src/baudolo/backup/compose.py:10-30 | the `compose` wrapper when it is found, else `docker compose`, else an error; the resolved directory and the passthrough arguments are kept |
| Compose.HardRestart | src/baudolo/backup/compose.py:33-43 | nothing runs when no tool is found; otherwise `down` then `up -d` on the resolved directory, stopping at the first failure |
| Compose.HandleComposeServices | src/baudolo/backup/compose.py:46-66 | the compose step runs only checked compose commands |
| Compose.SelectionRule | src/baudolo/backup/compose.py:50-62 | an entry is restarted exactly when it is a directory holding `docker-compose.yml` and its own name is listed |
| Compose.SelectedDirsMembership | src/baudolo/backup/compose.py:49-62 | the selected project directories are exactly those of entries passing that test |
| Compose.CompletedFollowsPlan | src/baudolo/backup/compose.py:46-66 | a completed compose step did down and up for each selected directory, in scan order, and nothing else |
| Compose.ComposeStepSucceeds | src/baudolo/backup/compose.py:30-66 | when every command succeeds, the compose step returns normally exactly when no directory is selected or a compose tool is found, and otherwise fails for lack of one |
| App.AnyPatternIn | src/baudolo/backup/app.py:51 | true exactly when some pattern occurs in the image |
| App.IsImageIgnored | src/baudolo/backup/app.py:47-51 | an empty pattern list ignores nothing; otherwise a container is ignored exactly when some pattern occurs in its image |
| App.AllIgnored | src/baudolo/backup/app.py:62 | true exactly when every container is ignored |
| App.VolumeIsFullyIgnored | src/baudolo/backup/app.py:54-62 | true exactly when the volume has containers and every one runs an ignored image |
| App.RequiresStop | src/baudolo/backup/app.py:65-73 | true exactly when some container's image matches no no-stop pattern; never with no containers, always with an empty whitelist and some container |
| App.BackupMariadbOrPostgres | src/baudolo/backup/app.py:76-96 | answers whether the image names mariadb or postgres, and does nothing when it does not; a database container gets only `sql/` and dumps of the right engine, and its instance's rows are dumped in table order, all of them when the call returns normally |
| App.DumpsForVolume | src/baudolo/backup/app.py:99-119 | only directory creations and dumps; every container is visited in order with no early exit, so the dumps are a prefix of each database container's rows, container after container, and all of them on completion, when the answer is whether some container is a database container |
| App.ChangeContainersStatus | src/baudolo/backup/docker.py:27-34 | nothing for no containers; otherwise one stop or start of all of them, aborting exactly when it fails |
| App.SkipFiles | src/baudolo/backup/app.py:149-151 | as written, the test raises for a missing attribute; read as a plain flag, it is `--dump-only-sql` alone; as documented, a volume is skipped exactly when `--dump-only-sql` is set and a dump was produced |
| App.FileBackup | src/baudolo/backup/app.py:149-176 | the file-backup part of the loop body runs no dump |
| App.VolumeRoutine | src/baudolo/backup/app.py:139-176 | each volume's loop body begins by creating the volume directory |
| App.DumpsBeforeFiles | src/baudolo/backup/app.py:139-176 | in a volume's loop body every dump comes before every copy, stop and start |
| App.RoutineDumpsFollowPlan | src/baudolo/backup/app.py:139-147 | a volume's single-database dumps are a prefix of its containers' row plans, in container order, and all of them when the dumps phase returns normally |
| App.AbortLeavesContainersStopped | src/baudolo/backup/app.py:161-176 | a loop body that raises has started no container again, so containers stopped for the second copy stay stopped |
| App.VolumePhases | src/baudolo/backup/app.py:149-176 | on completion, the copies, stops and starts are exactly those the mode table gives |
| App.StoppedContainersRestart | src/baudolo/backup/app.py:161-176 | each stop is followed by a copy and then by a start of the same containers unless `--shutdown`; with `--shutdown`, nothing is started |
| App.PlanRestarts | src/baudolo/backup/app.py:161-176 | the mode table itself restarts what it stops, unless `--shutdown` |
| App.UnusedVolumeIsCopied | src/baudolo/backup/app.py:170-176 | in the corrected run (`Intended`), a volume with no running container is copied once, or twice with `--everything`, even with `--dump-only-sql` |
| App.DumpOnlySqlSkipsExactlyDumpedVolumes | src/baudolo/backup/cli.py:72-81 | with `--dump-only-sql`, a volume that is not fully ignored is left uncopied exactly when a dump was produced for it; otherwise its live copy is made |
| App.EmptyTableFallsBackToFiles | src/baudolo/backup/cli.py:76-79 | with an empty credential table, no dump is produced and every volume gets its usual file backup, whatever the mode |
| App.NoRowsNoDumps | src/baudolo/backup/db.py:39-43 | with no credential rows, a volume's containers dump nothing |
| App.Attribute | src/baudolo/backup/cli.py:13-81 | attribute access succeeds exactly for the eleven options the parser defines, the switches read back as given, and any other name raises for that name |
| App.DumpOnlyIsMissing | src/baudolo/backup/app.py:150 | the parser defines no `dump_only`, so reading it raises |
| App.AsFlagCopiesNothing | src/baudolo/backup/app.py:149-151 | read as a plain flag, `--dump-only-sql` leaves every volume without a copy, stop or start |
| App.AsFlagSkipsUnusedVolume | src/baudolo/backup/app.py:149-151 | read as a plain flag, `--dump-only-sql` leaves a volume no container uses with no dump and no copy, and the run goes on |
| App.FlagAgreesWithoutDumpOnly | src/baudolo/backup/app.py:149-176 | without `--dump-only-sql`, the loop body with the option read by its own name is the corrected loop body, so the mode table proved for the corrected run holds for the code with the name fixed |
| App.FlagLoopAgreesWithoutDumpOnly | src/baudolo/backup/app.py:133-176 | the same for the whole loop over the volumes |
| App.FlagMainAgreesWithoutDumpOnly | src/baudolo/backup/app.py:122-187 | the same for all of `main`, the compose step included |
| App.UnreadableFlagAborts | src/baudolo/backup/app.py:139-151 | as written, each volume ends after its directory and dumps, before any copy, stop or start |
| App.AsWrittenStopsAtFirstVolume | src/baudolo/backup/app.py:122-187 | as written, the run aborts in the first volume, with no copy, no stop or start, and no compose command |
| App.DumpsForVolumeSucceed | src/baudolo/backup/app.py:99-119 | when every command succeeds, a volume's dumps all run |
| App.FileBackupSucceeds | src/baudolo/backup/app.py:153-176 | when every command succeeds, the file backup returns normally |
| App.VolumeRoutineSucceeds | src/baudolo/backup/app.py:135-176 | when every command succeeds, a volume's loop body returns normally |
| App.VolumesLoopSucceeds | src/baudolo/backup/app.py:135-176 | when every command succeeds, the volume loop returns normally |
| App.MainSucceeds | src/baudolo/backup/app.py:122-187 | when every command succeeds, a run ends normally exactly when no hard restart is due or a compose tool is found, and otherwise fails for lack of one |
| Seed.MatchesDbNameRe | src/baudolo/seed/__main__.py:12 | the anchored pattern accepts a name, and also a name followed by one final newline, since Python's `$` matches before one |
| Seed.StrippedMatchesExactly | src/baudolo/seed/__main__.py:15-27 | after stripping, the pattern accepts exactly the intended names |
| Seed.ValidateDatabaseValue | src/baudolo/seed/__main__.py:14-32 | empty after stripping is refused; `*` is accepted; `nan` in any case is refused; otherwise it is accepted, stripped, exactly when it is a valid name |
| Seed.ValidateIdempotent | src/baudolo/seed/__main__.py:14-32 | an accepted value is accepted again unchanged |
| Seed.AcceptsNameWithDash | src/baudolo/seed/__main__.py:27-32 | a padded `my_db-1` is accepted as `my_db-1` |
| Seed.AcceptsPaddedStar | src/baudolo/seed/__main__.py:21-22 | ` * ` is accepted as `*` |
| Seed.RefusesLeadingDash | src/baudolo/seed/__main__.py:27-31 | `-db` is refused as an invalid name |
| Seed.RefusesInnerSpace | src/baudolo/seed/__main__.py:27-31 | `a b` is refused as an invalid name |
| Seed.RefusesNan | src/baudolo/seed/__main__.py:23-26 | `nan` in any case is refused as not-a-number |
| Seed.RefusesBlank | src/baudolo/seed/__main__.py:15-20 | a blank or missing value is refused as empty |
| Seed.UpdateCredentials | src/baudolo/seed/__main__.py:62-66 | rows with the key get the new username and password; all others are unchanged |
| Seed.Upsert | src/baudolo/seed/__main__.py:62-73 | if the key is present, the table keeps its length and only keyed rows change; otherwise the row is appended |
| Seed.CheckAndAddEntry | src/baudolo/seed/__main__.py:34-75 | fails exactly when validation fails, with the same error; otherwise writes the validated row into the file's table, or into an empty one |
| Seed.UpdateFixedPoint | src/baudolo/seed/__main__.py:64-66 | updating rows that already hold the credentials changes nothing |
| Seed.UpsertIdempotent | src/baudolo/seed/__main__.py:62-73 | writing the same row twice equals writing it once |
| Seed.SeedIdempotent | src/baudolo/seed/__main__.py:34-75 | seeding the same entry twice equals seeding it once |
| Seed.UpsertEntryFound | src/baudolo/seed/__main__.py:62-73 | after writing, the row is among the rows of its instance |
| Seed.SeedEntryFound | src/baudolo/seed/__main__.py:34-75 | after seeding, the backup side's row selection finds the validated row |
| Seed.UpsertKeepsKeysUnique | src/baudolo/seed/__main__.py:62-73 | writing never creates a second row for a key |
| Seed.SeedKeepsKeysUnique | src/baudolo/seed/__main__.py:34-75 | seeding never creates a second row for a key |
| Seed.SeedMain | src/baudolo/seed/__main__.py:78-103 | exit status 1 exactly when the value is refused, with the file untouched; otherwise 0 and the seeded table |
| RestorePaths.WithDefaultDir | src/baudolo/restore/paths.py:7-13 | the backups directory defaults to `/Backups`, and the other fields are kept |
| RestorePaths.RestoreFindsBackup | src/baudolo/restore/paths.py:15-29 | root, files directory and SQL file are the volume directory, the rsync destination and the dump file that the backup side wrote, for any names |
| RestorePaths.RootLayout | src/baudolo/restore/paths.py:15-23 | for single components, the root is the backups directory followed by hash, repository, version and volume |
| RestorePaths.AbsoluteVolumeLeavesBackupsDir | src/baudolo/restore/paths.py:16-23 | a volume name starting with `/` makes the root that name, outside the backups directory |
| RestorePaths.RootInjective | src/baudolo/restore/paths.py:15-23 | under one backups directory, equal roots mean equal hash, repository, version and volume |
| RestorePaths.SqlFileNotFilesDir | src/baudolo/restore/paths.py:25-29 | a SQL file is never the files directory |

## Left out

- Clock and machine id: the time stamp and machine id are fields of `App.Host`, not read.
- The dirval stamp of the version directory (app.py:179): it is a foreign library call with no
  effect on the tree the model describes.
- Logging and `print`, including the dump-only warning: not modelled.
- `docker volume ls`, `docker ps`, `docker inspect` and `docker volume inspect`: their answers are
  `App.Host` fields, and their own failures are not modelled.
- `shutil.which` and `Path.resolve`: these are parameters of the compose step.
- `os.scandir`, `os.path.isfile`, `os.listdir` and `os.path.isdir`: these are inputs. The listing is
  taken as fixed during a run.
- `mkdir -p` never fails in the model.
- Commands are structured values rather than shell strings. Shell quoting, and credentials that
  contain spaces or shell metacharacters, are not modelled.
- `pandas.read_csv` on the backup side (app.py:131): the credential table arrives already parsed.
  Without `keep_default_na=False`, an empty `database` cell reaches the code as NaN, which is
  truthy. So the `not db_name` branch (db.py:65) is not reached from an empty cell. The model
  gives that branch the empty string and does not model NaN.
- An exception aborts the whole run, so the volumes after it get nothing (app.py:135-176 has no
  `try`).
- The backup side has no special case for `*`: a `*` row is dumped with `-d *`, and its pg_dump
  failure falls back to pg_dumpall (db.py:63-82).
- Dumps are written straight to their file by shell redirection, with no temporary file and no
  rename (db.py:56-60, 70-74).
- A fully ignored volume still gets its volume directory (app.py:139), though not `files/`.
- The restore runners (restore/run.py, restore/files.py, restore/db/) and the legacy top-level
  scripts are not part of this model. Only the path layout of restore/paths.py is.
- App.DumpsForVolume: its answer is stated only for a run that completes. Its docstring promises
  "at least one dump was produced", but the code answers "some container is a database container",
  and `main` ignores the answer. The documented dump-only behaviour is modelled through
  `App.DumpProduced` instead.
- Compose.CompletedFollowsPlan: states the plan only for a compose step that completes. An aborted
  step is described by `Compose.HardRestart` per directory.
- Db.PostgresDumpsUntilEmptyRow: states the pg_dump sequence only for a loop that completes. For an
  aborted loop, `Db.PostgresFallback` states how it ended and `Db.DumpRowsFollowPlan` that its
  pg_dumps are a prefix of the plan.
- App.VolumePhases: states the mode table only for a volume whose loop body completes.
- App.FileBackup: its own contract says only that it runs no dump. What it copies, stops and
  starts is stated by `App.VolumePhases`.
- App.VolumeRoutine: its own contract says only that it starts with the volume directory. Its
  dumps are stated by `App.RoutineDumpsFollowPlan`, their order before the file phase by
  `App.DumpsBeforeFiles`, the file phase by `App.VolumePhases`, `App.UnreadableFlagAborts` and
  `App.AsFlagCopiesNothing`, and an abort by `App.AbortLeavesContainersStopped`.
- Compose.HandleComposeServices: its own contract says only that it runs checked compose commands.
  What it runs is stated by `Compose.CompletedFollowsPlan`.
- App.UnusedVolumeIsCopied: states the copies only for a loop body that completes.
- App.StoppedContainersRestart: states the restart only for a loop body that completes. A body
  that raises restarts nothing, which `App.AbortLeavesContainersStopped` states.
- Seed.SeedMain: its "exit 1 exactly when the value is refused" covers validation only. The
  program also exits 1 when `pd.read_csv` raises on an existing file that is empty or malformed
  (seed/__main__.py:50-56), when the file lacks an `instance` or `database` column (line 62),
  and when `to_csv` fails (line 75). The model takes the file as an already parsed table and
  the write as always succeeding.
- Seed.SeedEntryFound: holds of the table the seeder writes, read back as the same values. The
  seeder reads with `keep_default_na=False` (seed/__main__.py:51-56) but the backup side reads
  with pandas' defaults (app.py:131), which turn the cells `NA`, `NULL`, `None`, `null`, `N/A`,
  `NaN`, `<NA>` and the other default NA spellings into NaN. A seeded instance with such a name,
  or a seeded database `NA`, `NULL`, `None` or `null` (the seeder accepts these), is not found
  as written by the backup side. The model does not model NaN.

## Findings

| source | as written | input that shows it | evidently intended | confidence | as-written member | corrected member |
|---|---|---|---|---|---|---|
| src/baudolo/backup/app.py:150 | the dump-only test reads `args.dump_only`, which the parser never defines (it defines `dump_only_sql`, cli.py:72-73) | any run on a host with at least one Docker volume: the first volume's dumps run, then the attribute access raises, so no file is copied and the compose step never runs | read the option the parser defines, so that a run whose commands all succeed gets past the volumes | high; not executed | App.AsWrittenStopsAtFirstVolume | App.MainSucceeds |
| src/baudolo/backup/app.py:149-151 | even with the option's name corrected, the test skips the file backup of every volume, whether or not a dump was produced for it | `--dump-only-sql` with a volume no container uses: nothing is dumped for it and nothing is copied | as the `--dump-only-sql` help says (cli.py:76-79): skip the file backup of a volume exactly when a dump was produced for it; back up every other volume's files as usual | high; not executed | App.AsFlagSkipsUnusedVolume | App.DumpOnlySqlSkipsExactlyDumpedVolumes |

`App.Main` is the corrected run. It uses the documented rule (`App.SkipFiles` with `Intended`).
`App.MainAsWritten` is the run as written. `App.SkipFiles` with `AsFlag` is the test as its comment
reads (app.py:149, "skip ALL file rsync backups"), with the option's name corrected. That reading
contradicts the option's help text and the behaviour the repository's end-to-end tests expect
(tests/e2e/test_e2e_dump_only_fallback_to_files.py). The corrected member follows the help text.
