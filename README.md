# MySQL backup daemon — a Dafny model

This project models the decision logic of `src/backup_mysql.py`, a daemon
that dumps every MySQL database to a compressed archive, uploads the archive
to an S3-compatible bucket, empties its local backup directory, and prunes
old archives from the bucket. The model covers:

- the file and key names: `backup_<db>_<YYYY-MM-DD_HH-MM-SS>.sql`, its
  `.tar.gz` archive, and the `%Y-%m-%d_%H-%M-%S` format and parse
  (`Timestamp`, `Naming`);
- the ignored-databases setting, a comma-split and whitespace-stripped
  string (`Config`);
- the remote retention rule and the cleanup walk over the bucket listing
  (`Retention`);
- the three loops that change state — the backup pass, the local purge and
  the remote cleanup — as methods of the class `Backup.BackupStorage`, which
  holds the set of file names in the backup directory and the set of keys in
  the bucket. Each method is proved against a pure function (`BackupOver`,
  `Purged`, `Sweep`), and the properties are proved about those functions.

Time is counted from 0001-01-01 00:00:00 with no time zone, as the naive
`datetime` values of the source are: a backup time is a whole number of
seconds (`Timestamp.Seconds`), and `now` is an integer count of microseconds
(`Retention.Micros` converts a backup time to the same unit).

The outside tools are parameters. The database list, one clock reading per
database, one `ToolOutcome` per database (whether `mysqldump`, `tar` and the
upload succeed), the cleanup's `now` and the bucket listing are all inputs.

Nothing in `backup_mysql`, `cleanup_local_backups` or `cleanup_old_backups`
catches an exception, and the model keeps that:

- a failing `mysqldump` or `tar` (`check=True`) or a failing upload raises
  at src/backup_mysql.py:79-91 and leaves `backup_mysql`. The databases
  after it are not backed up.
- a key whose time cannot be read makes `strptime` raise at
  src/backup_mysql.py:114, which leaves `cleanup_old_backups`. The keys
  after it are not looked at.
- the local purge removes every `*.tar.gz` file; no local archive is kept.

## Model

| member | source | states |
|---|---|---|
| Config.IgnoredDatabases | src/backup_mysql.py:33 | element i of the ignore list is the stripped i-th comma-separated piece of the setting, and there is one element per piece |
| Config.IgnoredDatabasesShape | src/backup_mysql.py:33 | the ignore list has one more entry than the setting has commas; no entry holds a comma or starts or ends with whitespace |
| Config.IgnoredDatabasesExample | src/backup_mysql.py:33 | the setting `" a ,b"` gives the ignore list `["a", "b"]` |
| Config.Split | src/backup_mysql.py:33 | `str.split(',')` gives at least one piece and no piece contains the separator |
| Config.JoinSplit | src/backup_mysql.py:33 | joining the pieces of a split with the separator gives back the original string |
| Config.SplitJoin | src/backup_mysql.py:33 | splitting a join of separator-free pieces gives back the pieces |
| Config.SplitCount | src/backup_mysql.py:33 | a split has exactly one more piece than the string has separators |
| Config.LeadingSpaces | src/backup_mysql.py:33 | the count of leading whitespace characters is maximal: all counted characters are whitespace and the next one is not |
| Config.TrailingSpaces | src/backup_mysql.py:33 | the same for trailing whitespace |
| Config.StripSpec | src/backup_mysql.py:33 | `str.strip()` returns a contiguous slice whose removed ends are all whitespace and whose own ends are not whitespace |
| Config.IsSpace | src/backup_mysql.py:33 | the characters `str.strip()` removes: the code points Python's `str.isspace` accepts |
| Config.Strip | src/backup_mysql.py:33 | `str.strip()`, the slice between the leading and the trailing whitespace; its meaning is stated by `StripSpec` |
| Timestamp.DaysInMonth | src/backup_mysql.py:74 | every month has 28 to 31 days |
| Timestamp.SecondOfDay | src/backup_mysql.py:121-122 | the time of day in seconds lies in [0, 86400) |
| Timestamp.Midnight | src/backup_mysql.py:121 | `replace(hour=0, minute=0, second=0)` keeps the date and zeroes the time |
| Timestamp.Seconds | src/backup_mysql.py:116-122 | the timeline the comparisons use: whole days since 0001-01-01 times 86400 plus the time of day; `MidnightOffset` and the retention lemmas state its properties |
| Timestamp.MidnightOffset | src/backup_mysql.py:121-122 | a time minus its own midnight is its second count modulo 86400, so it lies in [0, 86400) |
| Timestamp.FormatShape | src/backup_mysql.py:74 | `%Y-%m-%d_%H-%M-%S` gives 19 characters: digits, with `-` and `_` at the fixed separator positions |
| Timestamp.Format | src/backup_mysql.py:74 | `strftime("%Y-%m-%d_%H-%M-%S")`, the zero-padded fields joined by the literal separators; `FormatShape`, `FormatFields` and `ParseFormat` state its properties |
| Timestamp.FormatFields | src/backup_mysql.py:74 | each field of the formatted text is the zero-padded field of the date |
| Timestamp.ParseFormat | src/backup_mysql.py:74 | parsing the formatted text gives back the same date, to the second |
| Timestamp.FormatParse | src/backup_mysql.py:114 | any text the parser accepts is exactly the formatted text of the date it yields |
| Timestamp.Parse | src/backup_mysql.py:114 | `strptime` with that format accepts only text of the shape `DDDD-DD-DD_DD-DD-DD`, and yields a real date |
| Timestamp.ParsedHasUnderscore | src/backup_mysql.py:114 | any text the parser accepts contains `_` |
| Naming.DumpName | src/backup_mysql.py:74-75 | the dump file name ends in `.sql` |
| Naming.ArchiveName | src/backup_mysql.py:86 | the archive name ends in `.tar.gz` |
| Naming.ObjectKey | src/backup_mysql.py:86-91 | the key an archive is uploaded under, `backup_<db>_<time>.sql.tar.gz`; `BaseNameOfArchive` and `StampOfObjectKey` state its properties |
| Naming.BaseName | src/backup_mysql.py:91 | `os.path.basename`, the text after the last `/`; `BaseNameOfArchive` states it on an archive path |
| Naming.MatchesArchiveGlob | src/backup_mysql.py:100 | the names `glob("*.tar.gz")` matches: ending in `.tar.gz` and not starting with `.`; `GlobMatchesArchivesOnly` states it on the daemon's names |
| Naming.AfterLast | src/backup_mysql.py:114 | `split('_')[-1]` is the longest suffix without `_`: it is all of the key or follows a `_` |
| Naming.AfterLastAppend | src/backup_mysql.py:114 | the text after the last `_` of `a + "_" + b` is `b` when `b` has no `_` |
| Naming.RemoveAll | src/backup_mysql.py:114 | `replace(p, '')` never lengthens the text and adds no character |
| Naming.RemoveAllAbsent | src/backup_mysql.py:114 | removing a pattern that does not occur leaves the text unchanged |
| Naming.KeyStampOfObjectKey | src/backup_mysql.py:114 | on a key built by the daemon, the extracted text is `HH-MM-SS.sql.tar.gz` |
| Naming.KeyStamp | src/backup_mysql.py:114 | the text handed to `strptime` as written: the part after the last `_` with every `.sql.gz` removed; `KeyStampOfObjectKey` states its value on a daemon key |
| Naming.ParseKey | src/backup_mysql.py:114 | the time read from a key as written, `strptime` of that text; `ParseKeyAlwaysFails` states it is never readable |
| Naming.StampOfKey | src/backup_mysql.py:114 | the corrected reader: `strptime` of the 19 characters between `backup_<db>_` and `.sql.tar.gz`; `StampOfObjectKey` and `ObjectKeyOfStamp` state it inverts `ObjectKey` |
| Naming.ParseKeyAlwaysFails | src/backup_mysql.py:114 | the extraction as written never yields a parsable time, for any key |
| Naming.StampOfObjectKey | src/backup_mysql.py:74-75 | the corrected extraction reads back the backup time of every key the daemon builds |
| Naming.ObjectKeyOfStamp | src/backup_mysql.py:74-75 | every key the corrected extraction accepts is the key of some database at the time it yields |
| Naming.BaseNameOfArchive | src/backup_mysql.py:91 | `os.path.basename` of the archive path is the key `backup_<db>_<time>.sql.tar.gz` |
| Naming.GlobMatchesArchivesOnly | src/backup_mysql.py:100 | `*.tar.gz` matches an archive name but not a dump name, and the two names differ |
| Retention.DailyTestNeverFires | src/backup_mysql.py:120-124 | the daily-band test `backup_time - midnight >= 86400 s` is false for every backup time |
| Retention.ShouldDelete | src/backup_mysql.py:116-124 | the per-key decision as written: older than `now - 7 days`, or between 7 days and 24 h old with at least 86400 s since its own midnight; `ShouldDeleteIffStale` and the band lemmas state what it decides |
| Retention.ShouldDeleteIffStale | src/backup_mysql.py:116-124 | the per-key decision deletes exactly the keys strictly older than `now - 7 days` |
| Retention.RecentKept | src/backup_mysql.py:116-120 | a key at or after `now - 24 h` is kept |
| Retention.DailyBandKept | src/backup_mysql.py:120-124 | a key between `now - 7 days` and `now - 24 h` is kept |
| Retention.ExactlyAWeekOldKept | src/backup_mysql.py:116 | a key exactly 7 days old is kept |
| Retention.NineDaysOldDeleted | src/backup_mysql.py:116-117 | a key judged nine days later at the same time of day, with both dates in the same month, is deleted |
| Retention.Sweep | src/backup_mysql.py:113-114 | the walk stops only at a key without a readable time, and every key before the stop point was readable |
| Retention.SweepDeletes | src/backup_mysql.py:113-118 | the walk deletes exactly the stale keys before the stop point |
| Retention.SweepStopsForGood | src/backup_mysql.py:113-114 | once the walk has stopped, later keys change nothing |
| Retention.SweepExtend | src/backup_mysql.py:113-124 | one more key either stops the walk at it or adds it to the deleted set when stale |
| Retention.SweepOrderIndependent | src/backup_mysql.py:110-124 | with every key readable, any reordering of the listing deletes the same keys |
| Retention.SweepIdempotent | src/backup_mysql.py:110-124 | for any listing and any reader, a second walk with the same `now` over the keys the first left deletes nothing, and stops exactly when the first one stopped |
| Retention.Remaining | src/backup_mysql.py:111 | the survivors are exactly the listed entries whose key was not deleted |
| Retention.Entries | src/backup_mysql.py:113-114 | the walk sees each listed key with the time its reader gives, in listing order |
| Retention.AsWrittenSweepStopsAtFirstKey | src/backup_mysql.py:113-114 | with the extraction as written, any non-empty listing stops at its first key and deletes nothing |
| Retention.CorrectedSweepDeletesStale | src/backup_mysql.py:113-118 | with the corrected extraction and readable keys, the walk ends normally and deletes exactly the listed keys older than `now - 7 days` |
| Backup.DumpNames | src/backup_mysql.py:74-75 | one dump name per database, built from its own clock reading |
| Backup.DumpNamesShaped | src/backup_mysql.py:75 | every dump name ends in `.sql` and does not start with `.` |
| Backup.ArchiveOfDump | src/backup_mysql.py:86-88 | an archive name differs from every dump name, matches `*.tar.gz`, and a dump name does not |
| Backup.ExpectedKeys | src/backup_mysql.py:69-71 | a fully successful pass uploads at most one key per enumerated database |
| Backup.ExpectedDumps | src/backup_mysql.py:75 | the dumps of a pass are among the dump names |
| Backup.FirstFailure | src/backup_mysql.py:69-91 | the position of the first non-ignored database whose tools fail, if any; every earlier one is ignored or succeeds |
| Backup.BackupStep | src/backup_mysql.py:70-91 | one database of the pass: skipped when ignored; otherwise the dump file is created, then the archive, the dump removed and the archive uploaded, ending the pass at the first failing tool; `BackupStorage.BackupDatabase` is proved to change the stores this way |
| Backup.BackupOver | src/backup_mysql.py:69-92 | the pass over the enumeration in order, ending at the first failure; `BackupAllSucceed`, `BackupStopsAtFirstFailure` and `BackupOverSplit` state its properties |
| Backup.AfterFailure | src/backup_mysql.py:78-91 | the directory after a failing database: a failed dump or archive step leaves the dump file; a failed upload leaves the archive and not the dump |
| Backup.ExpectedKeysSpec | src/backup_mysql.py:69-71 | a key is produced exactly when it is the archive of a database not in the ignore list |
| Backup.ExpectedDumpsSpec | src/backup_mysql.py:69-75 | a dump file is among those a clean pass writes and removes exactly when it is the dump of a database not in the ignore list |
| Backup.UploadedKeys | src/backup_mysql.py:69-91 | the keys of a full pass are exactly `backup_<db>_<time>.sql.tar.gz` for the non-ignored databases |
| Backup.BackupAllSucceed | src/backup_mysql.py:69-91 | with no failure, every non-ignored database is uploaded in order, its archive is left locally, and the directory loses exactly the pass's dump files (`ExpectedDumpsSpec`): no `.sql` file is left behind |
| Backup.BackupOverSplit | src/backup_mysql.py:69 | a pass over a list is the pass over a prefix followed by the pass over the rest |
| Backup.FirstFailurePrefix | src/backup_mysql.py:69-91 | a prefix with no failing database has no first failure |
| Backup.BackupStopsAtFirstFailure | src/backup_mysql.py:69-91 | a failure ends the pass at the first failing database: the databases before it are uploaded in order, their dumps are gone and their archives stay; then a failed dump or archive step leaves that database's dump file, and a failed upload leaves its archive and not its dump; nothing after it changes |
| Backup.Purged | src/backup_mysql.py:100-102 | the purge removes every name matching `*.tar.gz`, keeps every other name and adds none |
| Backup.PurgeDropsArchives | src/backup_mysql.py:100-102 | archives added before a purge leave no trace after it |
| Backup.BackupThenPurge | src/backup_mysql.py:88-102 | a successful pass followed by a purge leaves the directory as a purge would have left it before the pass, minus the pass's dumps |
| Backup.BackupStorage.UploadKey | src/backup_mysql.py:91 | the upload key of a database's archive is `backup_<db>_<time>.sql.tar.gz` |
| Backup.BackupStorage.BackupDatabase | src/backup_mysql.py:70-91 | one database's backup changes the directory and bucket exactly as the step function says, for every tool outcome |
| Backup.BackupStorage.BackupMysql | src/backup_mysql.py:65-92 | the loop's effect on the directory, the bucket and the upload order is that of the pass function over the enumeration |
| Backup.BackupStorage.CleanupLocalBackups | src/backup_mysql.py:97-104 | the directory loses exactly its `*.tar.gz` names and the bucket is unchanged |
| Backup.BackupStorage.CleanupOldBackupsWith | src/backup_mysql.py:106-125 | the local purge happens first; the bucket loses exactly the keys the walk deletes, and the method stops where the walk stops |
| Backup.BackupStorage.CleanupOldBackups | src/backup_mysql.py:106-125 | as written, the cleanup purges the directory, deletes no key, and stops at the first key of a non-empty listing |
| Backup.BackupStorage.CleanupOldBackupsCorrected | src/backup_mysql.py:106-125 | the local purge happens first; for any listing the bucket loses exactly the keys the walk with the corrected extraction deletes, and the method stops where that walk stops; when every key is readable the walk reaches the end and the bucket loses exactly the listed keys older than `now - 7 days` |

## Left out

- Reading `config.ini` and the configuration values (src/backup_mysql.py:12-41): file I/O and a library. The ignore string is an argument of `Config.IgnoredDatabases`, and the directory and bucket are fields of `BackupStorage`.
- The S3 client (src/backup_mysql.py:45-50): a foreign SDK. The bucket is a set of keys, and `list_objects_v2` becomes the `listing` argument.
- `list_objects_v2` returns at most 1000 keys per call and the code reads one page only; the listing argument is that page.
- A failing `delete_object` would raise and end the cleanup; the model lets every delete succeed.
- `get_databases` (src/backup_mysql.py:53-63): network I/O through `pymysql`. The enumeration is the `databases` argument.
- `mysqldump`, `tar` and the upload (src/backup_mysql.py:79-91): external processes and the network. Only their effect on names is modelled, with success or failure as an input. A partial archive that a failing `tar` may leave is not modelled.
- `datetime.now()` (src/backup_mysql.py:74, 110): the wall clock. Each database's clock reading and the cleanup's `now` are arguments. A clock reading for an ignored database is not used.
- The scheduler registrations, the start-up order and the run loop (src/backup_mysql.py:128-150): a timing library and an infinite loop.
- Logging with `print`, and the duplicate imports (src/backup_mysql.py:94-95).
- Backup.BackupStorage.UploadKey: the model assumes the database name holds no `/`. MySQL can store such a name; the dump path at src/backup_mysql.py:75 then names a subdirectory of the backup directory, which the flat set of file names cannot express, and `os.path.basename` would cut the key short.
- Backup.BackupStorage.BackupDatabase: makes the same assumption for a database it backs up; an ignored database may have any name.
- Backup.BackupStorage.BackupMysql: makes the same assumption for every enumerated database not in the ignore list.
- Timestamp.Valid: years run from 1000 to 9999. Below 1000, `strftime("%Y")` does not print four digits, so the name format is not the fixed-width one modelled here.
- Timestamp.Parse: accepts only the zero-padded 19-character ASCII form with a year from 1000 on. `strptime` also accepts some fields without their leading zero or padded with a space, non-ASCII decimal digits, and a four-digit year below 1000; the daemon never writes such text.
- Retention.ShouldDelete: the microseconds of `now` are kept, but a backup time is whole seconds, as `strftime` writes it.
- `glob` skips names that start with `.` and could match directories. The model treats the directory as a set of plain file names, and the glob match rule includes the leading-dot exclusion.
- Backup.BackupStorage.CleanupLocalBackups: the model assumes the backup directory's path holds no glob metacharacters (`*`, `?`, `[`). `glob` at src/backup_mysql.py:100 reads them as a pattern, so with such a path it would purge the archives of other matching directories and leave the backup directory's own; the model always purges the backup directory itself.

## Findings

| source | as written | input that shows it | evidently intended | confidence | as-written member | corrected member |
|---|---|---|---|---|---|---|
| src/backup_mysql.py:114 | `split('_')[-1].replace('.sql.gz', '')` keeps only the text after the last `_`, and the replace never matches because the suffix is `.sql.tar.gz` | key `backup_db_2024-01-01_00-00-00.sql.tar.gz`: `strptime` receives `00-00-00.sql.tar.gz` and raises, so the cleanup ends at the first key and deletes nothing | read the 19 characters between `backup_<db>_` and `.sql.tar.gz` as the backup time | not executed | Naming.ParseKeyAlwaysFails | Retention.CorrectedSweepDeletesStale |
