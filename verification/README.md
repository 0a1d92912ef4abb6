# PostgreSQL backup and restore scripts: the text logic

Two small scripts drive `pg_dump` and `psql`.

The backup script reads a properties file into:
- a map of common settings;
- an ordered list of per-user maps.

It then formats one `pg_dump` command per user, all with one timestamp taken before the loop, and hands each command, with the user's password, to a process runner.

The restore script reads a flat `key=value` file. It then:
1. renames `from_username` to `to_username` in the text of the dump;
2. formats a `psql` command that loads the dump's file name;
3. hands that command to the same kind of runner.

This project models the pure part of both scripts in Dafny: the two property readers, the rename of the dump's text, the two command builders, and the order in which the scripts fail. It models the Python primitives they rely on exactly:
- `str.strip()`, with the `str.isspace()` character set;
- `in` on strings;
- `str.split(sep)` and `sep.join(parts)`;
- `str.replace` and `str.count`, including an empty `from`;
- the `a, b = s.split("=")` unpacking;
- dictionary assignment, where the last write wins.

A Python exception becomes an `Err` of the `Outcome.Result` datatype:
- the `ValueError` of a failed unpacking is `Unpack(text)`, carrying the text that did not hold exactly one `=`;
- the `KeyError` of a missing setting is `MissingKey(key)`.

Three behaviours of the scripts are easy to miss, and the model keeps them:
- A properties line with neither `=` nor `||` is silently dropped. It is not an error.
- A failing read reports no line number.
- A missing key stops the backup loop at that user. No command is built for later users.

Modules, in dependency order:
- `Outcome`: `Option`, `Error` and `Result`, plus `Lookup`, which models `d[key]`.
- `Text`: strip, substring search, split and join.
- `Substitution`: `str.replace` and `str.count`.
- `Assoc`: maps built by successive assignment.
- `Pair`: the `key, value = text.split("=")` idiom.
- `BackupProperties`: `read_properties_file`.
- `BackupCommand`: `create_command_for_backup`, plus the part of `run_command` that reads the password.
- `RestoreProperties`: `read_restore_properties_file`.
- `RestoreCommand`: the rename, `create_command_to_restore`, and the restore pipeline.

## Model

| member | source | states |
|---|---|---|
| Outcome.Lookup | db-restore-script/restore.py:26 | `d[key]` yields the key's value exactly when the key is present; otherwise it raises a `KeyError` naming the key. |
| Text.StripSpec | db-backup-scripts/backup.py:19 | `strip()` leaves a contiguous slice of the line whose borders are all whitespace. The result is empty exactly when the line is all whitespace; otherwise it starts and ends with a non-space. |
| Text.StripIdempotent | db-restore-script/restore.py:17 | A stripped line strips to itself. |
| Text.JoinSplit | db-backup-scripts/backup.py:31 | Joining the pieces of `split(sep)` with `sep` gives the text back. |
| Text.SplitPiecesFree | db-backup-scripts/backup.py:31 | No piece of `split(sep)` contains `sep`. |
| Text.SplitJoin | db-backup-scripts/backup.py:25 | Splitting on a one-character separator recovers exactly the pieces that were joined, when no piece contains the separator. |
| Text.SplitLast | db-restore-script/restore.py:39 | `split(sep)[-1]` is a suffix of the text. When there are several pieces, the separator stands right before it. |
| Substitution.ReplaceJoinSplit | db-restore-script/restore.py:29-30 | For a non-empty `from`, `replace(from, to)` equals `to.join(s.split(from))`. |
| Substitution.CountSplit | db-restore-script/restore.py:29-30 | For a non-empty `from`, `count(from)` is one less than the number of pieces of `split(from)`. |
| Substitution.ReplaceLength | db-restore-script/restore.py:29-30 | The rewritten length is the length plus `count(from)` times (length of `to` minus length of `from`), for every `from`, including the empty one. |
| Substitution.ReplaceAbsent | db-restore-script/restore.py:29-30 | Text in which `from` does not occur is returned unchanged, and its count is 0. |
| Substitution.ReplaceIdentity | db-restore-script/restore.py:29-30 | Replacing a string by itself changes nothing. |
| Assoc.Insert | db-backup-scripts/backup.py:26 | Successive assignment yields the old keys plus exactly the keys assigned. |
| Assoc.InsertLastWins | db-backup-scripts/backup.py:34 | A key ends up with the value of its last assignment. |
| Assoc.InsertKeeps | db-backup-scripts/backup.py:26 | A key no later assignment mentions keeps its value. |
| Assoc.InsertAppend | db-restore-script/restore.py:21 | Assigning the pairs of `a + b` is assigning those of `a`, then those of `b`. |
| Pair.KeyValue | db-backup-scripts/backup.py:25 | Unpacking succeeds exactly when the text holds one `=`. The text is then `key=value`, with no `=` on either side; otherwise the error names the text. |
| Pair.KeyValueOfPair | db-restore-script/restore.py:20 | Unpacking `key + "=" + value` gives back `(key, value)` when neither side holds `=`. |
| BackupProperties.Fields | db-backup-scripts/backup.py:31-34 | The field loop succeeds exactly when every field holds one `=`. It then assigns the fields' pairs in order; otherwise it fails on a field with another count. |
| BackupProperties.Step | db-backup-scripts/backup.py:17-36 | Blank and unmatched lines leave the state as it was. A common line updates only the common map. A user line appends one map and leaves the common map. A step fails exactly when the line's pieces do not each hold one `=`. |
| BackupProperties.ParseFrom | db-backup-scripts/backup.py:17-36 | The read loop succeeds exactly when every line is well formed. The common map is then the old one with the common lines' pairs assigned in order, and the user list gains one map per user line. |
| BackupProperties.ReadProperties | db-backup-scripts/backup.py:11-38 | The reader fails exactly when some line is malformed, and then with no partial result. Otherwise the common map is built from the common lines, and there is one user map per `\|\|` line, in file order. |
| BackupProperties.ParseFromAppend | db-backup-scripts/backup.py:17 | Reading `a + b` is reading `a` and then continuing over `b`. A failure in `a` ends the read. |
| BackupProperties.IgnoredLine | db-backup-scripts/backup.py:21-29 | Inserting a blank line, or a line with neither `=` nor `\|\|`, anywhere changes nothing. |
| BackupProperties.CommonLineOverwrites | db-backup-scripts/backup.py:24-26 | A common line sets its key to its value, overwriting any earlier value, and leaves the user list as it was. |
| BackupProperties.UserLineAppends | db-backup-scripts/backup.py:29-36 | A user line appends exactly its own map and leaves the common map as it was. |
| BackupProperties.LaterLinesKeep | db-backup-scripts/backup.py:24-26 | Lines that do not assign a key leave its common value as it was. |
| BackupProperties.LastCommonLineWins | db-backup-scripts/backup.py:24-26 | The last common line for a key decides its value. |
| BackupProperties.TrailingSeparatorFails | db-backup-scripts/backup.py:31-33 | A user line ending in `\|\|` is malformed, and any file containing it fails to read. |
| BackupCommand.DumpCommand | db-backup-scripts/backup.py:48-50 | The command exists exactly when `psql_path`, `database_server` and `port` are common settings and `db` and `username` are user settings. A failure names a key that is missing. The command ends with the redirect to `{username}_{stamp}.sql`. |
| BackupCommand.DumpCommandFirstMissing | db-backup-scripts/backup.py:48-50 | A failing dump command reports the first absent setting in the order the f-string reads them: `psql_path`, `database_server`, `db`, `username`, `port`. |
| BackupCommand.DumpLine | db-backup-scripts/backup.py:48-50 | The formatted line ends with ` > {username}_{stamp}.sql`. |
| BackupCommand.DumpLineWords | db-backup-scripts/backup.py:48-50 | The formatted line is its fourteen words joined by single spaces. |
| BackupCommand.DumpCommandWords | db-backup-scripts/backup.py:48-50 | When no setting contains a space, the command splits into exactly its words: `db` after `-d`, `username` after both `--username` and `--schema`, and the redirect target last. |
| BackupCommand.Dispatch | db-backup-scripts/backup.py:47-58 | A user is dispatched exactly when the command builds and the user has a `password`. The job carries that command and that password. |
| BackupCommand.DispatchFirstMissing | db-backup-scripts/backup.py:47-58 | A user that is not dispatched reports the first absent setting among the command's settings, in f-string order, and then `password`. |
| BackupCommand.Run | db-backup-scripts/backup.py:47-52 | The jobs are those of the longest prefix of users that dispatch, in user order. With no failure every user has a job; otherwise the failure is the error of the first user that did not dispatch. |
| BackupCommand.RunSharesStamp | db-backup-scripts/backup.py:42-50 | Every dispatched command redirects into `{username}_{stamp}.sql` with the same run stamp. |
| BackupCommand.Backup | db-backup-scripts/backup.py:81-82 | A file that does not read dispatches nothing and reports the read error. Otherwise the i-th job is the i-th user's command and password. With no failure every user has a job. A failure is the error of the first user that does not dispatch, and there is none exactly when every user dispatches. |
| RestoreProperties.Step | db-restore-script/restore.py:17-21 | A blank line leaves the map. Any other line must hold one `=`, and then sets its key to its value; otherwise the step fails with that line. |
| RestoreProperties.Pairs | db-restore-script/restore.py:16-21 | There is one pair per non-blank line. |
| RestoreProperties.ParseFrom | db-restore-script/restore.py:16-21 | The loop succeeds exactly when every line is blank or holds one `=`, and then assigns the lines' pairs in order. |
| RestoreProperties.ReadRestoreProperties | db-restore-script/restore.py:12-22 | The reader succeeds exactly when every line is well formed. The map then has exactly the keys of the non-blank lines, assigned in file order. A failure is an unpacking error on a line without exactly one `=`. |
| RestoreProperties.PairsSpellLines | db-restore-script/restore.py:17-21 | The i-th pair spells out the i-th non-blank stripped line as `key=value`, with no `=` on either side. |
| RestoreProperties.ParseFromAppend | db-restore-script/restore.py:16 | Reading `a + b` is reading `a` and then continuing over `b`. |
| RestoreProperties.BlankLineIgnored | db-restore-script/restore.py:17-19 | Inserting a whitespace-only line anywhere changes nothing. |
| RestoreProperties.LaterLineOverwrites | db-restore-script/restore.py:21 | An appended `key=value` line overwrites the key and touches no other key. |
| RestoreProperties.LastLineWins | db-restore-script/restore.py:21 | The last line for a key decides its value. |
| RestoreCommand.FileName | db-restore-script/restore.py:39 | The file name is the longest backslash-free suffix of the path: a suffix holding no backslash, preceded by a backslash when shorter than the path, and the whole path when the path holds none. |
| RestoreCommand.RenameUser | db-restore-script/restore.py:25-30 | The rename needs `restore_filename`, `from_username` and `to_username`, and a failure names a missing one. The result's length follows the count of `from_username`. For a non-empty name it equals `to.join(content.split(from))`. The content is unchanged when the name does not occur or is renamed to itself. |
| RestoreCommand.RenameUserFirstMissing | db-restore-script/restore.py:26-30 | A failing rename reports the first absent one of `restore_filename`, `from_username` and `to_username`, in that order. |
| RestoreCommand.RestoreLine | db-restore-script/restore.py:41-44 | The formatted line ends with ` -f {file name}`. |
| RestoreCommand.RestoreLineWords | db-restore-script/restore.py:41-44 | The formatted line is its eleven words joined by single spaces. |
| RestoreCommand.Command | db-restore-script/restore.py:38-45 | The command exists exactly when `restore_filename`, `psql_path`, `database_server`, `db`, `from_username` and `port` are set. A failure names a missing one. The command ends with `-f` and the backslash-basename of the dump's path. |
| RestoreCommand.CommandFirstMissing | db-restore-script/restore.py:39-44 | A failing command build reports the first absent setting in the order read: `restore_filename` for the file name, then `psql_path`, `database_server`, `db`, `from_username` and `port`. |
| RestoreCommand.CommandWords | db-restore-script/restore.py:41-44 | When nothing contains a space, the command splits into exactly its words, with `from_username` after `--username` and the file name after `-f`. |
| RestoreCommand.CommandIgnoresTarget | db-restore-script/restore.py:41-44 | The command does not depend on `to_username` or `password`. |
| RestoreCommand.Launch | db-restore-script/restore.py:79-80 | After the rename, the script reaches `psql` exactly when the command builds and `password` is set, with that command and password; otherwise it fails on a missing key. |
| RestoreCommand.Prepare | db-restore-script/restore.py:78-80 | Once the properties are read, the restore goes through exactly when the eight settings it reads are all present. The command then ends with `-f` and the dump's file name. The dump holds the renamed text as soon as the rename's three settings are present, even when a later setting is missing, and is untouched otherwise. A failure names a missing key. |
| RestoreCommand.PrepareFirstMissing | db-restore-script/restore.py:78-80 | A failing preparation reports the first absent setting in the script's order: the rename's settings, then the command's, then `password`. |
| RestoreCommand.Restore | db-restore-script/restore.py:76-80 | A properties file with a malformed line fails with an unpacking error and leaves the dump untouched. Otherwise the settings are the map of the file's pairs, last line winning. The restore goes through exactly when all eight settings are in that map, and then runs the command ending with `-f` and the file name of `restore_filename`, with the file's `password`. The dump holds the text with `from_username` replaced by `to_username` exactly when the file reads and names the rename's three settings. A failure after a good read names a key that no line assigns. |

## Left out

- Reading the properties files is not modelled. This covers `open`, `readlines` and newline translation: the readers take the list of lines, and `strip()` removes the line ends in any case.
- Reading and writing the dump file is not modelled as I/O: the rename takes the dump's text as a parameter, and a run reports the text the file holds afterwards.
- The timestamp is a parameter. `datetime.now().strftime("%Y%m%d.%H%M%S")` reads the clock.
- The process runs are not modelled. This covers `os.getcwd`, `os.makedirs`, the `cd … &&` shell wrapper, `Popen`, the exit status and the logging in `run_command` and `run_restore_command`. These are process and file-system effects. Only the password lookup, which can end the run, is kept.
- Copying the environment with `PGPASSWORD` set is environment plumbing: a job carries the password instead.
- Shell quoting is not modelled: a command is the literal formatted string. The word lemmas hold only when no setting contains a space.
- `argparse` and `logging` are not modelled. The only effect a log line could have is a `KeyError` on `username` or `from_username`, and by then the command has already read both keys.
- Text.Split: only non-empty separators are modelled. Python raises on an empty separator, and the scripts never pass one.
- BackupProperties.CommonPairs: its contract states only the number of pairs. The element-wise reading of each line is stated by ReadProperties and the line lemmas.
- BackupProperties.UserMaps: its contract states only the number of maps (one per `||` line). The map of each line is stated by UserLineAppends.
