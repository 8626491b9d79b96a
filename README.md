# gittrail audit-trail bookkeeping in Dafny

gittrail is a Python context manager that links a data directory to the git
history of the code that works on it. Entering a session has four steps:

1. It checks that the git working tree is clean.
2. It numbers the new session from the `NNNN.json` records in the trail
   directory (`data/gittrail` by default).
3. It checks that every earlier session ran on a commit that is in the
   history, and that the data directory holds nothing the previous session
   did not record.
4. It writes an open record for the session.

Leaving the session rewrites that record. The rewrite adds an end time and the
files present at that moment.

This project models that bookkeeping, all in `gittrail/core.py`:

- `_get_session_number`, `_get_active_sessions`, `_drop_active`,
  `_commit_trail`, `GitTrail._check_integrity`, and
  `GitTrail.__enter__`/`__exit__`.
- Git, the directory walk with its hashing, and the clock are inputs:
  - the `git status` text
  - the `git log` commit ids, newest first
  - a path → digest map of the data directory
  - the current time
- The trail directory is a `Store` object: its record files in creation order
  and the record each holds. Several `GitTrail` objects can share one, as in
  the interleaved-session test.

Modules:

- `errors.dfy`: `Option`, `Result`, and the four exceptions of
  `gittrail/exceptions.py` as one `Error` datatype. Each error carries data
  instead of a message.
- `text.dfy`: the pieces of Python the core relies on:
  - `f"{n:04d}"`, including the sign and widening beyond four digits
  - the `str` ordering that `sorted` uses
  - `str.replace`
  - the substring test `in`
- `timestamps.dfy`: `strftime("%Y-%m-%dT%H:%M:%S.%f%z")` followed by
  `.replace("+0000", "Z")`, and a parser for the stored form.
- `ledger.dfy`: record names, sorting, numbering, active sessions,
  path filtering and record construction.
- `integrity.dfy`: `_check_integrity`, as a loop method proved against a
  specification function.
- `session.dfy`: the `Store` and `GitTrail` classes with `Enter` and `Exit`.
- `scenarios.dfy`: the session sequences of `gittrail/test_core.py` replayed
  on the model.

The model follows core.py as written:

- Changed digests are never detected. `core.py:213` compares key sets only.
- Only session N-1's files are compared (`files_before` is reassigned at
  `core.py:195`).
- There is no separate treatment of paths touched by sessions that are still
  open, and no lock.
- For session 0 the tolerated record path is `{store}/-001.json`, because
  `{-1:04d}` gives `-001`. The model keeps this.

Behaviour from 10001 records on: `{s:04d}` widens to five digits, and
"10000.json" sorts before "1001.json". So a trail directory with more than
10000 records can never be numbered again. `NumberingFailsBeyond10000` proves
this for the code as written.

## Model

| member | source | states |
|---|---|---|
| Text.ZeroPadValue | gittrail/core.py:20 | `ZeroPad` models `{n:0wd}`; `{n:04d}` of a non-negative n is all digits and denotes n |
| Text.ZeroPadWidth | gittrail/core.py:20 | `{n:0wd}` has exactly w characters while n < 10^w, and more from 10^w on |
| Text.ZeroPadInjective | gittrail/core.py:20 | distinct session numbers never share a padded name |
| Text.ZeroPadOfValue | gittrail/core.py:20 | a digit string of width w is the padded form of its own value |
| Text.BelowIrreflexive | gittrail/core.py:19 | `Below`, the `str` order used by `sorted` is irreflexive |
| Text.BelowAsymmetric | gittrail/core.py:19 | no two strings are each below the other |
| Text.BelowTotal | gittrail/core.py:19 | any two distinct strings are ordered one way or the other |
| Text.BelowTransitive | gittrail/core.py:19 | the order is transitive |
| Text.BelowDigits | gittrail/core.py:19-20 | equal-length digit strings sort by numeric value |
| Text.BelowPrefixDecides | gittrail/core.py:19 | differing prefixes of equal length decide the order, whatever follows |
| Text.ReplaceOnlyAtEnd | gittrail/core.py:67-68 | `ReplaceAll` models `str.replace`; `.replace("+0000", "Z")` on a text with no '+' before the offset only rewrites the offset |
| Text.ContainsIff | gittrail/core.py:130 | `Contains`, the substring test `in`, holds exactly when the pattern occurs at some position |
| Timestamps.IsoUtcShape | gittrail/core.py:67-70 | `IsoUtc` models the stored text; a stored timestamp is the formatted fields followed by "Z", 27 characters |
| Timestamps.LayoutSlices | gittrail/core.py:67 | each field of `%Y-%m-%dT%H:%M:%S.%f` sits at a fixed position |
| Timestamps.IsoUtcRoundTrip | gittrail/core.py:67-70 | reading a stored timestamp back gives the same instant |
| Timestamps.ParseIsoUtcExact | gittrail/core.py:67-70 | every text that reads back as an instant is exactly that instant's stored form |
| Ledger.Insert | gittrail/core.py:19 | inserting into a sorted listing keeps it sorted, with the same elements plus one |
| Ledger.SortNames | gittrail/core.py:18-19 | `sorted(...)` of the listing is sorted and a permutation of it |
| Ledger.SortedUnique | gittrail/core.py:19 | two sorted permutations of one listing are equal: the sort is determined |
| Ledger.RecordNameOrder | gittrail/core.py:19-20 | below 10000, `"{i:04d}.json"` sorts before `"{j:04d}.json"` exactly when i < j |
| Ledger.RecordNamesSorted | gittrail/core.py:19-20 | the names of sessions 0..n-1 are in sorted order for n ≤ 10000 |
| Ledger.NumberFrom | gittrail/core.py:19-21 | the scan succeeds iff every position from s holds its own name, else it names the first position that does not |
| Ledger.Numbering | gittrail/core.py:16-22 | Ok(n) iff the sorted listing is exactly "0000.json".."{n-1:04d}.json", and n is the count; otherwise IncompleteHistory naming the first bad position |
| Ledger.GetSessionNumber | gittrail/core.py:16-22 | the loop over the sorted listing returns the numbering of the listing, and on success the number of record files |
| Ledger.CompleteLedgerNumbering | gittrail/core.py:16-22 | any listing order of the records of sessions 0..n-1 (n ≤ 10000) numbers to n |
| Ledger.WideNameSortsEarly | gittrail/core.py:19-20 | "10000.json" sorts before "1001.json" |
| Ledger.NumberingFailsBeyond10000 | gittrail/core.py:16-22 | a listing of more than 10000 records never numbers successfully |
| Ledger.NumberedListingIsComplete | gittrail/core.py:16-22 | a listing that numbers to n holds exactly the records of sessions 0..n-1 |
| Ledger.NextSessionNumber | gittrail/core.py:138-139 | adding record n to a ledger numbered n (n < 10000) makes it number n + 1 |
| Ledger.ActiveSessions | gittrail/core.py:25-32 | every active position is below the number of records |
| Ledger.ActiveSessionsOfCompleteLedger | gittrail/core.py:25-32 | on a ledger numbered n, session i is active iff i < n and its record has no end time |
| Ledger.DropActive | gittrail/core.py:35-42 | a sub-map with digests unchanged, without the records of drop_meta and the logs of drop_logs, and nothing else removed |
| Ledger.DropActiveIdempotent | gittrail/core.py:35-42 | filtering twice equals filtering once |
| Ledger.MetaPathIsNotLogPath | gittrail/core.py:39-40 | `MetaPath` (`{store}/{s:04d}.json`) and `LogPath` (`{store}/{s:04d}.log`): a record path is never a log path |
| Ledger.MetaPathInjective | gittrail/core.py:39 | record paths of distinct sessions differ |
| Ledger.LogPathInjective | gittrail/core.py:40 | log paths of distinct sessions differ |
| Ledger.RecordNameDistinct | gittrail/core.py:139 | distinct sessions have distinct record names `RecordName(s)` (`f"{s:04d}.json"`) |
| Ledger.DropActiveRemovesExactly | gittrail/core.py:35-42 | a present record path survives iff its session is not in drop_meta, a log path iff not in drop_logs |
| Ledger.ExitFilterKeepsOwnLog | gittrail/core.py:165-171 | leaving a session drops its own record but keeps its own log |
| Ledger.CommitTrailContents | gittrail/core.py:57-74 | the record `CommitTrail` builds: commit id and files are stored verbatim; the start time reads back as the given instant; the end is null iff none was given |
| Integrity.FirstUnknown | gittrail/core.py:187-194 | the first session from s whose commit is not in the history, all earlier ones known; none when all are known |
| Integrity.CheckIntegrity | gittrail/core.py:181-219 | the loop's verdict (missing paths, error) equals the specification Verify |
| Integrity.UnknownCommitIsFirst | gittrail/core.py:186-194 | in the verdict of `Verify`, UnknownCommit names session s iff s is the smallest session whose commit the history lacks, with that session's commit id |
| Integrity.IntegrityClassification | gittrail/core.py:197-218 | in the verdict of `Verify`, with all commits known and `before = FilesBefore` (the files of session N-1), missing = previous keys absent now; IntegrityError iff some current path is neither a previous key nor `{store}/{N-1:04d}.json`, and it lists exactly those paths |
| Integrity.DigestsNotCompared | gittrail/core.py:213 | snapshots with the same paths get the same verdict, whatever their digests |
| Integrity.FirstUnknownSameCommits | gittrail/core.py:187-194 | the first unknown session depends only on the records' commit ids |
| Integrity.OnlyPreviousSessionCompared | gittrail/core.py:186-195 | records before N-1 matter only through their commit ids |
| Integrity.UnchangedDirectoryPasses | gittrail/core.py:197-219 | a directory holding the previous session's paths plus that session's own record file `{store}/{N-1:04d}.json`, with all commits known, passes without warning |
| Session.Store.constructor | gittrail/core.py:137 | a new trail directory holds no records |
| Session.Store.Write | gittrail/core.py:51-54 | a write creates or replaces exactly one record file and keeps the directory consistent |
| Session.GitTrail.constructor | gittrail/core.py:104-114 | a fresh session object has no history, number, file, times or files |
| Session.GitTrail.Enter | gittrail/core.py:117-160 | unclean status gives UncleanGitStatus, a bad listing gives IncompleteHistory, and a failed check gives its error; none of these writes anything. On success it sets the number, record and log names and the filtered files, and writes the open record N with history[0] |
| Session.GitTrail.Exit | gittrail/core.py:162-179 | no check; files = snapshot minus all active records and the other active sessions' logs; rewrites its record with the same commit and start and the end time |
| Session.FreshRecordName | gittrail/core.py:138-139 | the record a new session writes never overwrites an existing one |
| Session.EnterOpensSession | gittrail/core.py:138-159 | after opening session n the ledger numbers to n + 1 and the active set gains exactly n |
| Session.ExitClosesSession | gittrail/core.py:172-178 | closing session n removes exactly n from the active set |
| Scenarios.FirstEntry | gittrail/test_core.py:122-128 | the first session in an empty directory is 0, sees no files and passes |
| Scenarios.SecondLedger | gittrail/test_core.py:194 | a session entering while 0 is open is number 1, with {0} active |
| Scenarios.SecondFiles | gittrail/test_core.py:194-195 | the open session's record and log are filtered out |
| Scenarios.SecondCheck | gittrail/test_core.py:194 | the second session passes the check |
| Scenarios.TwoSessions | gittrail/test_core.py:194 | two records number to 2 |
| Scenarios.BothActive | gittrail/test_core.py:197 | while both are open both are active |
| Scenarios.SecondActive | gittrail/test_core.py:200 | after session 0 closes only 1 is active |
| Scenarios.FirstExitFiles | gittrail/test_core.py:197-198 | A leaving keeps exactly its own log |
| Scenarios.SecondExitFiles | gittrail/test_core.py:200-201 | B leaving keeps three paths |
| Scenarios.EnterFirst | gittrail/test_core.py:191-192 | A enters as session 0 with no files |
| Scenarios.EnterSecond | gittrail/test_core.py:194-195 | B enters as session 1 with no files |
| Scenarios.ExitFirst | gittrail/test_core.py:197-198 | A leaves with one file |
| Scenarios.ExitSecond | gittrail/test_core.py:200-201 | B leaves with three files |
| Scenarios.InterleavedSessions | gittrail/test_core.py:183-202 | the interleaved run: both entries succeed and the file counts are 0, 0, 1, 3 |
| Scenarios.LoneExitFiles | gittrail/test_core.py:139-142 | a lone session leaving records only its own log |
| Scenarios.ForeignCommitFails | gittrail/test_core.py:256-275 | a record with a foreign commit at session 1 fails with UnknownCommit(1, …) |
| Scenarios.DeletedLogWarns | gittrail/test_core.py:293-309 | a deleted log is reported missing and the session passes |
| Scenarios.AddedFileFails | gittrail/test_core.py:391-404 | a file added between sessions is the one illegal path |

## Left out

- JSON reading and writing (`_meta_read`/`_meta_write`, gittrail/core.py:45-54): records are values in the `Store`; `Store.Write` stands for writing one file.
- gittrail/utils.py is not part of this model. `git_status`, `git_log`, `hash_all_files` and `now` become the parameters of `Enter` and `Exit`, so MD5 hashing and the directory walk are not modelled.
- `Session.GitTrail.Enter` requires a non-empty history: `git_log` splits its output, which always gives at least one element.
- Logging (`_attach_log_handler`/`_detach_log_handler`, gittrail/core.py:221-245, and the log messages): the missing-path warning is returned as a set of paths, and errors carry data instead of message text.
- The `FileNotFoundError` checks of `__init__` (gittrail/core.py:99-102) and the `mkdir` of the trail directory are filesystem existence tests.
- Concurrency: core.py takes no lock. Only sequential interleavings of sessions sharing one `Store` are modelled.
- Deleting or editing record files outside a session is not an operation of the model. Any record can still be written with `Store.Write`, and deletions in the data directory show up in the snapshot parameter.
- The store name is one path component. `_drop_active` receives `.name` while `expected_extra` uses the path relative to the data directory, and the two agree only in that case.
- Timestamps.Timestamp.Valid: years below 1000 are left out. `strftime("%Y")` writes them without padding on Linux with glibc (CPython issue bpo-13305), so the stored text is shorter than 27 characters there and padded elsewhere. `utils.now()` always gives a year from 1000 on.
- Tests expecting behaviour that core.py does not have are not modelled, because the model follows core.py:
  - "illegally changed" (gittrail/test_core.py:311-324)
  - warnings about active sessions (gittrail/test_core.py:326-389)
  - "should not be in the history" (gittrail/test_core.py:406-424)
