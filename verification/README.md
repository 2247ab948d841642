# issuer — a Dafny model of its core

issuer is a desktop issue tracker. It has a Python build and a Rust (Tauri)
build. Several processes on different PCs share one data folder. A lock file
decides which process may write. Changes made elsewhere arrive as JSON delta
files in a sync folder.

This project models the rules at the core of the program, with proofs:

- **Edit lock.** The Rust and the Python lock protocols are modelled side by
  side: the startup check, the staleness test, the heartbeat, release and
  force-acquire. The lock file is absent, decodable or broken, time is
  integer seconds, and the OS user name is a parameter. The startup check is
  split into a decision on what was read and a later write, so the
  non-atomic create race can be stated.
- **Session mode machine.** The Python application's startup, its zombie
  dialog, and its exit and window-close handlers.
- **Delta sync.** One poll iteration is modelled as a pure function. So are
  `apply_delta` over an in-memory database (insert with id reassignment,
  last-writer-wins update, reaction toggle, label-set replacement) and the
  bookkeeping of the merge into the master database.
- **Domain rules**:
  - version comparison;
  - label normalisation and parsing;
  - issue filters and the issue listing predicate;
  - status and reaction toggles, and the reaction whitelist;
  - the comment author check;
  - milestone progress and auto-status;
  - the file-path linkifier and its `file:` URLs;
  - mail-draft line endings, VBScript quoting and mailto arguments;
  - theme selection, deletion, remote listing, archive unpacking and the
    theme path guards.

The database is an in-memory picture (`Database.Db`):

- row tables (`issues`, `comments`, `milestones`) as maps from id to row;
- the label name→id map;
- the issue–label pairs;
- the two reaction relations.

Where SQL returns rows in an engine-chosen order, that order is an input
(`Query.IsScanOf`). The shared modules `Wrappers`, `Text`, `Sorting`,
`Query`, `Percent` and `Database` are helpers.

## Model

| member | source | states |
|---|---|---|
| RustLock.ZombieRule | src-tauri/src/lock.rs:157-168 | Staleness counts from `updated_at`, or from `locked_at` when `updated_at` is empty. The cutoff is strictly more than one hour. An unparsable stamp is stale. |
| RustLock.ZombieIsPermanent | src-tauri/src/lock.rs:157-168 | A record that is a zombie at some time stays a zombie at every later time. |
| RustLock.UpdateLockTimestamp | src-tauri/src/lock.rs:94-109 | Only a readable record of the caller is changed, and only its `updated_at`, which becomes now. Any other file is left as it was. |
| RustLock.StartupPlan | src-tauri/src/lock.rs:58-80 | Edit iff the file is absent, or holds the caller's live record. Zombie iff a readable record is stale; this is checked before ownership. A live foreign record gives ReadOnly naming its holder. An unreadable file gives ReadOnly("Unknown"). The write is create, touch or nothing accordingly. |
| RustLock.CheckLockOnStartup | src-tauri/src/lock.rs:58-92 | No file: a fresh record of the caller is written and the status is Edit. Edit keeps `locked_at` and sets `updated_at` to now. Every non-Edit verdict leaves the file untouched. |
| RustLock.OwnStaleRecordIsZombie | src-tauri/src/lock.rs:67-70 | The caller's own stale record is reported as Zombie naming the caller. |
| RustLock.UpdateHeartbeat | src-tauri/src/lock.rs:133-139 | Nothing changes unless the process is in Edit and the file holds its record. Otherwise only `updated_at` moves to now. |
| RustLock.HeartbeatKeepsLockLive | src-tauri/src/lock.rs:94-109 | For an hour after the owner's heartbeat, any other user reads ReadOnly naming the owner, and the owner reads Edit. |
| RustLock.ReleaseLock | src-tauri/src/lock.rs:111-122 | The file is deleted iff it holds the caller's record. A foreign or corrupt file stays. |
| RustLock.StartupThenReleaseEmpties | src-tauri/src/lock.rs:58-122 | A process that started in Edit removes the lock on release, provided nobody wrote the file in between. |
| RustLock.ForceAcquireInternal | src-tauri/src/lock.rs:142-146 | Whatever was there, the file ends up naming the caller, with both stamps set to now. |
| RustLock.ForceAcquire | src-tauri/src/lock.rs:150-155 | The status becomes Edit and the file is the forced record. |
| RustLock.ForceThenCheck | src-tauri/src/lock.rs:142-155 | For an hour after a force-acquire, the new holder reads Edit and everyone else reads ReadOnly naming the holder. |
| RustLock.FromStatus | src-tauri/src/lock.rs:31-55 | The mode is one of the three names. `locked_by` is absent exactly for Edit, and otherwise names the holder. The display name is the configured one, else the real name. |
| RustLock.InfoRoundTrip | src-tauri/src/lock.rs:31-55 | The status can be read back exactly from the `LockInfo` built from it. |
| RustLock.CrashRecoveryScenario | src-tauri/src/lock.rs:58-155 | A worked run: a crashed holder's record turns zombie, a third user forces it, and the next poll names the new holder. |
| RustLock.CreateRaceGivesTwoEditors | src-tauri/src/lock.rs:59-62 | Two processes that both see no file before either writes both get Edit. The earlier writer's record is overwritten, so its heartbeat and its release do nothing. |
| PyLock.ReadLock | app/utils/lock.py:20-28 | A missing file, one that raises an OS error, one that fails JSON decoding, and one holding JSON `null` read as None. A file that is not valid UTF-8 raises UnicodeDecodeError, which the `except` clause does not catch. Otherwise the decoded value is returned. |
| PyLock.ReadLockIntended | app/utils/lock.py:20-21 | As the docstring describes: every file that is absent or cannot be decoded, for whatever reason, reads as None. |
| PyLock.ReadLockAgrees | app/utils/lock.py:20-28 | The written and the intended `read_lock` agree on every file except one that is not UTF-8. There the written one raises and the intended one reads None. |
| PyLock.WriteLock | app/utils/lock.py:31-38 | The written record holds only the caller and the acquisition time. |
| PyLock.ReleaseLock | app/utils/lock.py:41-50 | The file is gone afterwards, whoever held it; an absent file stays absent. |
| PyLock.IsZombie | app/utils/lock.py:57-66 | A naive `locked_at` is stale iff more than an hour has passed. A missing or unparsable one counts as stale. A TypeError escapes iff the value is not an object, or `locked_at` is not a string or carries a UTC offset. |
| PyLock.StartupPlan | app/utils/lock.py:89-108 | Edit, with a create, iff the lock reads as None. A UnicodeDecodeError iff the file is not UTF-8. A TypeError iff `is_zombie_lock` raises on the record. Otherwise zombie iff the record is stale and readonly iff not, naming its user, or "不明" when the user is missing. |
| PyLock.CheckLockOnStartup | app/utils/lock.py:89-108 | Edit writes the caller's record. Zombie, readonly and a raised exception leave the file as it was. Absent files, files that fail reading or JSON decoding, and `null` files give edit. A file that is not UTF-8 gives the UnicodeDecodeError. Any other record gives the TypeError, zombie or readonly exactly as `is_zombie_lock` decides. |
| PyLock.OffsetStampCrashes | app/utils/lock.py:62-66 | As written: a record whose `locked_at` carries a UTC offset makes the startup check raise and leaves the file, so every later check on it raises too. |
| PyLock.NotUtf8Crashes | app/utils/lock.py:25-28 | As written: a lock file that is not valid UTF-8 makes the startup check raise and leaves the file, so every later check on it raises too. |
| PyLock.CrashPersists | app/utils/lock.py:89-108 | A check that raises leaves the file in place. Every later check on it, by anyone at any time, raises the same exception. |
| PyLock.IsZombieIntended | app/utils/lock.py:57-66 | As the docstring describes: a record is live iff its `locked_at` is a naive time within the hour. Everything else counts as broken, so stale. |
| PyLock.StartupPlanIntended | app/utils/lock.py:20-108 | The intended check never raises. It gives edit with a create iff there is no record or the JSON is not an object. Every undecodable file, a non-UTF-8 one included, gives edit. |
| PyLock.IntendedAgrees | app/utils/lock.py:57-108 | Wherever the written check does not raise, the intended one decides the same. |
| PyLock.CorruptLockIsTakenOver | app/utils/lock.py:96-101 | A lock file that fails JSON decoding or cannot be read is silently replaced by the caller's record. |
| PyLock.OwnLiveRecordIsReadOnly | app/utils/lock.py:103-108 | There is no ownership test: the caller's own live record reads as readonly naming the caller. |
| PyLock.AgeCountsFromAcquisition | app/utils/lock.py:57-66 | A record the application wrote at t never makes the check raise. It is a zombie to any checker exactly when more than an hour has passed since t. |
| PyLock.ForceAcquireLock | app/utils/lock.py:111-117 | Afterwards the file reads as the caller's record acquired now. |
| PyLock.ForceThenCheck | app/utils/lock.py:111-117 | Within the hour after a takeover, every checker, the new holder included, reads readonly naming the new holder. |
| Session.Startup | app/app_main.py:105-110 | The file is the one the Python check leaves, and `locked_by` comes from the verdict. A check that raises stops startup with the state still in edit mode and no one named. A schema failure shows the error screen. A zombie verdict opens the dialog. Readonly mode is set only by a readonly verdict after a good schema. |
| Session.Release | app/app_main.py:64-71 | Edit mode deletes the file unconditionally; readonly leaves it. |
| Session.CleanupHandler | app/app_main.py:64-71 | Before a state exists nothing is released; afterwards the release follows the mode. |
| Session.Step | app/app_main.py:244-273 | Dialog buttons act only while the dialog is shown. "Force unlock" takes the lock and enters edit mode. "Read only" enters readonly mode without touching the lock. Exit and window close release according to the mode. Other window events change nothing, and so does every window event after a failed start. |
| Session.ZombieDialogCloseDeletesForeignLock | app/ui_state.py:7 | As written: closing the window while the zombie dialog is open deletes another user's lock. |
| Session.CrashExitDeletesForeignLock | app/app_main.py:105-110 | As written: a lock record with an offset-aware `locked_at` makes the check raise, and process exit then deletes that other user's lock. |
| Session.SchemaFailureExitDeletesLiveForeignLock | app/app_main.py:296-307 | As written: after a schema failure, exit deletes a live lock held by another user. |
| Session.ModeOf | app/app_main.py:310-314 | A verdict decides edit iff it is edit, and leaves the mode undecided iff it is zombie or the check raised. |
| Session.SafeStartup | app/app_main.py:109-110 | Corrected startup: the mode is edit iff the check wrote the lock; the screens are as before. |
| Session.SafeRelease | app/app_main.py:64-71 | Corrected release: delete only in a decided edit mode. |
| Session.SafeStep | app/app_main.py:244-273 | The same transitions as `Step`, with the corrected release. |
| Session.SafeRunStaysOutOfEdit | app/app_main.py:257-273 | Without a force-unlock, a session whose verdict was not edit never enters edit mode, whatever other processes write. |
| Session.NotUtf8ExitDeletesLock | app/app_main.py:105-110 | As written: a lock file that is not UTF-8 makes the check raise, and process exit then deletes the file with the state still in edit mode. |
| Session.SafeExitKeepsForeignLock | app/app_main.py:64-71 | Corrected: exit and close never delete a lock the session did not take. |
| Session.SafeExitReleasesOwnLock | app/app_main.py:244-252 | Corrected: a lock the session took is still released on exit and on close, even after a schema failure. |
| Session.SafeAgreesWhenDecided | app/app_main.py:310-314 | With a verdict, a good schema and no zombie, the corrected startup matches the written one in file and mode. |
| Relaunch.ParseU64 | src-tauri/src/relaunch.rs:7-11 | A parse succeeds only on an optional '+' followed by decimal digits, with a value below 2^64. Every such digit string parses to its value. |
| Relaunch.ParseVersion | src-tauri/src/relaunch.rs:7-11 | One component per '.'-separated part: its u64 value, or 0 when the part does not parse. |
| Relaunch.ComponentsGeIsFirstDiff | src-tauri/src/relaunch.rs:13-27 | `version_ge` equals the independent rule: the first differing component decides, and missing components count as 0. |
| Relaunch.VersionGeReflexive | src-tauri/src/relaunch.rs:26 | Every version is ≥ itself. |
| Relaunch.VersionGeTotal | src-tauri/src/relaunch.rs:16-26 | Any two versions are comparable in at least one direction. |
| Relaunch.VersionGeTransitive | src-tauri/src/relaunch.rs:13-27 | `version_ge` is transitive. |
| Relaunch.ZeroPadding | src-tauri/src/relaunch.rs:16-19 | Trailing zero components change nothing: a version and its zero-padded form are each ≥ the other. |
| Relaunch.ShortAndPaddedAreEqual | src-tauri/src/relaunch.rs:16-19 | "1.2" and "1.2.0" are each ≥ the other. |
| Relaunch.NeedCopy | src-tauri/src/relaunch.rs:43-72 | No local exe means a copy is needed. A non-empty version file at least the current version means no copy. Equal sizes with a source no newer than the destination mean no copy. |
| Relaunch.NeedCopyReasons | src-tauri/src/relaunch.rs:51-71 | A copy is skipped only for one of those two reasons, and only when the local exe exists. |
| Sync.ToSql | src-tauri/src/sync.rs:216-237 | How each JSON value is bound: null as NULL, strings as text, integers as integers, booleans as 0 or 1, floats as reals. |
| Sync.RowOf | src-tauri/src/sync.rs:169-242 | The written columns are exactly the change's keys other than `id`, each stored as its column's affinity stores the bound value: an integer in a TEXT column becomes its decimal text, and a string stays text unless it is integer text entering an INTEGER column. |
| Sync.NumberInTextColumn | src-tauri/src/sync.rs:227-232 | A synced `{"title": 5}` is stored as the text "5", and `true` as "1". |
| Database.Affine | src-tauri/src/db.rs:13-69 | The schema's affinity: an integer entering a TEXT column becomes its decimal text, an integer literal entering an INTEGER column becomes the integer, NULL and reals stay as they are, and any change lands on the column's own storage class. |
| Database.ParseDecimal | src-tauri/src/db.rs:13-69 | The decimal text written for any `i64` reads back as the same integer. |
| Database.TextColumnKeepsInteger | src-tauri/src/db.rs:13-69 | An `i64` moved through a TEXT column and then into an INTEGER column arrives unchanged. |
| Sync.InsertId | src-tauri/src/sync.rs:175-205 | An insert moves off its target id only when a row there has a `created_by` that differs from the change's. It then goes to a fresh id above every existing one. |
| Sync.Insert | src-tauri/src/sync.rs:169-242 | An insert into an unknown table changes nothing. Otherwise the row goes under the id `InsertId` chooses. |
| Sync.Update | src-tauri/src/sync.rs:243-300 | Last writer wins: the update is skipped, with no change, exactly when the local `updated_at` is greater than the incoming one. Otherwise it reports success and runs the UPDATE, whose effect `Sync.UpdateRow` states, even when SQLite rejects it. |
| Sync.UpdateRow | src-tauri/src/sync.rs:263-300 | A missing row or table changes nothing. So does a statement SQLite rejects: a key naming no column of the table, or NULL for a NOT NULL column (src-tauri/src/db.rs:13-40). Otherwise the listed columns of the target row are overwritten and the rest kept. Only that row changes, and the relations are untouched. |
| Sync.UnknownColumnUpdateIsLost | src-tauri/src/sync.rs:263-300 | The comment soft-delete delta `{"is_deleted": 1, "updated_at": t}` names a column the comments table lacks, so it changes nothing. On a row without a newer stamp it still counts as applied. |
| Sync.NullIntoNotNullIsLost | src-tauri/src/sync.rs:263-300 | An update setting a NOT NULL column to NULL changes nothing. |
| Sync.Toggle | src-tauri/src/sync.rs:301-332 | Without a boolean `deleted` the toggle is not applied. With one, `deleted=true` removes the (target, user, reaction) key and `deleted=false` adds it. |
| Sync.AttachLabels | src-tauri/src/sync.rs:333-358 | Every string item becomes a label if missing. Existing label ids are kept, and label ids stay unique. |
| Sync.AttachLabelsPairs | src-tauri/src/sync.rs:333-358 | After the loop the issue is attached to exactly the ids of its string items. |
| Sync.SetLabels | src-tauri/src/sync.rs:333-358 | Applied iff `labels` is an array. The issue's old pairs go, then the items are attached. |
| Sync.SetLabelsEffect | src-tauri/src/sync.rs:333-358 | The issue's label set equals the set of named labels, and other issues keep theirs. |
| Sync.ApplyDelta | src-tauri/src/sync.rs:151-362 | Dispatch on the action. Non-object changes and unknown actions are not applied and change nothing. Label ids stay unique. |
| Sync.ToggleRoundTrip | src-tauri/src/sync.rs:301-332 | Adding an absent reaction and then removing it restores the reaction set, and the reverse holds as well. |
| Sync.UpdateIdempotent | src-tauri/src/sync.rs:243-300 | Re-applying an applied update without an `id` column changes nothing more. |
| Sync.InsertIdempotentWithoutCollision | src-tauri/src/sync.rs:169-242 | An insert that stays under its own id is idempotent. |
| Sync.CollisionMisroutesLaterDeltas | src-tauri/src/sync.rs:175-205 | After a colliding insert is re-keyed, a later update aimed at the original id lands on the other user's row. |
| Sync.DeltaNames | src-tauri/src/sync.rs:96-103 | The candidates are exactly the regular files named `<stem>.json`. |
| Sync.Ordered | src-tauri/src/sync.rs:105-108 | The candidates come in ascending name order. |
| Sync.Select | src-tauri/src/sync.rs:116-139 | A name is selected iff it does not contain this PC's name and was not attempted before. The selected names are added to the attempted set whether or not they apply, and the order is kept. |
| Sync.PollPlan | src-tauri/src/sync.rs:96-140 | The files one poll applies, in strictly ascending order, and the attempted set afterwards. |
| Sync.PollNeverRepeats | src-tauri/src/sync.rs:121-124 | A name attempted in one iteration is never attempted again in the next. |
| Sync.ApplyFiles | src-tauri/src/sync.rs:126-136 | Files are applied in order. Undecodable files are skipped, and label ids stay unique. |
| Sync.PollOnce | src-tauri/src/sync.rs:96-140 | The attempted set is `PollPlan`'s. With nothing applied the database is unchanged. A panic in any delta ends the iteration. |
| Sync.Merge | src-tauri/src/sync.rs:365-459 | With no sync folder or no delta files nothing happens. The merge lock is always released unless a delta panicked. On success the master is the base (master, else local) with every delta file applied in name order, and exactly the files that decoded are deleted, applied or not. On failure the master and the folder are unchanged. |
| Sync.SelectKeepsAll | src-tauri/src/sync.rs:116-139 | Distinct names, none attempted and none holding this PC's name, are all selected in their order. |
| Sync.MergeAgreesWithPoll | src-tauri/src/sync.rs:420-446 | A successful merge leaves the master as one poll iteration over the same folder and base leaves its database. |
| Issues.StatusColor | app/ui/helpers.py:24-25 | The open colour iff the status is "OPEN", the closed colour otherwise. |
| Labels.Dedup | app/database/repositories/labels.py:11-18 | The loop's output is clean (stripped, non-empty), free of repeats and of `seen`, and holds exactly the stripped non-empty entries. |
| Labels.NormalizeLabels | app/database/repositories/labels.py:8-19 | None and [] give []. The output is clean and duplicate-free, and holds exactly the stripped non-empty inputs. |
| Labels.DedupKeepsFirstOccurrenceOrder | app/database/repositories/labels.py:11-18 | The output keeps the order of each name's first occurrence. |
| Labels.NormalizeIdempotent | app/database/repositories/labels.py:8-19 | `normalize_labels` is idempotent. |
| Labels.ParseLabels | app/ui/helpers.py:32-45 | As written: None and "" give []; otherwise exactly the non-empty stripped comma-parts of the text after its newlines and its misread commas became ','. The result is clean, comma-free and duplicate-free. |
| Labels.TwoLabels | app/ui/helpers.py:36-44 | As written: two different clean names around a comma or a newline parse to exactly those two, in order. |
| Labels.MisreadCommaSplits | app/ui/helpers.py:38 | As written: the three characters U+201E U+00C4 U+00C5 separate two names like a comma. |
| Labels.IdeographicCommaKept | app/ui/helpers.py:38 | As written: two clean names around '、' come back as the one label holding both. |
| Labels.IdeographicCommaExample | app/ui/helpers.py:38 | As written: `parse_labels("a、b")` is `["a、b"]`. |
| Labels.ParseLabelsIntended | app/ui/helpers.py:32-45 | Corrected: '、' splits like ',' and newline; the result is clean, separator-free and duplicate-free. |
| Labels.TwoLabelsIntended | app/ui/helpers.py:36-44 | Corrected: two different clean names around any one of the three separators parse to exactly those two, in order. |
| Labels.EnsureLabels | app/database/repositories/labels.py:22-29 | One id per name, each the name's id afterwards. Existing labels keep their ids, and every name exists afterwards. |
| Labels.EnsuredIds | app/database/repositories/labels.py:22-29 | The returned ids are exactly the ids of the names. |
| Labels.ReplaceIssueLabels | app/database/repositories/issues.py:17-27 | The issue's labels become exactly the given ids, and other issues keep theirs. |
| Labels.Relabel | app/database/repositories/issues.py:17-27 | The issue's label set is the ids of the names, every name exists, and other issues and tables are untouched. |
| Labels.SetIssueLabelsPy | app/database/repositories/issues.py:17-27 | The issue's label set equals the normalised names. Only those names are added as labels. |
| Labels.NoLabelsClears | app/database/repositories/issues.py:105-145 | Passing no labels clears the issue's labels. |
| Labels.RustNormalize | src-tauri/src/commands/labels.rs:95-101 | Exactly the trimmed, non-empty inputs, as a set. |
| Labels.SetIssueLabelsRust | src-tauri/src/commands/labels.rs:87-145 | Every normalised name exists afterwards. The issue's set equals the normalised set, other issues are untouched, and the issue's `updated_at` is bumped. |
| Labels.NamesOf | app/database/repositories/issues.py:183-198 | The names of exactly the labels attached to the issue. |
| Labels.Ascending | app/database/repositories/issues.py:192 | A set of names listed once each, in ascending order. |
| Labels.AscendingUnique | app/database/repositories/issues.py:192 | Only one repetition-free ascending sequence lists a given set of names, so `ORDER BY name` fixes each list. |
| Labels.LabelsMapPy | app/database/repositories/issues.py:183-198 | No ids give {}. Every requested id is a key, mapped to its label names in ascending order, each once. |
| Labels.LabelsMapRust | src-tauri/src/commands/labels.rs:50-84 | No ids give an empty result. Only requested issues with at least one label appear, each with its label names in ascending order, each once. |
| Labels.LabelsMapsAgree | src-tauri/src/commands/labels.rs:50-84 | On every issue the Rust map lists, it gives the same list as the Python map. The Python map also lists the labelless requested issues, with empty lists. |
| Filters.BuildFilter | app/services/filter_service.py:8-17 | An empty or missing status becomes "ALL". A missing keyword becomes "". An empty assignee becomes None. Missing tags become []. The milestone passes through. |
| Filters.BuildWithNothingIsDefault | app/domain/filters.py:10-15 | Building from nothing gives the default `IssueFilter`. |
| Filters.LoadLast | app/services/filter_service.py:29-30 | The saved last filter, else the default filter, else `IssueFilter()`. |
| Filters.SaveThenLoad | app/services/filter_service.py:24-30 | Loading after saving gives back the saved filter. |
| Filters.LikeIsContains | app/database/repositories/issues.py:35-38 | The `LIKE '%w%'` test on a literal word is exactly substring containment. |
| Filters.KeywordWords | app/database/repositories/issues.py:35-38 | The keyword's words are non-empty and contain no white space or U+3000. |
| Filters.ListIssues | app/database/repositories/issues.py:30-84 | The listing holds exactly the issues that match every condition, each once, newest `created_at` first. |
| Filters.DefaultMatchesAll | app/database/repositories/issues.py:30-63 | The default filter lists every issue. |
| Filters.OneWordIsSubstringSearch | app/database/repositories/issues.py:35-38 | A one-word keyword matches exactly the issues whose title or body contains the word. |
| Issues.ToggleStatus | app/database/repositories/issues.py:148-160 | A missing issue raises. Otherwise OPEN becomes CLOSED and anything else OPEN, and the new status is returned. Only that row's status and `updated_at` change. |
| Issues.ToggleStatusTwice | app/database/repositories/issues.py:148-160 | Toggling an OPEN or CLOSED issue twice restores its status. |
| Issues.ToggleReaction | app/database/repositories/issues.py:226-241 | Membership of (issue, user, reaction) flips and no other key changes. The issue's `updated_at` is bumped. A missing issue fails only when the key is absent, because of the foreign key. |
| Issues.ToggleReactionTwice | app/database/repositories/issues.py:226-241 | Toggling the same reaction twice restores the reaction set. |
| Issues.EnsureReactionAllowed | app/services/issue_service.py:71-73 | Allowed iff the reaction is in the whitelist; otherwise "Unsupported reaction". |
| Issues.ToggleIssueReaction | app/services/issue_service.py:80-82 | A reaction outside the whitelist raises before the repository is touched. Otherwise the repository toggle applies. |
| Issues.ToggleCommentReaction | app/services/issue_service.py:89-91 | The whitelist is checked first. An allowed reaction then fails because the comment repository has no `toggle_reaction`. |
| Issues.AssigneeText | app/services/issue_service.py:26 | `assignee or ""`: the given text, or "" when absent. |
| Issues.CreateIssue | app/database/repositories/issues.py:105-127 | Fails iff the milestone does not exist. Otherwise a new row with status OPEN and an assignee of "" when none is given. Both timestamps are now. The issue's labels are the normalised names, and other issues' labels are untouched. |
| Issues.UpdateIssue | app/database/repositories/issues.py:130-145 | Only title, body, assignee, milestone and `updated_at` change. The label set becomes the normalised names. Fails iff an existing issue is given a missing milestone, or labels are given for a missing issue; otherwise a missing issue changes nothing. |
| Issues.UpdateWithoutLabelsClears | app/database/repositories/issues.py:138-145 | An update passing no labels clears the issue's labels. |
| Issues.AddComment | app/database/repositories/comments.py:17-27 | Fails iff the issue does not exist. Otherwise one new comment row is added and the issue's `updated_at` is bumped. |
| Issues.DeleteComment | app/database/repositories/comments.py:30-43 | False, with nothing changed, iff the comment is missing or the user is not its author. Otherwise exactly that comment and its reactions go. |
| Issues.OnlyTheAuthorDeletes | app/services/issue_service.py:55-56 | Another user's attempt changes nothing and returns False. The author's attempt removes the comment. |
| Issues.ListByIssue | app/database/repositories/comments.py:9-14 | Exactly that issue's comments, each once, oldest `created_at` first. |
| Reactions.UsersList | src-tauri/src/commands/reactions.rs:38-43 | An empty users string gives []. Otherwise it is split at ','. |
| Reactions.UsersRoundTrip | src-tauri/src/commands/reactions.rs:38-43 | For plain names, joining with ',' and splitting gives back the users. |
| Reactions.Summarize | src-tauri/src/commands/reactions.rs:19-58 | `count` is the number of reacting users. `reacted` holds iff the current user reacted. `users` lists them when the names are plain. |
| Reactions.ToggleIssueReaction | src-tauri/src/commands/reactions.rs:60-101 | Membership of the key flips, nothing else in the relation changes, and the issue's `updated_at` is bumped. |
| Reactions.ToggleIssueReactionTwice | src-tauri/src/commands/reactions.rs:68-90 | Toggling twice restores the reaction set. |
| Reactions.ToggleCommentReaction | src-tauri/src/commands/reactions.rs:158-207 | Membership flips first. A missing comment then errors and the flip stays. Otherwise the parent issue is bumped. |
| Reactions.CommentGroups | src-tauri/src/commands/reactions.rs:142-154 | Keys are exactly the issue's comments that have reactions, each with its set of reactions. |
| Milestones.CountIssueProgress | app/database/repositories/milestones.py:86-97 | (total, closed) are the sizes of the assigned and the closed issue sets, and closed ≤ total. |
| Milestones.Percent | src-tauri/src/commands/milestones.rs:139 | 0 for no issues. Otherwise the largest pct with pct·total ≤ closed·100, which is the integer division. |
| Milestones.Progress | app/services/milestone_service.py:47-53 | (0,0,0) without issues. Otherwise total and closed unchanged, with the truncated percentage. |
| Milestones.PercentAtMost100 | app/services/milestone_service.py:52 | With closed ≤ total the percentage is at most 100. It equals 100 iff every issue is closed. |
| Milestones.AutoStatus | app/services/milestone_service.py:56-62 | "planned" without issues, "closed" when the percentage reaches 100, "active" otherwise. |
| Milestones.AutoStatusMeaning | app/services/milestone_service.py:56-62 | A milestone is closed exactly when it has issues and all are CLOSED. It is planned exactly when it has none. |
| Milestones.Create | app/services/milestone_service.py:11-21 | A new row: status defaults to "planned", the description is "" when falsy, and both timestamps are now. |
| Milestones.Update | app/services/milestone_service.py:24-36 | A missing milestone raises. So does a NULL title or status, which violates the NOT NULL columns (app/database/schema.py:76-85), and the table stays as it was. Otherwise every allowed keyword is applied and `id` and `created_at` are kept. Written values take TEXT affinity: an integer becomes its decimal text, and the description `or ""`. `updated_at` becomes now, and other rows are untouched. |
| Milestones.UpdateNoneTitleRaises | app/database/repositories/milestones.py:28-41 | `title=None` or `status=None` raises. `title=5` stores the text "5". |
| Milestones.UpdateIgnoresProtectedAndUnknown | app/services/milestone_service.py:28-34 | Keywords naming a protected or unknown field have no effect. |
| Milestones.CreateMilestone | src-tauri/src/commands/milestones.rs:58-63 | A new row with a fresh id, status 'planned' and `created_at == updated_at == now`. |
| Milestones.DeleteMilestone | src-tauri/src/commands/milestones.rs:95-105 | Issues pointing at the milestone get a NULL milestone and other issues are unchanged. Then the row goes, and no issue is assigned to it. |
| Milestones.ByNewest | src-tauri/src/commands/milestones.rs:21 | Every milestone row exactly once, newest `updated_at` first. |
| Milestones.GetMilestones | src-tauri/src/commands/milestones.rs:18-47 | Exactly the milestones whose text columns decode, newest `updated_at` first. Rows with a NULL or non-text `String` column are dropped. When every row decodes, the listing is the full ordered table. |
| Milestones.AllDecodedKept | src-tauri/src/commands/milestones.rs:40-45 | When every row decodes, the decode filter drops nothing. |
| Milestones.ProgressRows | src-tauri/src/commands/milestones.rs:135-146 | Each row carries its milestone's (total, closed) and their percent, which is at most 100. |
| Milestones.GetMilestoneProgress | src-tauri/src/commands/milestones.rs:119-156 | One row per milestone, every milestone included, newest first. The i-th row names the i-th milestone in that order and carries its (total, closed) and their percent, which is at most 100. |
| Milestones.ProgressMatchesListing | src-tauri/src/commands/milestones.rs:18-156 | When every milestone decodes, the i-th progress row belongs to the i-th listed milestone. |
| Milestones.UndecodableOnlyInProgress | src-tauri/src/commands/milestones.rs:40-45 | A milestone that does not decode is missing from the listing but still has a progress row. |
| Percent.DecodeEncode | app/utils/linkify.py:13 | Percent-decoding an encoded string gives back its UTF-8 bytes. |
| Linkify.Slashes | app/utils/linkify.py:13 | Each backslash becomes '/', and every other character is kept. |
| Linkify.FileUrlPrefix | app/utils/linkify.py:12-15 | A UNC path gives "file://" followed by the host, and anything else gives "file:///". |
| Linkify.FileUrlDecodes | app/utils/linkify.py:12-15 | After the prefix the URL decodes to exactly the UTF-8 of the path with '/' for '\\'. |
| Linkify.FileUrlChars | app/utils/linkify.py:12-15 | A file URL holds only unreserved characters, '/', ':' and escapes: no backslash, no space. |
| Linkify.RStrip | app/utils/linkify.py:66 | The longest prefix that does not end in a stripped character; everything removed is such a character. |
| Linkify.SpliceAsWritten | app/utils/linkify.py:65-73 | As written: every unprotected match is linked with its trailing punctuation removed, and the text ends with a plain piece. |
| Linkify.OverlapShowsPathTwice | app/utils/linkify.py:65-72 | As written: a UNC match starting inside a drive link makes the shown text repeat part of the input. |
| Linkify.Splice | app/utils/linkify.py:65-73 | Corrected loop: the shown text equals the input, and links never include trailing punctuation. |
| Linkify.SpliceAgreesWhenDisjoint | app/utils/linkify.py:65-73 | When no match starts inside the previous link, the written loop and the corrected loop agree. |
| Linkify.ByStart | app/utils/linkify.py:60-63 | The matches sorted by start, as a permutation. |
| Linkify.Visited | app/utils/linkify.py:60-63 | The loop visits exactly the matches of both patterns, each a part of the text. |
| Linkify.LinkifyPieces | app/utils/linkify.py:37-74 | As written: every link is trimmed, and when no match starts inside the link before it the shown text equals the input. |
| Linkify.LinkifyPiecesCorrected | app/utils/linkify.py:37-74 | Corrected loop: the shown text always equals the input and every link is trimmed. |
| Linkify.Linkify | app/utils/linkify.py:42-43 | As written: empty text comes back as it is, and so does text with no matches. |
| Linkify.LinkifyCorrected | app/utils/linkify.py:42-43 | Corrected loop: empty text and text with no matches come back unchanged. |
| Linkify.LinkifyAgreesWhenDisjoint | app/utils/linkify.py:37-74 | Without overlapping matches the program and the corrected loop write the same Markdown. |
| Linkify.AllProtectedUnchanged | app/utils/linkify.py:46-54 | As written: when every match lies inside an existing Markdown link, the output equals the input. |
| Outlook.NormalizeBody | src-tauri/src/commands/outlook.rs:48-54 | Every CRLF, lone CR and lone LF becomes one CRLF (the reference `Crlf`). The result has no lone CR or LF. Text without breaks is unchanged. |
| Outlook.NormalizeIsCrlf | src-tauri/src/commands/outlook.rs:49-53 | The three replace passes compute the one-pass reference. |
| Outlook.NormalizeIdempotent | src-tauri/src/commands/outlook.rs:49-53 | Normalising twice is normalising once. |
| Outlook.WellEndedIff | src-tauri/src/commands/outlook.rs:49-53 | "No lone CR or LF" is the same as "breaks only as CR LF pairs". |
| Outlook.VbsEscapeReadsBack | src-tauri/src/commands/outlook.rs:73-74 | VBScript reads back the recipient and the subject exactly from their quoted literals. The literal is valid iff the text has no line break. |
| Outlook.EscapeBodyIsRef | src-tauri/src/commands/outlook.rs:75-78 | The three body replace passes equal a one-pass reference escaping. |
| Outlook.EscapeBodyReadsBack | src-tauri/src/commands/outlook.rs:75-78 | A normalised body reads back exactly from its literal, and the literal is valid. |
| Outlook.BodyLiteral | src-tauri/src/commands/outlook.rs:6-78 | The body VBScript receives is exactly the normalised body. |
| Outlook.UrlEncode | src-tauri/src/commands/outlook.rs:22-24 | The encoding decodes back to the text's UTF-8 and holds no '?', '&' or quote. |
| Outlook.MArg | src-tauri/src/commands/outlook.rs:153-167 | With an empty recipient the argument starts "mailto:?subject=". |
| Outlook.MArgParses | src-tauri/src/commands/outlook.rs:153-167 | The `/m` argument parses back to the recipient as given and to the encoded subject and body. |
| Outlook.MArgCutsRecipient | src-tauri/src/commands/outlook.rs:161-166 | A recipient holding '?' does not come back whole, because it is not encoded. |
| Outlook.FallbackParses | src-tauri/src/commands/outlook.rs:20-25 | The fallback mailto parses back to all three encoded parts, whatever they hold. |
| Outlook.StartProcess | src-tauri/src/commands/outlook.rs:31 | A mailto without single quotes is quoted as-is in `Start-Process '…'`. |
| Outlook.CreateDraft | src-tauri/src/commands/outlook.rs:4-46 | COM first, then outlook.exe, then mailto. The call fails only when all three fail, with the mail-handler message. |
| Themes.InstalledThemes | src-tauri/src/commands/themes.rs:105-142 | Given a listing of the themes folder that names each sub-folder once: a theme is listed iff some installed folder's `theme.json` parses to it. There is one entry per such folder. |
| Themes.ActiveIsInstalled | src-tauri/src/commands/themes.rs:105-161 | The active theme, when its id names a folder of its own, is among the installed themes. |
| Themes.GetActiveTheme | src-tauri/src/commands/themes.rs:146-161 | None iff no theme is selected (none, "" or "default") or the selected one is not installed. Otherwise its parsed config, or the parse error. |
| Themes.SetThenGet | src-tauri/src/commands/themes.rs:146-172 | Selecting an installed theme makes it the active one. Selecting nothing, "" or "default" leaves no active theme. |
| Themes.DeleteTheme | src-tauri/src/commands/themes.rs:211-235 | As written: "default" and ids with "..", '/' or '\\' are refused and nothing changes. An id of "" or "." names the themes folder itself, which is removed with every theme in it. Any other id loses just its own folder. The selection is cleared iff it was the deleted id. |
| Themes.DeleteEmptyIdRemovesAll | src-tauri/src/commands/themes.rs:216-223 | As written: `delete_theme("")` succeeds and leaves no theme installed and none loadable. |
| Themes.DeleteThemeChecked | src-tauri/src/commands/themes.rs:211-235 | Corrected guard: refused iff the id is "default" or not a plain folder name. On success exactly that folder is gone, nothing else changes, and the selection is cleared iff it was that id. |
| Themes.DeleteCheckedAgrees | src-tauri/src/commands/themes.rs:211-235 | Every id the corrected guard accepts is handled by the written command in the same way. |
| Themes.DeleteActiveFallsBack | src-tauri/src/commands/themes.rs:226-232 | Deleting the active theme leaves no active theme. |
| Themes.DeleteOtherKeepsActive | src-tauri/src/commands/themes.rs:216-232 | Deleting another theme's folder keeps the active theme. Deleting "" or "." leaves no active theme, since its folder is gone too. |
| Themes.MetaOf | src-tauri/src/commands/themes.rs:285-302 | The id is the repo name without "theme-". Name, description and author fall back as written. `installed` holds iff the id is installed. |
| Themes.RemoteThemes | src-tauri/src/commands/themes.rs:275-305 | Only "theme-" repos are listed, and `installed` holds iff the id is installed. |
| Themes.RemoteThemeIds | src-tauri/src/commands/themes.rs:277-285 | An id is listed iff "theme-" + id is a repo name. |
| Themes.ListRemoteThemes | src-tauri/src/commands/themes.rs:239-314 | A cache younger than 300 seconds is served. Otherwise a fetch error is returned with the cache kept, or the fetched repos are listed and cached. |
| Themes.ListingIsCached | src-tauri/src/commands/themes.rs:245-255 | A fresh cache makes the result independent of the network. |
| Themes.TopFolder | src-tauri/src/commands/themes.rs:359-366 | The prefix is the first entry's name up to its first '/'. |
| Themes.Flatten | src-tauri/src/commands/themes.rs:368-379 | No entry is added and no kept entry has an empty name. `FlattenBelow` states the contents. |
| Themes.FlattenBelow | src-tauri/src/commands/themes.rs:368-379 | Entries under `top/` lose exactly that prefix and keep their order. |
| Themes.ZipballFlattens | src-tauri/src/commands/themes.rs:359-379 | A GitHub zipball of top folder T unpacks to exactly its members. |
| Themes.Install | src-tauri/src/commands/themes.rs:381-391 | The theme directory gains exactly the unpacked files, and other files keep their content. |
| Themes.Fetch | src-tauri/src/commands/themes.rs:330-402 | A failed download changes nothing. Otherwise, for an id naming a folder of its own, that folder exists afterwards, even when unpacking or parsing fails, and no other folder or root file changes. The selection is untouched. Success returns the config the `theme.json` where the files went parses to. |
| Themes.ReadBack | src-tauri/src/commands/themes.rs:393-401 | Reading `theme.json` back succeeds iff the theme there loads, and returns that config. |
| Themes.DownloadTheme | src-tauri/src/commands/themes.rs:318-402 | As written: ids with "..", '/' or '\\' are refused with nothing changed. Every other id, "" and "." included, goes through the download steps. |
| Themes.DownloadThemeChecked | src-tauri/src/commands/themes.rs:318-402 | Corrected guard: ids that are not plain folder names are refused. A failed download changes nothing. Otherwise only the folder `id` changes and it exists afterwards. Success means theme `id` is installed and loads to the returned config. |
| Themes.DownloadInstalls | src-tauri/src/commands/themes.rs:318-402 | For an id naming a folder of its own, unpacking a zipball that holds `theme.json` installs the theme. The call succeeds iff the installed theme loads, and it returns that config. |
| Themes.DownloadEmptyIdInstallsNothing | src-tauri/src/commands/themes.rs:325-391 | As written: `download_theme("")` unpacks a flat zipball straight into the themes folder. No theme folder is added, yet the call succeeds whenever the unpacked `theme.json` parses. |
| Themes.InstallTopFiles | src-tauri/src/commands/themes.rs:381-391 | Plain files unpacked into the themes folder itself land there as `Install` would write them, and no theme folder changes. |
| ThemePaths.ResolveFrom | src-tauri/src/commands/themes.rs:186 | Resolving keeps a path clean. A path without ".." only extends its base. |
| ThemePaths.ResolveFromAppend | src-tauri/src/commands/themes.rs:186 | Resolving a concatenation is resolving the parts in turn. |
| ThemePaths.ThemeFileAsWritten | src-tauri/src/commands/themes.rs:176-188 | As written: the only refusal is a relative path containing "..". Otherwise the joined, resolved path is opened. |
| ThemePaths.RootedExample | src-tauri/src/commands/themes.rs:182-186 | As written: theme "nordic" with file `\secret.txt` opens `C:\secret.txt`. |
| ThemePaths.RootedFileEscapes | src-tauri/src/commands/themes.rs:182-186 | As written: every rooted relative path escapes the theme directory. |
| ThemePaths.ClimbingExample | src-tauri/src/commands/themes.rs:182-186 | As written: theme ".." with `settings.json` opens the application's own `settings.json`. |
| ThemePaths.ClimbingIdEscapes | src-tauri/src/commands/themes.rs:182-186 | As written: the id is not checked, so ".." escapes. |
| ThemePaths.ThemeFile | src-tauri/src/commands/themes.rs:176-207 | Corrected guard: refused iff the id is not a plain name or the path does not descend. Otherwise the opened path lies inside the theme's directory. |
| ThemePaths.StaysInside | src-tauri/src/commands/themes.rs:176-207 | A plain id and a descending path always resolve inside the theme directory. |
| ThemePaths.GuardRefusesEscapes | src-tauri/src/commands/themes.rs:182-199 | The corrected guard refuses both escaping inputs. |

## Left out

- Real file, process and network I/O are left out. The lock file, the sync folder, theme directories, downloads and the GitHub API answer are parameters or in-memory values. Copying and spawning the executable (relaunch.rs:74-104), COM, outlook.exe and PowerShell launches, clipboard and attachments are not modelled. Nor is settings persistence beyond the fields used.
- Concurrency is left out: the background sync thread, its 3-second sleep and the mutex. One poll iteration is modelled. The lock race is shown by splitting read and write.
- Clocks are left out. `now` is a parameter. Lock timestamps are integer seconds, and RFC 3339 parsing is reduced to "parses to a second / empty / unparsable". Database timestamps stay strings, compared lexicographically.
- Milestones.Progress: the Python percentage is `int((closed/total)*100)` in floating point. It can be one below the integer formula modelled here, for example 29/100 gives 28.
- Integer widths are left out: ids, counts and `closed*100` are unbounded. Rust `i32` overflow in `get_milestone_progress` is not modelled.
- The Rust lock code refers to `config.lock_path` and `state.lock_status`, which the configuration and application state do not declare. Its commands are also not registered (src-tauri/src/lib.rs:87-124). It is modelled as its evident intent.
- Regular expressions are left out: the linkifier's drive, UNC and Markdown-link matches are inputs, and only their extents are checked.
- Percent-encoding (`quote`, `urlencoding::encode`) and UTF-8 are modelled concretely rather than taken as given functions.
- Theme paths follow simplified Windows rules: a drive is ':' at index 1, and '/' and '\\' are separators. Zip entry names are not sanitised by the source, and where extracted files land is not modelled.
- Theme ids are checked only for the cases above. An id with a drive (such as "C:") or another name with a special meaning on Windows is treated as an ordinary folder name. When a file and a folder of the same name collide during unpacking, the OS error is not modelled.
- Themes.DownloadInstalls: covers ids naming a folder of their own. For "" and "." see Themes.DownloadEmptyIdInstallsNothing.
- Themes.GetActiveTheme: a selected id holding separators is looked up as a single folder name. The path it would open is not modelled.
- `merge_sync_temp_to_master` calls `crate::lock::acquire_merge_lock` and `release_merge_lock` (src-tauri/src/sync.rs:385, 457). No source file defines them. `lockOk` in `Sync.MergeEnv` is therefore a free parameter standing for whether acquisition succeeded. `LockBusy` and `lockHeld` model only that the merge stops when acquisition fails and that release is skipped after a panic.
- Themes.InstalledThemes: `read_dir`'s order is a parameter. An entry that fails to read or is not a directory is not modelled, and neither is the missing themes folder, which reads as an empty store.
- PyLock.StartupPlan: a `user` value that is not a string is handed on by `lock.get` as the holder unchanged. The model only carries string users, or their absence.
- Sync.RowOf: a real entering a TEXT column keeps its JSON literal, where SQLite writes its own rendering of the double. Integral reals entering an INTEGER column, and integer text with surrounding spaces, are not converted. Such values stay as bound.
- Milestones.Update: keyword values are taken as SQLite binds them. A float keeps its literal where SQLite stores its own rendering in a TEXT column, and the IntegrityError is reduced to its message.
- Sync.Insert: NOT NULL violations and columns the table does not have make SQLite reject the statement. The model stores the row anyway.
- Labels.LabelsMapRust: the pairs come out of a hash map, in an order the model does not fix. It is modelled as a map.
- OS error texts are left out; errors carry only the application's own prefix. Failures to write the theme cache are ignored by the source and not modelled.
- Outlook.MArg: the recipient is inserted without encoding, so it is only shown to parse back when it holds no '?'.
- Outlook: a subject or recipient containing a line break makes an invalid VBScript literal (`Outlook.VbsEscapeReadsBack` states when). The script's other lines are not modelled.
- Python `list_all` of milestones (ordered by due date, then id descending), Python milestone `delete`, and Rust `update_milestone` are not modelled. None of them carries a rule beyond a single SQL statement.
- `get_zombie_hours`, the Flet UI, theme colours, fonts and the dashboard are not modelled.
- Issues.ToggleCommentReaction: the Python comment repository has no `toggle_reaction`, so any allowed reaction raises. The model returns that error rather than a repository effect.

## Findings

| source | as written | input that shows it | evidently intended | confidence | as-written member | corrected member |
|---|---|---|---|---|---|---|
| app/ui_state.py:7 | `AppState.mode` starts as "edit". The exit and window-close handlers (app/app_main.py:64-71, 244-252) release the lock whenever the mode is "edit", and release deletes unconditionally. | bob starts while alice's lock is two hours old (zombie dialog open) and closes the window; or bob starts while alice holds a live lock and the schema set-up fails, then exits; or alice's lock carries an offset-aware `locked_at`, bob's check raises, and bob exits | Release only a lock this session took; leave the mode undecided until the verdict | not executed | Session.ZombieDialogCloseDeletesForeignLock, Session.SchemaFailureExitDeletesLiveForeignLock, Session.CrashExitDeletesForeignLock | Session.SafeExitKeepsForeignLock |
| app/utils/linkify.py:65-72 | Every match is spliced from `last` even when it starts before `last`, so overlapping drive and UNC matches show text twice | `C:\a\\srv\share`: the drive match covers the whole text and the UNC match starts inside it | Skip a match that starts before the end of the previous link | not executed | Linkify.OverlapShowsPathTwice | Linkify.LinkifyPiecesCorrected |
| app/utils/lock.py:62-66 | `except (KeyError, ValueError)` does not catch the TypeError raised for a non-string `locked_at`, an offset-aware `locked_at` or a JSON value that is not an object, so `check_lock_on_startup` raises and the file stays | a lock file `{"user": "bob", "locked_at": "2025-01-01T09:00:00+09:00"}` | Treat the record as broken, as the docstring at line 60 says for a failed parse | not executed | PyLock.OffsetStampCrashes | PyLock.StartupPlanIntended |
| app/utils/lock.py:25-28 | `except (json.JSONDecodeError, OSError)` does not catch the UnicodeDecodeError that reading a file that is not valid UTF-8 raises, so `check_lock_on_startup` raises and the file stays | a lock file cut off in the middle of a multi-byte user name such as "田中" | Read the file as broken, as the docstring at line 21 says, so the caller takes the lock | not executed | PyLock.NotUtf8Crashes | PyLock.StartupPlanIntended |
| app/ui/helpers.py:38 | The second `replace` looks for the three characters U+201E U+00C4 U+00C5 ("„ÄÅ"), which are the UTF-8 bytes of '、' read as Mac OS Roman; the ideographic comma itself is never a separator | `parse_labels("a、b")` gives `["a、b"]` | Split at '、' as at ',' and newline, as the docstring and the '、' in app/utils/linkify.py:66 suggest | not executed | Labels.IdeographicCommaExample | Labels.TwoLabelsIntended |
| src-tauri/src/commands/themes.rs:216-223 | The id check (here and at lines 323-325) refuses only "..", '/' and '\\', so "" and "." pass and `themes_dir.join(id)` is the themes folder itself | `delete_theme("")` removes every installed theme; `download_theme("")` unpacks into the themes folder, adds no theme, and reports success | The id names exactly one theme folder | not executed | Themes.DeleteEmptyIdRemovesAll, Themes.DownloadEmptyIdInstallsNothing | Themes.DeleteThemeChecked, Themes.DownloadThemeChecked |
| src-tauri/src/commands/themes.rs:182-186 | The path guard only refuses "..", and the theme id is not checked at all | theme "nordic" with file `\secret.txt` opens `C:\secret.txt`; theme ".." with file `settings.json` opens the application's own settings | The opened file lies inside the theme's directory | not executed | ThemePaths.RootedExample | ThemePaths.ThemeFile |
