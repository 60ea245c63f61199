# specli `.claude` folder engine, modelled in Dafny

specli is a command-line tool that deploys a repository's `.claude` folder
(its command files and settings) into other repositories. It can copy the
folder into a new target, update an existing one, take backups and clean
temporary files. This project models the parts of the tool that make
decisions, and proves what those parts promise:

- **The folder engine** of `src/specli/filesystem.py`. The disk is the class
  `Disk.FileSystem`:
  - a map `files` from file path to contents;
  - a set `dirs` of explicit directories (every strict prefix of a file
    is a directory as well);
  - a constant set `unwritable`, the file paths whose write is refused
    when the file is opened (a permission error).

  Every operation is a method that changes `fs.files` and `fs.dirs`. Its
  `ensures` gives the new state as a function of the old one: detection,
  inventory, validation, timestamped backups, copy with backup and restore,
  merge, clean-up and the search for `.git`.
- **The backup decision** of `src/specli/backup.py`. `BackupManager` is a
  value that holds only the target directory. The user's reply to the
  yes/no prompt is an input. `create_claude_backup` is a function that
  `reads` the disk, so it cannot change the folder.
- **The pure part of `src/specli/github.py`:**
  - parsing the `owner/repo`, HTTPS and SSH forms of a repository identifier;
  - sorting a failed `gh api` call into not found, access denied or generic
    failure;
  - the `.claude` predicate over a repository listing;
  - the partitioning loop of batch validation.

  Calls to `gh` are oracle parameters of function type.
- **The message formatters** of `src/specli/output.py`. The loosely typed
  result dictionary is a record with optional fields.

Modelling conventions:

- A path is the sequence of its components from the root. `resolve()` is
  assumed to have been applied already.
- Bytes are a `Byte` newtype with values 0..255.
- Wall-clock time is the parameter `ts`.
- `rglob` and `glob` visit their results in an order the model does not fix.
  Every loop picks its next element with `:|` from the set still to do, so
  each proof holds for every order.

The modules are:

- `Wrappers`: `Option`, `Result`;
- `Strings`: decimal rendering, substring search, split, replace, strip;
- `Paths`: paths, inventories, total sizes;
- `Disk`: the filesystem class and the `shutil` or `pathlib` primitives the
  engine calls;
- `Filesystem`: `filesystem.py`;
- `Backup`: `backup.py`;
- `GitHub`: `github.py`;
- `Output`: `output.py`.

The source's own behaviour is followed where it is unusual:

- The merge preserves a file when the string `settings.local.json` occurs
  anywhere in its relative path, not only when that is the file's name.
- `get_claude_folder_info` counts as a command every file whose suffix is
  `.md` and whose direct parent is named `commands`, at any depth.
- `validate_claude_folder_structure` counts only the `*.md` entries directly
  inside `.claude/commands`. Such a glob also matches a file named just `.md`.
- `get_repository_root` stops before it looks at the filesystem root itself.
- The copy-step of `create_claude_backup` is still a placeholder, so the
  model says only what that function returns.

## Model

| member | source | states |
|---|---|---|
| Filesystem.DetectClaudeFolder | src/specli/filesystem.py:43-59 | NotFound exactly when `.claude` is absent. Corrupted exactly when `.claude` is not a directory, or `commands` exists and is not one. Otherwise `repo/.claude`, which is a directory. |
| Filesystem.DetectWithoutCommands | src/specli/filesystem.py:52-59 | A directory `.claude` with no `commands` entry is accepted. |
| Filesystem.ValidationAgreesWithDetection | src/specli/filesystem.py:280-302 | Validation calls a folder valid exactly when detection accepts it. |
| Filesystem.GetClaudeFolderInfo | src/specli/filesystem.py:72-99 | The listed files are exactly the files of the walk, each once. The size is their total length. The command count is the number of `.md` files whose parent is `commands`. The two settings flags mean the files exist. A missing folder gives zeros. |
| Filesystem.TallyWalk | src/specli/filesystem.py:86-93 | The loop over the walk, in any order, yields every file once, their total size and the command count. |
| Filesystem.CommandFilesStep | src/specli/filesystem.py:90-93 | One more finished file raises the command count by one exactly when it is a command file. |
| Filesystem.CountGlobbedCommands | src/specli/filesystem.py:296-298 | The count is the number of regular files that `commands.glob("*.md")` yields. |
| Filesystem.CountFiles | src/specli/filesystem.py:321 | The count is the number of files below the folder. |
| Filesystem.CheckCommandsEntry | src/specli/filesystem.py:291-303 | A `commands` directory is globbed. A non-directory is an error. A missing one is a warning. |
| Filesystem.CheckSettingsEntry | src/specli/filesystem.py:306-318 | The flag is "is a regular file". A warning is given exactly when the entry exists and is not a file. |
| Filesystem.ValidateClaudeFolderStructure | src/specli/filesystem.py:267-323 | `valid` is the validity predicate. Errors and warnings are given in the source's order. The structure counters are the glob count, the settings flags and the total number of files. A missing folder or a non-directory gives its own single error. |
| Filesystem.BackupName | src/specli/filesystem.py:117-124 | Every candidate starts `.claude.backup.<ts>`. Only the first candidate has no numeric suffix. |
| Filesystem.BackupNameInjective | src/specli/filesystem.py:117-124 | Different attempts try different names. |
| Filesystem.CandidatesFit | src/specli/filesystem.py:120-124 | A set of names that holds the first k+1 candidates has at least k+1 elements. |
| Filesystem.CandidatesTaken | src/specli/filesystem.py:120-124 | When the first k+1 candidates all exist, the parent holds at least k+1 entries. So the naming loop ends. |
| Filesystem.ChooseBackupPath | src/specli/filesystem.py:117-124 | The chosen path is candidate k, which is free, with every earlier candidate taken. |
| Filesystem.CreateBackup | src/specli/filesystem.py:112-127 | A missing folder fails and changes nothing. On success the backup is the first free candidate. It held nothing before, it is apart from the folder, and its inventory equals the folder's. The folder and every file that existed before are unchanged. On failure, removing the backup path gives back the old state. |
| Filesystem.ClearTarget | src/specli/filesystem.py:180-181 | Removes the target and everything below it, and nothing else. |
| Filesystem.RestoreBackup | src/specli/filesystem.py:176-184 | After a failed copy, removing the partial target and renaming the backup back gives exactly the files from before the call. |
| Filesystem.BackUpTarget | src/specli/filesystem.py:161-165 | On success the backup is a fresh sibling that holds the target's inventory, and the target is gone. On failure the target's inventory is unchanged, and removing the candidate gives back the old state. |
| Filesystem.TargetFolder | src/specli/filesystem.py:145 | The copy target is the `.claude` child of the target repository. |
| Filesystem.CopyClaudeFolder | src/specli/filesystem.py:142-186 | A missing source gives NotFound and changes nothing. A backup is made exactly when the target existed. On success the counters are the file count and byte total. Outside the target, files and directories are unchanged, except that a backup adds the old target's files and directories at the backup path. Inside the target the file map is exactly the source's inventory (with a backup: when the source is apart from target and backup). A failed report carries an error and zero counters. On failure after a backup, the old state is restored and the report shows no backup. An existing target without backup fails and changes nothing. |
| Filesystem.CopyWithBackup | src/specli/filesystem.py:159-184 | The backup branch: success means a backup was made at the first free backup path, holding the old target's inventory. Outside the target the new files and directories are the old ones plus that backup. On failure every old file is back and the target's inventory is its old one. |
| Filesystem.CopyAfterBackup | src/specli/filesystem.py:168-184 | Copy after the backup: on success the report describes the new target, and outside the target the files and directories are the old ones plus the backup of the old target. On failure the files and directories are restored and the backup is cleared from the report. |
| Filesystem.CopyWithoutBackup | src/specli/filesystem.py:168-174 | An existing target makes the copy fail with nothing changed. On success the source's inventory is grafted at the target and the report counts it. Directories outside the target never change. |
| Filesystem.FinishCopy | src/specli/filesystem.py:171-174 | `files_copied` and `bytes_copied` are the file count and total size of the new target. |
| Filesystem.PreservedSplit | src/specli/filesystem.py:220-231 | The source files split into incoming and preserved ones. Without `preserve_local` nothing is preserved. |
| Filesystem.MergeLeavesOthers | src/specli/filesystem.py:220-247 | The merged tree deletes no file. A preserved file's target keeps its bytes. A file with no source counterpart is unchanged. |
| Filesystem.SettledMeansNothingToDo | src/specli/filesystem.py:236-247 | A target is settled exactly when the merge would add nothing and update nothing, and exactly when grafting changes nothing. |
| Filesystem.GraftSettles | src/specli/filesystem.py:236-249 | After a merge the target is settled. |
| Filesystem.GraftMiss | src/specli/filesystem.py:236-247 | A path not yet merged keeps what it held. |
| Filesystem.AddedCount | src/specli/filesystem.py:244-247 | Merging one more file raises the added count exactly when its target was absent. |
| Filesystem.UpdatedCount | src/specli/filesystem.py:236-242 | Merging one more file raises the updated count exactly when its target held different bytes. |
| Filesystem.PreservedCount | src/specli/filesystem.py:229-231 | Finishing one more file raises the preserved count exactly when it is preserved. |
| Filesystem.PartialMerge | src/specli/filesystem.py:223-252 | A merge stopped partway deletes nothing. Every file either keeps its old bytes or holds its incoming bytes. |
| Filesystem.DoneStep | src/specli/filesystem.py:223-247 | Finishing one more file adds it to the finished part exactly when it is incoming. |
| Filesystem.DoneAll | src/specli/filesystem.py:249 | A finished walk has handled every incoming file. |
| Filesystem.MergeStepFiles | src/specli/filesystem.py:236-247 | A file that is written, or already identical, extends the merged tree by that file. |
| Filesystem.MergeFile | src/specli/filesystem.py:234-247 | The mkdir and copy of one file succeed exactly when no ancestor is a file and the write is possible, or the bytes are already equal. The change is Added, Updated or Unchanged as compared. An error changes no file. |
| Filesystem.MergeOne | src/specli/filesystem.py:234-247 | One merged file bumps exactly the counter its change calls for. An error changes no file and keeps the counters. |
| Filesystem.PreservedFacts | src/specli/filesystem.py:229-231 | Counting a preserved file keeps the loop's facts. |
| Filesystem.MergedFacts | src/specli/filesystem.py:234-247 | On a settled target each file to merge is already identical. |
| Filesystem.MergedFactsAfter | src/specli/filesystem.py:234-247 | Merging a file keeps the loop's facts. |
| Filesystem.PreservedProgress | src/specli/filesystem.py:229-231 | Counting a preserved file moves the walk on by one. |
| Filesystem.MergedProgress | src/specli/filesystem.py:234-247 | Merging a file moves the walk on by one and raises the right counter. |
| Filesystem.MergeStep | src/specli/filesystem.py:223-247 | One turn of the merge loop keeps the loop's facts, or stops with an OS error. |
| Filesystem.MergeLoop | src/specli/filesystem.py:218-252 | The loop finishes every file or stops with an OS error. The counters match the finished part. A tidy, settled target never fails. |
| Filesystem.MergeFiles | src/specli/filesystem.py:209-254 | Success exactly when there is no error. On success: every incoming file is in place byte for byte, and the added, updated and preserved counts are the sizes of those sets. Added + updated + preserved is at most the number of source files. No file is deleted. A settled target is left unchanged with zero counts. `conflicts` stays empty. |
| Filesystem.MergeClaudeFolders | src/specli/filesystem.py:201-254 | A missing source gives NotFound with nothing changed. A missing target falls back to a copy without backup into `<parent>/.claude`. A successful fallback copy makes that folder exactly the source's inventory and leaves every file and directory outside it unchanged. A failed one changes nothing when `<parent>/.claude` was in the way. Otherwise, removing that folder gives back exactly the old files, so every old file is kept. With an existing target the properties of the merge hold. |
| Filesystem.MergeTwice | src/specli/filesystem.py:204-247 | A second merge of the same source after a successful one adds 0 and updates 0, and leaves the files as the first merge left them. On a tidy disk it also succeeds. |
| Filesystem.CopyThenMerge | src/specli/filesystem.py:204-247 | Idempotence after the copy fallback: with a missing target named `.claude`, a successful first call copies, and the second call merges, adding 0 and updating 0, with the files exactly as the copy left them. |
| Filesystem.CopyTwiceElsewhere | src/specli/filesystem.py:204-207 | With a missing target not named `.claude`, the target stays missing after a successful copy, so the second call copies again into the now existing `<parent>/.claude` and fails, leaving the files as the first call left them. |
| Filesystem.CleanPatternsMeaning | src/specli/filesystem.py:348-356 | A name is removed exactly when it ends `.tmp` or `.cache`, is `.DS_Store` or `Thumbs.db`, or is `settings.local.json` when that flag is set. |
| Filesystem.MatchingStep | src/specli/filesystem.py:358-364 | One more pattern, taken over what is left, adds exactly its new matches. |
| Filesystem.RemovedOneMore | src/specli/filesystem.py:360-364 | One more unlink adds one file and its size to the removed totals. |
| Filesystem.CleanStepTotals | src/specli/filesystem.py:358-364 | The totals of successive patterns add up. |
| Filesystem.CleanTwice | src/specli/filesystem.py:358-364 | A second clean-up finds nothing to remove. |
| Filesystem.CleanClaudeFolder | src/specli/filesystem.py:337-371 | A missing folder gives `success=false` and changes nothing. Otherwise exactly the matching files are deleted, `files_removed` and `bytes_freed` are their count and total size, and every other file is unchanged. |
| Filesystem.RemoveAllPatterns | src/specli/filesystem.py:358-364 | The pattern loop removes exactly the union of the matches, and adds up their count and size. |
| Filesystem.CleanStep | src/specli/filesystem.py:358-364 | One turn of the pattern loop keeps the loop's progress predicate. |
| Filesystem.RemoveMatches | src/specli/filesystem.py:359-364 | One pattern removes exactly its matches below the folder. On a non-directory it removes none. |
| Filesystem.UnlinkAll | src/specli/filesystem.py:360-364 | Unlinking the matches in any order removes exactly them and adds their count and size. |
| Filesystem.RepositoryRootMeaning | src/specli/filesystem.py:384-391 | The root found is the nearest ancestor having `.git`. None exactly when no ancestor short of the filesystem root has `.git`. |
| Filesystem.GetRepositoryRoot | src/specli/filesystem.py:384-391 | The upward loop returns the repository root. |
| Filesystem.IsGitRepository | src/specli/filesystem.py:404 | True exactly when some ancestor short of the filesystem root has `.git`. |
| Disk.FileSystem.Walk | src/specli/filesystem.py:86-87 | `rglob` below a directory is its inventory. Below anything else it is empty. |
| Disk.FileSystem.ChildNames | src/specli/filesystem.py:120-124 | Every existing child's name is listed. |
| Disk.FileSystem.WriteFile | src/specli/filesystem.py:241 | `shutil.copy2` writes the bytes when the file can be opened for writing, and a write refused at open changes nothing. |
| Disk.FileSystem.MakeParents | src/specli/filesystem.py:234 | `mkdir(parents=True, exist_ok=True)` succeeds exactly when no ancestor is a file. |
| Disk.FileSystem.Unlink | src/specli/filesystem.py:362 | `unlink` removes exactly that file. |
| Disk.FileSystem.RemoveTree | src/specli/filesystem.py:165 | `rmtree` removes the tree and nothing else. |
| Disk.FileSystem.MoveTree | src/specli/filesystem.py:182 | `move` renames the whole tree to a free place. |
| Disk.FileSystem.CopyTree | src/specli/filesystem.py:126 | `copytree` fails with nothing changed when the source is no directory or the target exists. On success it grafts the source inventory at the target. Files outside the target never change. |
| Disk.FileSystem.CopyFiles | src/specli/filesystem.py:168 | `copytree`'s file loop writes every file of the inventory below the target, or reports the failures. |
| Backup.BackupManager.ShouldCreateBackup | src/specli/backup.py:45-51 | With `no_backup` the answer is false and nobody is asked. Otherwise the user is asked, and only an explicit "no" declines. |
| Backup.BackupManager.CreateClaudeBackup | src/specli/backup.py:63-76 | Success exactly when `target/.claude` exists. A failure has the fixed error text and no path. On success the path's parent is `target/.claude-backup`, outside the folder. |
| GitHub.ParseRepositoryUrl | src/specli/github.py:123-166 | Every failure carries the parse error for the input. Every success comes from one of the three supported forms. |
| GitHub.PlainFormParses | src/specli/github.py:143-146 | `o/r` with no `@` and no slash in the parts parses to `(o, r)`. |
| GitHub.HttpsFormParses | src/specli/github.py:149-155 | `https://github.com/o/r` and `.../o/r.git` parse to `(o, r)`. |
| GitHub.HttpsExtraSegmentsIgnored | src/specli/github.py:149-155 | Extra path segments after the repository name are ignored. |
| GitHub.SshFormParses | src/specli/github.py:158-164 | `git@github.com:o/r.git` parses to `(o, r)`. |
| GitHub.SshBareFormParses | src/specli/github.py:158-164 | `git@github.com:o/r` without the ".git" ending parses to `(o, r)`. |
| GitHub.SshExtraSegmentsIgnored | src/specli/github.py:158-164 | Extra path segments after the repository name in an SSH URL are ignored. |
| GitHub.AllFormsAgree | src/specli/github.py:143-164 | All five spellings of one repository (plain, HTTPS with and without ".git", SSH with and without ".git") parse to the same pair. |
| GitHub.NoSlashFails | src/specli/github.py:166 | `invalid-url` is rejected. |
| GitHub.ThreeSegmentsFail | src/specli/github.py:143-146 | An unprefixed `a/b/c` is rejected. |
| GitHub.ClassifyRefusal | src/specli/github.py:193-204 | `404` gives not found. Otherwise `403` gives access denied. Anything else gives a generic failure with the stripped stderr. |
| GitHub.ValidateRepositoryAccess | src/specli/github.py:183-225 | An unparsable identifier is refused. The result is Ok exactly when the identifier parses and the lookup for `owner/repo` answered. |
| GitHub.AnyClaudeDir | src/specli/github.py:366-370 | True exactly when some entry is a directory named `.claude`. |
| GitHub.HasClaudeFolder | src/specli/github.py:366-372 | True exactly when the listing succeeds and has such an entry. False when the listing fails. |
| GitHub.ValidateMultipleRepositories | src/specli/github.py:410-420 | The loop's valid list, invalid list and error map are those of the reference definitions. |
| GitHub.BatchStep | src/specli/github.py:411-419 | One more URL lands in exactly one list, and its error is recorded when it is invalid. |
| GitHub.BatchPartition | src/specli/github.py:410-420 | Every URL lands in exactly one of the two lists, in input order, and `errors` has a key exactly for each invalid URL. |
| GitHub.ValidUrlListed | src/specli/github.py:410-420 | A URL that validates is in the valid list. |
| Output.FormatErrorMessage | src/specli/output.py:22 | The message follows the fixed prefix and can be recovered from it. |
| Output.FormatSuccessMessage | src/specli/output.py:36-46 | Reads "deployed" for deploy or a fresh update, "updated" for any other update, and ends with the target. Any other operation gives the generic text. |
| Output.FreshUpdateReadsAsDeploy | src/specli/output.py:36-41 | An update with `fresh_deploy` gives the same text as a deploy. |
| Output.FormatDryRunMessage | src/specli/output.py:60-63 | With a target it says "to" exactly when the action mentions deploy, and "in" otherwise. With no target it is the bare prefix plus the action. |
| Output.DryRunEnding | src/specli/output.py:60-63 | The ending tells which preposition was used. |
| Output.FormatOperationDetails | src/specli/output.py:79-95 | The counter lines, then the backup line when one was created and its path is known. |
| Output.CounterLinesAreNotBackupLines | src/specli/output.py:79-90 | No counter line looks like the backup line. |
| Output.BackupLineLast | src/specli/output.py:93-95 | The backup line appears exactly when a backup was reported, is last, and shows only the final name of the path. |
| Output.CopyReportShowsCopyCounters | src/specli/output.py:79-84 | A deploy or fresh update shows only the copied-files and copied-bytes lines that are present. |
| Output.UpdateReportOrder | src/specli/output.py:85-90 | An update shows updated, added and preserved, in that order. |
| Output.OtherOperationNoCounters | src/specli/output.py:79-90 | Any other operation shows no counters. |
| Output.FormatConfigMessage | src/specli/output.py:111-120 | The warning is given exactly when the config was not saved. With a file the message names it, as "saved" or "updated". Without a file it is empty. |
| Output.FormatDryRunConfigMessage | src/specli/output.py:163-166 | The file is named only when it was created and given. Otherwise the "would fail" text. |
| Strings.NatToStringInjective | src/specli/filesystem.py:117-124 | Distinct counters render as distinct decimal suffixes, so numbered candidates differ. |
| Paths.TotalSizeUnion | src/specli/filesystem.py:361-363 | The byte total of a disjoint union is the sum of the totals. |

## Left out

- Filesystem permissions are not modelled. Writing a file can fail (the set
  `unwritable`), and `mkdir` fails only below an existing file. Deleting,
  renaming and `rmtree` never fail, so the clean-up's `except` branch
  (`src/specli/filesystem.py:368-369`) cannot be reached in the model.
- Error texts are not modelled. Errors are the values of `Failure` and
  `FsError`, not the exceptions' message strings; `GitHub.Message` gives the
  texts of the repository errors only.
- Directories are tracked only as far as the engine needs. An explicit
  `dirs` set records the directories that hold no file.
- `copy2` metadata, permission bits and symbolic links are left out.
- The walk is taken as a snapshot when a loop starts. A source tree that
  overlaps its target (copying a folder into itself) is outside the model.
- Filesystem.CopyClaudeFolder: the content property (target inventory equals
  the source's, and the exact file map) is stated on success without a
  backup, and with a backup only when the source is apart from both the
  target and the backup path. An overlapping source is walked after the
  backup has moved it, for the reason just given.
- Disk.FileSystem.WriteFile: a failed write is modelled as refused before
  anything changes. In the source, `copy2` opens the target with `wb`, so a
  write that fails partway (a full disk) leaves it emptied or part-written,
  and a failing `copystat` raises after the bytes are already written.
- Filesystem.MergeFile: "an error changes no file" holds only for writes
  refused at open, as under `Disk.FileSystem.WriteFile`.
- Filesystem.MergeOne: likewise, an error changes no file only for writes
  refused at open.
- Filesystem.PartialMerge: "every file keeps its old bytes or holds its
  incoming bytes" leaves out the emptied or part-written file a mid-write
  failure can leave.
- Disk.FileSystem.CopyTree: a file whose write fails is modelled as not
  written at all. In the source, a write that fails partway leaves that file
  emptied or part-written below the target.
- Filesystem.MergeTwice: the second merge is proved successful only on a
  tidy disk (no file below another file). On any other disk, `mkdir` can fail
  in the second merge. It covers an existing target. The copy fallback is
  covered by `CopyThenMerge` (idempotent when the target is named `.claude`)
  and `CopyTwiceElsewhere` (not idempotent otherwise). Both need the source
  apart from the folder the copy writes.
- Filesystem.MergeFiles: `conflicts` is never filled by the source, and the
  model keeps it empty.
- Filesystem.MergeClaudeFolders: when the target is missing, the source
  copies into `<parent>/.claude`, and the model does the same.
  This equals the requested target only when that target is itself named
  `.claude`.
- Clocks are not modelled. `time.time()` is the parameter `ts`;
  `int(...)` of the timestamp is assumed already taken.
- `Path.resolve()` and symbolic-link resolution are left out. Paths are
  taken as already absolute and normalised.
- The `gh` subprocess calls are not modelled: `check_github_cli`,
  `check_authentication`, `clone_repository`, `list_repository_contents`,
  `get_repository_permissions` and `ensure_github_setup`. The lookup and
  the listing are oracle parameters (`Lookup`, `Listing`). JSON decoding
  and time-outs are part of the oracle's answer. The oracle cannot express
  an exception that escapes the lookup: a missing `gh` binary
  (`FileNotFoundError`) or an `"owner": null` in the reply (`AttributeError`
  from `.get`) is no `GitHubRepositoryError`, so in the source it aborts
  `validate_repository_access` and the whole batch of
  `validate_multiple_repositories`.
- `format_github_setup_message` and `format_repository_validation_message`
  (`src/specli/output.py:123-149`) are not part of this model. They are
  field lookups with no branching that matters.
- The click prompt is not modelled; the reply is the input `Reply`.
- Backup.BackupManager.CreateClaudeBackup: it models the placeholder as
  written, and makes no copy.
- `main.py`, `operations.py`, `config.py`, `validation.py` and
  `__init__.py` are not part of this model. They are command-line plumbing
  and placeholders.
